/** Deduplication of mutating requests: at most one execution per key, waiting callers
    coalesced onto it, conflicting payloads refused, finished records evicted.

    Records are shared by reference between the table and waiting callers, so they live in
    a heap that only grows; the table maps printed keys to heap references. Each critical
    section of the registry's mutex is one atomic step. */
module OperationRegistry {

  datatype OperationKey = OperationKey(scope: string, kind: string, requestId: string)

  /** The text a key is filed under. */
  datatype Printed = Printed(text: string)

  function Print(k: OperationKey): Printed {
    Printed(k.scope + ":" + k.kind + ":" + k.requestId)
  }

  datatype OperationState = Unset | Executing | Completed | Failed

  /** `closes` counts how often the done channel has been closed. */
  datatype Record = Record(key: OperationKey, payloadHash: string, state: OperationState, statusCode: int,
                           response: seq<int>, errorMsg: string, completedAt: nat, closes: nat)

  type Ref = nat

  datatype Registry = Registry(heap: seq<Record>, table: map<Printed, Ref>)

  datatype Config = Config(ttl: nat, maxEntries: nat)

  /** What the caller of Finish reports. */
  datatype Report = Report(statusCode: int, response: seq<int>, failed: bool, errorMsg: string, now: nat)

  datatype Claim = ExecuteUnkeyed | Execute(rec: Ref) | Replay(rec: Ref) | Conflict(rec: Ref) | Wait(rec: Ref)

  // ------------------------------------------------------------- printed keys

  predicate ColonFree(s: string) {
    ':' !in s
  }

  lemma LastColon(a: string, b: string, i: nat)
    requires ColonFree(b) && i < |a + ":" + b| && (a + ":" + b)[i] == ':'
    ensures i <= |a|
  {
    assert forall j :: |a| < j < |a + ":" + b| ==> (a + ":" + b)[j] == b[j - |a| - 1];
  }

  lemma SplitAtColon(a: string, b: string, c: string, d: string)
    requires ColonFree(b) && ColonFree(d) && a + ":" + b == c + ":" + d
    ensures a == c && b == d
  {
    var s, t := a + ":" + b, c + ":" + d;
    assert s[|a|] == ':' && t[|c|] == ':' && s == t;
    LastColon(a, b, |c|);
    LastColon(c, d, |a|);
    assert s[..|a|] == a && t[..|a|] == c;
    assert s[|a| + 1..] == b && t[|a| + 1..] == d;
  }

  /** Keys whose kind and request id contain no colon are told apart by their text. */
  lemma PrintInjective(j: OperationKey, k: OperationKey)
    requires ColonFree(j.kind) && ColonFree(k.kind) && ColonFree(j.requestId) && ColonFree(k.requestId)
    ensures Print(j) == Print(k) <==> j == k
  {
    if Print(j) == Print(k) {
      SplitAtColon(j.scope + ":" + j.kind, j.requestId, k.scope + ":" + k.kind, k.requestId);
      SplitAtColon(j.scope, j.kind, k.scope, k.kind);
    }
  }

  lemma {:induction false} CutAtLastColon(s: string) returns (a: string, b: string)
    requires !ColonFree(s)
    ensures s == a + ":" + b && ColonFree(b)
    decreases |s|
  {
    var n := |s| - 1;
    if s[n] == ':' {
      a, b := s[..n], "";
      assert s == a + ":" + b;
    } else {
      assert s == s[..n] + [s[n]];
      a, b := CutAtLastColon(s[..n]);
      b := b + [s[n]];
      assert s == a + ":" + b;
    }
  }

  /** Kinds are constants without a colon; request ids come from clients. A key is told apart
      from all keys with well-formed request ids exactly if its own holds no colon. */
  lemma PrintInjectiveExactly(k: OperationKey)
    requires ColonFree(k.kind)
    ensures ColonFree(k.requestId) <==>
            forall j: OperationKey :: ColonFree(j.kind) && ColonFree(j.requestId) && Print(j) == Print(k) ==> j == k
  {
    hide Print;
    if ColonFree(k.requestId) {
      forall j: OperationKey | ColonFree(j.kind) && ColonFree(j.requestId) && Print(j) == Print(k) ensures j == k {
        PrintInjective(j, k);
      }
    } else {
      var j := CollidingKey(k);
    }
  }

  /** The text split at its last two colons gives a different key. */
  lemma CollidingKey(k: OperationKey) returns (j: OperationKey)
    requires !ColonFree(k.requestId)
    ensures ColonFree(j.kind) && ColonFree(j.requestId) && Print(j) == Print(k) && j != k
  {
    var rest, id := CutAtLastColon(k.requestId);
    var front := k.scope + ":" + k.kind + ":" + rest;
    assert front[|k.scope|] == ':';
    var scope, kind := CutAtLastColon(front);
    j := OperationKey(scope, kind, id);
    assert k.scope + ":" + k.kind + ":" + k.requestId == front + ":" + id;
  }

  /** With real kinds as well: a request id that starts with a kind and a colon collides. */
  lemma PrintCollision(scope: string, kind: string, inner: string, requestId: string)
    ensures var j := OperationKey(scope, kind, inner + ":" + requestId);
            var k := OperationKey(scope + ":" + kind, inner, requestId);
            j != k && Print(j) == Print(k)
  {
    assert |scope + ":" + kind| > |scope|;
    assert scope + ":" + kind + ":" + (inner + ":" + requestId) == scope + ":" + kind + ":" + inner + ":" + requestId;
  }

  // ----------------------------------------------------------- atomic steps

  predicate Finished(r: Record) {
    r.state == Completed || r.state == Failed
  }

  ghost predicate Expired(c: Config, r: Registry, k: Printed, now: nat)
    requires k in r.table && r.table[k] < |r.heap|
  {
    Finished(r.heap[r.table[k]]) && now - r.heap[r.table[k]].completedAt > c.ttl
  }

  /** References in the table are valid. */
  ghost predicate RefsValid(r: Registry) {
    forall k :: k in r.table ==> r.table[k] < |r.heap|
  }

  ghost function Unexpired(c: Config, r: Registry, now: nat): map<Printed, Ref>
    requires RefsValid(r)
  {
    map k | k in r.table && !Expired(c, r, k, now) :: r.table[k]
  }

  /** k is finished, and none finished earlier; ties may be broken either way. */
  ghost predicate OldestFinished(r: Registry, table: map<Printed, Ref>, k: Printed)
    requires forall j :: j in table ==> table[j] < |r.heap|
  {
    && k in table && Finished(r.heap[table[k]])
    && forall j :: j in table && Finished(r.heap[table[j]]) ==>
        r.heap[table[k]].completedAt <= r.heap[table[j]].completedAt
  }

  /** The table after eviction: untouched below the limit; else without the expired entries
      and, if that was not enough, without one oldest finished entry, if there is any. */
  ghost predicate Evicts(c: Config, r: Registry, now: nat, table': map<Printed, Ref>)
    requires RefsValid(r)
  {
    if |r.table| < c.maxEntries then table' == r.table
    else
      var kept := Unexpired(c, r, now);
      if |kept| < c.maxEntries then table' == kept
      else
        || (exists k :: OldestFinished(r, kept, k) && table' == kept - {k})
        || (table' == kept && forall k :: k in kept ==> !Finished(r.heap[kept[k]]))
  }

  function NewRecord(key: OperationKey, hash: string): Record {
    Record(key, hash, Executing, 0, [], "", 0, 0)
  }

  /** The locked part of ClaimOrWait. */
  ghost predicate Claims(c: Config, r: Registry, key: OperationKey, hash: string, now: nat, claim: Claim, r': Registry)
    requires RefsValid(r)
  {
    if key.requestId == "" then claim == ExecuteUnkeyed && r' == r
    else
      exists table :: Evicts(c, r, now, table) && ClaimsIn(r.(table := table), key, hash, claim, r')
  }

  ghost predicate ClaimsIn(r: Registry, key: OperationKey, hash: string, claim: Claim, r': Registry) {
    var k := Print(key);
    if k !in r.table then
      claim == Execute(|r.heap|) && r' == Registry(r.heap + [NewRecord(key, hash)], r.table[k := |r.heap|])
    else
      && r' == r && r.table[k] < |r.heap|
      && claim == (if r.heap[r.table[k]].payloadHash != hash then Conflict(r.table[k])
                   else if Finished(r.heap[r.table[k]]) then Replay(r.table[k])
                   else Wait(r.table[k]))
  }

  /** A record after its operation has been reported finished. */
  function Finish(rec: Record, p: Report): (r: Record)
    ensures Finished(r) && r.key == rec.key && r.payloadHash == rec.payloadHash
    ensures r.closes == if rec.closes == 0 then 1 else rec.closes
  {
    rec.(statusCode := p.statusCode,
         response := if |p.response| > 0 then p.response else rec.response,
         completedAt := p.now,
         state := if p.failed then Failed else Completed,
         errorMsg := if p.failed then p.errorMsg else rec.errorMsg,
         closes := if rec.closes == 0 then 1 else rec.closes)
  }

  ghost predicate FinishesRef(r: Registry, ref: Ref, p: Report, r': Registry) {
    ref < |r.heap| && r' == r.(heap := r.heap[ref := Finish(r.heap[ref], p)])
  }

  /** Finish: the resident record, or a new one if the key is not in the table. */
  ghost predicate Finishes(r: Registry, key: OperationKey, p: Report, r': Registry) {
    if key.requestId == "" then r' == r
    else if Print(key) in r.table then FinishesRef(r, r.table[Print(key)], p, r')
    else
      var blank := Record(key, "", Unset, 0, [], "", 0, 0);
      r' == Registry(r.heap + [Finish(blank, p)], r.table[Print(key) := |r.heap|])
  }

  /** A resident record with this request id. */
  predicate HoldsId(r: Registry, requestId: string, k: Printed) {
    k in r.table && r.table[k] < |r.heap| && r.heap[r.table[k]].key.requestId == requestId != ""
  }

  /** FinishByRequestID: some resident record with that request id. */
  ghost predicate FinishesById(r: Registry, requestId: string, p: Report, r': Registry) {
    if exists k :: HoldsId(r, requestId, k)
    then exists k :: HoldsId(r, requestId, k) && FinishesRef(r, r.table[k], p, r')
    else r' == r
  }

  /** The lookup after waking: the record now filed under the key, or else the one waited for. */
  function Latest(r: Registry, k: Printed, waitedFor: Ref): Ref {
    if k in r.table then r.table[k] else waitedFor
  }

  // ------------------------------------------------------ registry invariant

  ghost predicate RecordOk(r: Registry, i: Ref)
    requires i < |r.heap|
  {
    var rec := r.heap[i];
    && (rec.state == Executing || Finished(rec))
    && (rec.state == Executing <==> rec.closes == 0)
    && rec.closes <= 1
    && (Finished(rec) ==> rec.completedAt > 0)
    && (rec.state == Executing ==> Print(rec.key) in r.table && r.table[Print(rec.key)] == i)
  }

  /** The done channel of a record is closed, once, exactly when it is no longer executing;
      an executing record is always resident; entries are filed under their own key. */
  ghost predicate RegistryInv(r: Registry) {
    && RefsValid(r)
    && (forall k :: k in r.table ==> Print(r.heap[r.table[k]].key) == k)
    && (forall i {:trigger RecordOk(r, i)} :: 0 <= i < |r.heap| ==> RecordOk(r, i))
  }

  /** Nothing forgets a record: keys and payload hashes stay, finished stays finished. */
  ghost predicate HeapGrows(h: seq<Record>, h': seq<Record>) {
    && |h| <= |h'|
    && forall i {:trigger h[i]} {:trigger h'[i]} :: 0 <= i < |h| ==>
         h'[i].key == h[i].key && h'[i].payloadHash == h[i].payloadHash && (Finished(h[i]) ==> Finished(h'[i]))
  }

  lemma EvictionShrinks(c: Config, r: Registry, now: nat, table': map<Printed, Ref>)
    requires RefsValid(r) && Evicts(c, r, now, table')
    ensures forall k :: k in table' ==> k in r.table && table'[k] == r.table[k]
    ensures forall k :: k in r.table && !Finished(r.heap[r.table[k]]) ==> k in table'
  {
    hide Finished;
  }

  /** Eviction never takes an executing record. */
  lemma EvictionKeepsExecuting(c: Config, r: Registry, now: nat, table': map<Printed, Ref>)
    requires RegistryInv(r) && Evicts(c, r, now, table')
    ensures RegistryInv(r.(table := table'))
    ensures forall k :: k in table' ==> k in r.table && table'[k] == r.table[k] < |r.heap|
    ensures forall k :: k in r.table && r.heap[r.table[k]].state == Executing ==> k in table'
  {
    EvictionShrinks(c, r, now, table');
    hide Print, Evicts;
    forall i | 0 <= i < |r.heap| ensures RecordOk(r.(table := table'), i) {
      assert RecordOk(r, i);
    }
  }

  lemma ClaimInInv(r: Registry, key: OperationKey, hash: string, claim: Claim, r': Registry)
    requires RegistryInv(r) && ClaimsIn(r, key, hash, claim, r')
    ensures RegistryInv(r') && HeapGrows(r.heap, r'.heap)
  {
    hide Print;
    forall i | 0 <= i < |r'.heap| ensures RecordOk(r', i) {
      if i < |r.heap| { assert RecordOk(r, i); }
    }
  }

  lemma ClaimInv(c: Config, r: Registry, key: OperationKey, hash: string, now: nat, claim: Claim, r': Registry)
    requires RegistryInv(r) && Claims(c, r, key, hash, now, claim, r')
    ensures RegistryInv(r') && HeapGrows(r.heap, r'.heap)
  {
    if key.requestId != "" {
      var table :| Evicts(c, r, now, table) && ClaimsIn(r.(table := table), key, hash, claim, r');
      EvictionKeepsExecuting(c, r, now, table);
      ClaimInInv(r.(table := table), key, hash, claim, r');
    }
  }

  lemma FinishRefInv(r: Registry, ref: Ref, p: Report, r': Registry)
    requires RegistryInv(r) && p.now > 0 && FinishesRef(r, ref, p, r')
    ensures RegistryInv(r') && HeapGrows(r.heap, r'.heap) && r'.heap[ref].closes == 1
  {
    hide Print;
    assert RecordOk(r, ref);
    forall i | 0 <= i < |r'.heap| ensures RecordOk(r', i) {
      assert RecordOk(r, i);
    }
  }

  lemma FinishInv(r: Registry, key: OperationKey, p: Report, r': Registry)
    requires RegistryInv(r) && p.now > 0 && Finishes(r, key, p, r')
    ensures RegistryInv(r') && HeapGrows(r.heap, r'.heap)
  {
    hide Print;
    if key.requestId != "" {
      if Print(key) in r.table {
        FinishRefInv(r, r.table[Print(key)], p, r');
      } else {
        forall i | 0 <= i < |r'.heap| ensures RecordOk(r', i) {
          if i < |r.heap| { assert RecordOk(r, i); }
        }
      }
    }
  }

  /** Everything in the table is still executing. */
  ghost predicate AllExecuting(r: Registry) {
    forall k :: k in r.table ==> r.table[k] < |r.heap| && !Finished(r.heap[r.table[k]])
  }

  lemma EvictionSize(c: Config, r: Registry, now: nat, table': map<Printed, Ref>)
    requires RegistryInv(r) && Evicts(c, r, now, table')
    ensures table'.Keys <= r.table.Keys
    ensures |table'| < c.maxEntries || |table'| < |r.table| || AllExecuting(r.(table := table'))
  {
    assert RefsValid(r);
    hide RegistryInv;
    var kept := Unexpired(c, r, now);
    hide Print, Finished, Expired;
    assert forall k :: k in kept ==> kept[k] < |r.heap|;
    assert kept.Keys <= r.table.Keys;
    hide Unexpired, OldestFinished, AllExecuting, RefsValid;
    SmallerTable(kept, r.table);
    if |r.table| >= c.maxEntries && |kept| >= c.maxEntries {
      if k :| OldestFinished(r, kept, k) && table' == kept - {k} {
        OneLess(r, kept, k);
      } else {
        NothingToEvict(r, kept);
      }
    }
  }

  lemma NothingToEvict(r: Registry, table: map<Printed, Ref>)
    requires forall k :: k in table ==> table[k] < |r.heap| && !Finished(r.heap[table[k]])
    ensures AllExecuting(r.(table := table))
  {
  }

  lemma SmallerTable(table: map<Printed, Ref>, table0: map<Printed, Ref>)
    requires table.Keys <= table0.Keys
    ensures |table| <= |table0|
  {
    SubsetSize(table.Keys, table0.Keys);
    assert |table| == |table.Keys| && |table0| == |table0.Keys|;
  }

  lemma OneLess(r: Registry, table: map<Printed, Ref>, k: Printed)
    requires (forall j :: j in table ==> table[j] < |r.heap|) && OldestFinished(r, table, k)
    ensures |table - {k}| == |table| - 1 && (table - {k}).Keys == table.Keys - {k}
  {
    hide Finished;
    var rest := table - {k};
    assert rest.Keys == table.Keys - {k};
    assert |rest| == |rest.Keys| && |table| == |table.Keys|;
  }

  /** The table outgrows its limit only while everything in it is executing. */
  lemma GrantKeepsSize(c: Config, r: Registry, key: OperationKey, hash: string, now: nat, claim: Claim, r': Registry)
    requires RegistryInv(r) && Claims(c, r, key, hash, now, claim, r') && claim.Execute?
    ensures |r'.table| <= c.maxEntries || |r'.table| <= |r.table| || AllExecuting(r')
  {
    var table :| Evicts(c, r, now, table) && ClaimsIn(r.(table := table), key, hash, claim, r');
    hide *;
    EvictionSize(c, r, now, table);
    GrantShape(r.(table := table), key, hash, claim, r');
    AddedEntry(table, Print(key), |r.heap|);
    if AllExecuting(r.(table := table)) {
      NoneFinished(r, table, key, hash, r');
    }
  }

  lemma GrantShape(r: Registry, key: OperationKey, hash: string, claim: Claim, r': Registry)
    requires ClaimsIn(r, key, hash, claim, r') && claim.Execute?
    ensures r' == Registry(r.heap + [NewRecord(key, hash)], r.table[Print(key) := |r.heap|]) && Print(key) !in r.table
  {
    hide Print;
  }

  lemma AddedEntry(table: map<Printed, Ref>, k: Printed, ref: Ref)
    requires k !in table
    ensures |table[k := ref]| == |table| + 1
  {
    assert table[k := ref].Keys == table.Keys + {k};
    assert |table[k := ref]| == |table[k := ref].Keys| && |table| == |table.Keys|;
  }

  lemma NoneFinished(r: Registry, table: map<Printed, Ref>, key: OperationKey, hash: string, r': Registry)
    requires AllExecuting(r.(table := table))
    requires r' == Registry(r.heap + [NewRecord(key, hash)], table[Print(key) := |r.heap|])
    ensures AllExecuting(r')
  {
    hide Print;
  }

  lemma SubsetSize<T>(a: set<T>, b: set<T>)
    requires a <= b
    ensures |a| <= |b|
  {
    if a == {} {
    } else {
      var x :| x in a;
      SubsetSize(a - {x}, b - {x});
    }
  }

  // --------------------------------------------- all callers, all interleavings

  /** A parked caller: the record it waits for, the text of its key and its payload hash. */
  datatype Ticket = Ticket(rec: Ref, printed: Printed, hash: string)

  /** What has happened so far, for the history of grants. */
  datatype Event =
    | Granted(printed: Printed, rec: Ref)
    | Reported(printed: Printed, rec: Ref)
    | Evicted(gone: map<Printed, Ref>)

  datatype System = System(reg: Registry, parked: map<nat, Ticket>, log: seq<Event>)

  datatype Step =
    | ClaimStep(caller: nat, key: OperationKey, hash: string, now: nat, claim: Claim)
    | WakeStep(caller: nat, result: Ref)
    | CancelStep(caller: nat)
    | FinishStep(key: OperationKey, report: Report)
    | FinishByIdStep(requestId: string, report: Report)

  /** The entries of the table that the table after the step does not have. */
  function Gone(table: map<Printed, Ref>, table': map<Printed, Ref>): map<Printed, Ref> {
    map k | k in table && !(k in table' && table'[k] == table[k]) :: table[k]
  }

  ghost predicate Next(c: Config, s: System, e: Step, s': System)
    requires RefsValid(s.reg)
  {
    match e
    case ClaimStep(caller, key, hash, now, claim) =>
      && caller !in s.parked
      && Claims(c, s.reg, key, hash, now, claim, s'.reg)
      && s'.parked == (if claim.Wait? then s.parked[caller := Ticket(claim.rec, Print(key), hash)] else s.parked)
      && s'.log == s.log + [Evicted(Gone(s.reg.table, s'.reg.table))]
          + (if claim.Execute? then [Granted(Print(key), claim.rec)] else [])
    case WakeStep(caller, result) =>
      && caller in s.parked
      && s.parked[caller].rec < |s.reg.heap| && s.reg.heap[s.parked[caller].rec].closes > 0
      && result == Latest(s.reg, s.parked[caller].printed, s.parked[caller].rec)
      && s' == s.(parked := s.parked - {caller})
    case CancelStep(caller) =>
      caller in s.parked && s' == s.(parked := s.parked - {caller})
    case FinishStep(key, report) =>
      && report.now > 0 && s'.parked == s.parked
      && Finishes(s.reg, key, report, s'.reg)
      && (if key.requestId == "" then s'.log == s.log
          else s'.log == s.log + [Reported(Print(key), s'.reg.table[Print(key)])])
    case FinishByIdStep(requestId, report) =>
      && report.now > 0 && s'.parked == s.parked
      && (if exists k :: HoldsId(s.reg, requestId, k)
          then exists k :: HoldsId(s.reg, requestId, k) && FinishesRef(s.reg, s.reg.table[k], report, s'.reg)
                           && s'.log == s.log + [Reported(k, s.reg.table[k])]
          else s'.reg == s.reg && s'.log == s.log)
  }

  // ------------------------------------------------------- system invariant

  ghost predicate TicketOk(r: Registry, t: Ticket) {
    && t.rec < |r.heap|
    && Print(r.heap[t.rec].key) == t.printed
    && r.heap[t.rec].payloadHash == t.hash
  }

  ghost predicate ReportedBetween(log: seq<Event>, i: nat, j: nat, k: Printed, ref: Ref) {
    exists a :: i < a < j <= |log| && log[a] == Reported(k, ref)
  }

  /** The record was reported finished, and after that evicted. */
  ghost predicate GoneBetween(log: seq<Event>, i: nat, j: nat, k: Printed, ref: Ref) {
    exists a, b :: i < a < b < j <= |log| && log[a] == Reported(k, ref) && EvictsEntry(log[b], k, ref)
  }

  predicate EvictsEntry(e: Event, k: Printed, ref: Ref) {
    e.Evicted? && k in e.gone && e.gone[k] == ref
  }

  predicate Resident(r: Registry, k: Printed, ref: Ref) {
    k in r.table && r.table[k] == ref
  }

  ghost predicate GrantOk(s: System, i: nat)
    requires i < |s.log| && s.log[i].Granted?
  {
    var k, ref := s.log[i].printed, s.log[i].rec;
    && ref < |s.reg.heap|
    && (Finished(s.reg.heap[ref]) ==> ReportedBetween(s.log, i, |s.log|, k, ref))
    && (!Resident(s.reg, k, ref) ==> GoneBetween(s.log, i, |s.log|, k, ref))
  }

  ghost predicate Separated(log: seq<Event>, i: nat, j: nat)
    requires i < |log| && j < |log|
  {
    i < j && log[i].Granted? && log[j].Granted? && log[i].printed == log[j].printed ==>
      GoneBetween(log, i, j, log[i].printed, log[i].rec)
  }

  ghost predicate SystemInv(s: System) {
    && RegistryInv(s.reg)
    && (forall w {:trigger s.parked[w]} :: w in s.parked ==> TicketOk(s.reg, s.parked[w]))
    && (forall i {:trigger GrantOk(s, i)} :: 0 <= i < |s.log| && s.log[i].Granted? ==> GrantOk(s, i))
    && (forall i, j {:trigger Separated(s.log, i, j)} :: 0 <= i < |s.log| && 0 <= j < |s.log| ==>
        Separated(s.log, i, j))
  }

  lemma BetweenInLonger(log: seq<Event>, more: seq<Event>, i: nat, j: nat, k: Printed, ref: Ref)
    requires j <= |log|
    ensures ReportedBetween(log, i, j, k, ref) ==>
            ReportedBetween(log + more, i, j, k, ref) && ReportedBetween(log + more, i, |log + more|, k, ref)
    ensures GoneBetween(log, i, j, k, ref) ==>
            GoneBetween(log + more, i, j, k, ref) && GoneBetween(log + more, i, |log + more|, k, ref)
  {
    var long := log + more;
    if ReportedBetween(log, i, j, k, ref) {
      var a :| i < a < j <= |log| && log[a] == Reported(k, ref);
      assert long[a] == Reported(k, ref);
    }
    if GoneBetween(log, i, j, k, ref) {
      var a, b :| i < a < b < j <= |log| && log[a] == Reported(k, ref) && EvictsEntry(log[b], k, ref);
      assert long[a] == Reported(k, ref) && EvictsEntry(long[b], k, ref);
    }
  }

  lemma TicketsKept(r: Registry, r': Registry, t: Ticket)
    requires TicketOk(r, t) && HeapGrows(r.heap, r'.heap)
    ensures TicketOk(r', t)
  {
  }

  /** Separation of grants survives appending events other than grants. */
  lemma SeparationKept(log: seq<Event>, more: seq<Event>)
    requires forall i, j {:trigger Separated(log, i, j)} :: 0 <= i < |log| && 0 <= j < |log| ==> Separated(log, i, j)
    requires forall i :: 0 <= i < |more| ==> !more[i].Granted?
    ensures forall i, j {:trigger Separated(log + more, i, j)} :: 0 <= i < |log + more| && 0 <= j < |log + more| ==>
        Separated(log + more, i, j)
  {
    forall i, j | 0 <= i < |log + more| && 0 <= j < |log + more| ensures Separated(log + more, i, j) {
      if i < j < |log| {
        assert Separated(log, i, j);
        if log[i].Granted? { BetweenInLonger(log, more, i, j, log[i].printed, log[i].rec); }
      }
    }
  }

  /** A report appended to the log, and the matching change of the registry. */
  lemma ReportKeepsGrant(s: System, s': System, k: Printed, ref: Ref, i: nat)
    requires i < |s.log| && s.log[i].Granted? && GrantOk(s, i) && s'.log == s.log + [Reported(k, ref)]
    requires |s.reg.heap| <= |s'.reg.heap|
    requires forall j :: 0 <= j < |s.reg.heap| && j != ref ==> s'.reg.heap[j] == s.reg.heap[j]
    requires s'.reg.table == s.reg.table[k := ref] && (k in s.reg.table ==> s.reg.table[k] == ref)
    requires Resident(s.reg, s.log[i].printed, ref) ==> s.log[i].printed == k
    ensures s'.log[i] == s.log[i] && GrantOk(s', i)
  {
    hide Print, Finished;
    var k0, ref0 := s.log[i].printed, s.log[i].rec;
    BetweenInLonger(s.log, [Reported(k, ref)], i, |s.log|, k0, ref0);
    assert ref0 == ref ==> ReportedBetween(s'.log, i, |s'.log|, k0, ref0) by {
      if Resident(s.reg, k0, ref) {
        assert s'.log[|s.log|] == Reported(k0, ref);
      } else if ref0 == ref {
        GoneWasReported(s'.log, i, |s'.log|, k0, ref0);
      }
    }
    hide GoneBetween, ReportedBetween;
  }

  lemma GoneWasReported(log: seq<Event>, i: nat, j: nat, k: Printed, ref: Ref)
    requires GoneBetween(log, i, j, k, ref)
    ensures ReportedBetween(log, i, j, k, ref)
  {
    hide EvictsEntry;
  }

  lemma ReportKeepsGrants(s: System, s': System, k: Printed, ref: Ref)
    requires SystemInv(s) && RegistryInv(s'.reg) && s'.log == s.log + [Reported(k, ref)]
    requires |s.reg.heap| <= |s'.reg.heap| && forall i :: 0 <= i < |s.reg.heap| && i != ref ==>
        s'.reg.heap[i] == s.reg.heap[i]
    requires s'.reg.table == s.reg.table[k := ref] && (k in s.reg.table ==> s.reg.table[k] == ref)
    requires ref < |s.reg.heap| ==> Resident(s.reg, k, ref)
    ensures forall i {:trigger GrantOk(s', i)} :: 0 <= i < |s'.log| && s'.log[i].Granted? ==> GrantOk(s', i)
  {
    FiledUnderOneKey(s.reg, k, ref);
    assert forall i {:trigger GrantOk(s, i)} :: 0 <= i < |s.log| && s.log[i].Granted? ==> GrantOk(s, i);
    hide Print, SystemInv, RegistryInv, GrantOk;
    forall i | 0 <= i < |s'.log| && s'.log[i].Granted? ensures GrantOk(s', i) {
      assert i < |s.log| && s.log[i] == s'.log[i];
      ReportKeepsGrant(s, s', k, ref, i);
    }
  }

  lemma FiledUnderOneKey(r: Registry, k: Printed, ref: Ref)
    requires RegistryInv(r) && (ref < |r.heap| ==> Resident(r, k, ref))
    ensures forall k0 :: Resident(r, k0, ref) ==> k0 == k
  {
    hide Print;
  }

  lemma LogOnlyEvictions(s: System, s': System, table: map<Printed, Ref>, gone: map<Printed, Ref>)
    requires SystemInv(s) && s'.log == s.log + [Evicted(gone)]
    requires s'.reg == s.reg.(table := table) && RegistryInv(s'.reg)
    requires forall k, ref :: Resident(s.reg, k, ref) && !Resident(s'.reg, k, ref) ==>
        EvictsEntry(Evicted(gone), k, ref)
    requires forall k, ref :: Resident(s'.reg, k, ref) ==> Resident(s.reg, k, ref)
    ensures forall i {:trigger GrantOk(s', i)} :: 0 <= i < |s'.log| && s'.log[i].Granted? ==> GrantOk(s', i)
  {
    hide Print, EvictsEntry, Resident;
    var e := Evicted(gone);
    forall i | 0 <= i < |s'.log| && s'.log[i].Granted? ensures GrantOk(s', i) {
      assert i < |s.log| && s.log[i] == s'.log[i];
      assert GrantOk(s, i);
      var k, ref := s.log[i].printed, s.log[i].rec;
      BetweenInLonger(s.log, [e], i, |s.log|, k, ref);
      if Resident(s.reg, k, ref) && !Resident(s'.reg, k, ref) {
        assert Finished(s.reg.heap[ref]) by { GrantedKey(s, i); ResidentUnlessFinished(s'.reg, k, ref); }
        var a :| i < a < |s.log| && s.log[a] == Reported(k, ref);
        assert s'.log[a] == Reported(k, ref) && EvictsEntry(s'.log[|s.log|], k, ref);
      }
    }
  }

  lemma ResidentUnlessFinished(r: Registry, k: Printed, ref: Ref)
    requires RegistryInv(r) && ref < |r.heap| && Print(r.heap[ref].key) == k && !Resident(r, k, ref)
    ensures Finished(r.heap[ref])
  {
    assert RecordOk(r, ref);
  }

  lemma GrantedKey(s: System, i: nat)
    requires SystemInv(s) && i < |s.log| && s.log[i].Granted? && Resident(s.reg, s.log[i].printed, s.log[i].rec)
    ensures s.log[i].rec < |s.reg.heap| && Print(s.reg.heap[s.log[i].rec].key) == s.log[i].printed
  {
    hide Print;
  }

  lemma GrantAppended(s: System, s': System, k: Printed)
    requires SystemInv(s) && k !in s.reg.table
    requires s'.log == s.log + [Granted(k, |s.reg.heap|)] && RegistryInv(s'.reg)
    requires s'.reg.table == s.reg.table[k := |s.reg.heap|] && |s'.reg.heap| == |s.reg.heap| + 1
    requires s'.reg.heap[..|s.reg.heap|] == s.reg.heap && !Finished(s'.reg.heap[|s.reg.heap|])
    ensures forall i {:trigger GrantOk(s', i)} :: 0 <= i < |s'.log| && s'.log[i].Granted? ==> GrantOk(s', i)
    ensures forall i, j {:trigger Separated(s'.log, i, j)} :: 0 <= i < |s'.log| && 0 <= j < |s'.log| ==>
        Separated(s'.log, i, j)
  {
    hide Print, EvictsEntry;
    var more := [Granted(k, |s.reg.heap|)];
    forall i | 0 <= i < |s'.log| && s'.log[i].Granted? ensures GrantOk(s', i) {
      if i < |s.log| {
        assert s.log[i] == s'.log[i] && GrantOk(s, i);
        var k0, ref := s.log[i].printed, s.log[i].rec;
        assert s'.reg.heap[ref] == s'.reg.heap[..|s.reg.heap|][ref];
        BetweenInLonger(s.log, more, i, |s.log|, k0, ref);
      }
    }
    forall i, j | 0 <= i < |s'.log| && 0 <= j < |s'.log| ensures Separated(s'.log, i, j) {
      if i < j && s'.log[i].Granted? && s'.log[j].Granted? && s'.log[i].printed == s'.log[j].printed {
        assert s.log[i] == s'.log[i];
        var k0, ref := s.log[i].printed, s.log[i].rec;
        if j < |s.log| {
          assert Separated(s.log, i, j) && s.log[j] == s'.log[j];
          BetweenInLonger(s.log, more, i, j, k0, ref);
        } else {
          assert GrantOk(s, i) && !Resident(s.reg, k, ref);
          BetweenInLonger(s.log, more, i, |s.log|, k0, ref);
        }
      }
    }
  }

  lemma ClaimStepInv(c: Config, s: System, caller: nat, key: OperationKey, hash: string, now: nat, claim: Claim,
                     s': System)
    requires SystemInv(s) && Next(c, s, ClaimStep(caller, key, hash, now, claim), s')
    ensures SystemInv(s')
  {
    ClaimInv(c, s.reg, key, hash, now, claim, s'.reg);
    var gone := Gone(s.reg.table, s'.reg.table);
    if key.requestId == "" {
      LogUnchangedButEvicted(s, s', s.reg.table, gone);
    } else {
      var table :| Evicts(c, s.reg, now, table) && ClaimsIn(s.reg.(table := table), key, hash, claim, s'.reg);
      EvictionKeepsExecuting(c, s.reg, now, table);
      var mid := System(s.reg.(table := table), s.parked, s.log + [Evicted(gone)]);
      GoneCovers(s.reg, table, s'.reg, key, hash, claim);
      LogUnchangedButEvicted(s, mid, table, gone);
      FinishClaim(mid, key, hash, claim, s', caller);
    }
  }

  lemma GoneCovers(r: Registry, table: map<Printed, Ref>, r': Registry, key: OperationKey, hash: string, claim: Claim)
    requires RefsValid(r) && forall k :: k in table ==> k in r.table && table[k] == r.table[k]
    requires ClaimsIn(r.(table := table), key, hash, claim, r')
    ensures forall k, ref :: Resident(r, k, ref) && !Resident(r.(table := table), k, ref) ==>
                             EvictsEntry(Evicted(Gone(r.table, r'.table)), k, ref)
  {
    hide Print;
  }

  lemma LogUnchangedButEvicted(s: System, s': System, table: map<Printed, Ref>, gone: map<Printed, Ref>)
    requires SystemInv(s) && s'.log == s.log + [Evicted(gone)] && s'.parked == s.parked
    requires s'.reg == s.reg.(table := table) && RegistryInv(s'.reg)
    requires forall k :: k in table ==> k in s.reg.table && table[k] == s.reg.table[k]
    requires forall k, ref :: Resident(s.reg, k, ref) && !Resident(s'.reg, k, ref) ==>
        EvictsEntry(Evicted(gone), k, ref)
    ensures SystemInv(s')
  {
    LogOnlyEvictions(s, s', table, gone);
    hide Print;
    SeparationKept(s.log, [Evicted(gone)]);
    forall w | w in s'.parked ensures TicketOk(s'.reg, s'.parked[w]) {
      assert TicketOk(s.reg, s.parked[w]);
    }
  }

  lemma FinishClaim(s: System, key: OperationKey, hash: string, claim: Claim, s': System, caller: nat)
    requires SystemInv(s) && ClaimsIn(s.reg, key, hash, claim, s'.reg) && RegistryInv(s'.reg)
        && HeapGrows(s.reg.heap, s'.reg.heap)
    requires s'.parked == (if claim.Wait? then s.parked[caller := Ticket(claim.rec, Print(key), hash)] else s.parked)
    requires s'.log == s.log + (if claim.Execute? then [Granted(Print(key), claim.rec)] else [])
    ensures SystemInv(s')
  {
    var k := Print(key);
    assert claim.Wait? ==> TicketOk(s'.reg, Ticket(claim.rec, k, hash));
    hide Print;
    forall w | w in s'.parked ensures TicketOk(s'.reg, s'.parked[w]) {
      if !(claim.Wait? && w == caller) {
        assert TicketOk(s.reg, s.parked[w]);
        TicketsKept(s.reg, s'.reg, s.parked[w]);
      }
    }
    if claim.Execute? {
      GrantAppended(s, s', k);
    } else {
      assert s'.log == s.log && s'.reg == s.reg;
      forall i | 0 <= i < |s'.log| && s'.log[i].Granted? ensures GrantOk(s', i) {
        assert GrantOk(s, i);
      }
    }
  }

  lemma ReportStepInv(s: System, s': System, k: Printed, ref: Ref)
    requires SystemInv(s) && RegistryInv(s'.reg) && HeapGrows(s.reg.heap, s'.reg.heap) && s'.parked == s.parked
    requires s'.log == s.log + [Reported(k, ref)]
    requires forall i :: 0 <= i < |s.reg.heap| && i != ref ==> s'.reg.heap[i] == s.reg.heap[i]
    requires s'.reg.table == s.reg.table[k := ref] && (k in s.reg.table ==> s.reg.table[k] == ref)
    requires ref < |s.reg.heap| ==> Resident(s.reg, k, ref)
    ensures SystemInv(s')
  {
    ReportKeepsGrants(s, s', k, ref);
    SeparationKept(s.log, [Reported(k, ref)]);
    forall w | w in s'.parked ensures TicketOk(s'.reg, s'.parked[w]) {
      TicketsKept(s.reg, s'.reg, s.parked[w]);
    }
  }

  lemma FinishStepInv(c: Config, s: System, key: OperationKey, report: Report, s': System)
    requires SystemInv(s) && Next(c, s, FinishStep(key, report), s')
    ensures SystemInv(s')
  {
    FinishInv(s.reg, key, report, s'.reg);
    if key.requestId == "" {
      assert s' == s;
    } else {
      var k := Print(key);
      hide Print, RegistryInv, HeapGrows, Finish;
      ReportStepInv(s, s', k, s'.reg.table[k]);
    }
  }

  lemma ResidentReportInv(s: System, k: Printed, report: Report, s': System)
    requires SystemInv(s) && k in s.reg.table && report.now > 0 && s'.parked == s.parked
    requires FinishesRef(s.reg, s.reg.table[k], report, s'.reg)
    requires s'.log == s.log + [Reported(k, s.reg.table[k])]
    ensures SystemInv(s')
  {
    FinishRefInv(s.reg, s.reg.table[k], report, s'.reg);
    hide Print, RegistryInv, HeapGrows, Finish;
    ReportStepInv(s, s', k, s.reg.table[k]);
  }

  lemma FinishByIdStepInv(c: Config, s: System, requestId: string, report: Report, s': System)
    requires SystemInv(s) && Next(c, s, FinishByIdStep(requestId, report), s')
    ensures SystemInv(s')
  {
    hide Print, Finish, FinishesRef;
    if exists k :: HoldsId(s.reg, requestId, k) {
      var k :| HoldsId(s.reg, requestId, k) && FinishesRef(s.reg, s.reg.table[k], report, s'.reg)
               && s'.log == s.log + [Reported(k, s.reg.table[k])];
      ResidentReportInv(s, k, report, s');
    } else {
      assert s' == s;
    }
  }

  lemma LeaveStepInv(s: System, s': System, caller: nat)
    requires SystemInv(s) && s' == s.(parked := s.parked - {caller})
    ensures SystemInv(s')
  {
    hide Print;
    forall w | w in s'.parked ensures TicketOk(s'.reg, s'.parked[w]) {
      assert TicketOk(s.reg, s.parked[w]);
    }
    forall i | 0 <= i < |s'.log| && s'.log[i].Granted? ensures GrantOk(s', i) {
      assert GrantOk(s, i);
    }
  }

  /** Every atomic step of every caller keeps the invariant. */
  lemma NextInv(c: Config, s: System, e: Step, s': System)
    requires SystemInv(s) && Next(c, s, e, s')
    ensures SystemInv(s')
  {
    match e
    case ClaimStep(caller, key, hash, now, claim) => ClaimStepInv(c, s, caller, key, hash, now, claim, s');
    case WakeStep(caller, _) => LeaveStepInv(s, s', caller);
    case CancelStep(caller) => LeaveStepInv(s, s', caller);
    case FinishStep(key, report) => FinishStepInv(c, s, key, report, s');
    case FinishByIdStep(requestId, report) => FinishByIdStepInv(c, s, requestId, report, s');
  }

  // ------------------------------------------------------------------- runs

  function Empty(): System {
    System(Registry([], map[]), map[], [])
  }

  /** States of the registry with all its callers, from the start, one atomic step apart. */
  ghost predicate IsRun(c: Config, states: seq<System>, steps: seq<Step>) {
    && |states| == |steps| + 1
    && states[0] == Empty()
    && forall i {:trigger steps[i]} :: 0 <= i < |steps| ==>
         RefsValid(states[i].reg) && Next(c, states[i], steps[i], states[i + 1])
  }

  lemma {:induction false} RunInv(c: Config, states: seq<System>, steps: seq<Step>, n: nat)
    requires IsRun(c, states, steps) && n < |states|
    ensures SystemInv(states[n])
  {
    hide Next;
    if n == 0 {
    } else {
      RunInv(c, states, steps, n - 1);
      assert Next(c, states[n - 1], steps[n - 1], states[n]);
      hide SystemInv;
      NextInv(c, states[n - 1], steps[n - 1], states[n]);
    }
  }

  /** The grant in log entry i has not been reported finished. */
  ghost predicate Outstanding(log: seq<Event>, i: nat) {
    && i < |log| && log[i].Granted?
    && !ReportedBetween(log, i, |log|, log[i].printed, log[i].rec)
  }

  /** In every reachable state at most one execution per key is outstanding, and between any
      two grants for a key the first one's record was reported finished and then evicted. */
  lemma AtMostOneExecution(c: Config, states: seq<System>, steps: seq<Step>, n: nat, i: nat, j: nat)
    requires IsRun(c, states, steps) && n < |states|
    requires i < j < |states[n].log| && states[n].log[i].Granted? && states[n].log[j].Granted?
    requires states[n].log[i].printed == states[n].log[j].printed
    ensures GoneBetween(states[n].log, i, j, states[n].log[i].printed, states[n].log[i].rec)
    ensures !Outstanding(states[n].log, i)
  {
    RunInv(c, states, steps, n);
    hide IsRun;
    var log := states[n].log;
    assert Separated(log, i, j);
  }

  /** An outstanding grant's record is executing and resident: it has not been evicted, and a
      claim for the same key can only conflict or wait. */
  lemma OutstandingIsResident(c: Config, states: seq<System>, steps: seq<Step>, n: nat, i: nat)
    requires IsRun(c, states, steps) && n < |states| && Outstanding(states[n].log, i)
    ensures
      var r, k, ref := states[n].reg, states[n].log[i].printed, states[n].log[i].rec;
      Resident(r, k, ref) && ref < |r.heap| && r.heap[ref].state == Executing && r.heap[ref].closes == 0
  {
    RunInv(c, states, steps, n);
    hide IsRun, Print;
    var s := states[n];
    assert GrantOk(s, i);
    assert RecordOk(s.reg, s.log[i].rec);
  }

  /** No lost waiters: the record a parked caller waits for has its done channel closed, once,
      or is executing and still filed under the caller's key, where Finish will find it. */
  lemma NoLostWaiter(c: Config, states: seq<System>, steps: seq<Step>, n: nat, w: nat)
    requires IsRun(c, states, steps) && n < |states| && w in states[n].parked
    ensures
      var r, t := states[n].reg, states[n].parked[w];
      && t.rec < |r.heap| && r.heap[t.rec].payloadHash == t.hash
      && (r.heap[t.rec].closes == 1 || (r.heap[t.rec].state == Executing && Resident(r, t.printed, t.rec)))
  {
    RunInv(c, states, steps, n);
    hide IsRun, Print;
    var s := states[n];
    assert TicketOk(s.reg, s.parked[w]);
    assert RecordOk(s.reg, s.parked[w].rec);
  }

  // ---------------------------------------------------- what a claim is answered

  /** The operation has been over for longer than the ttl. */
  predicate Outdated(c: Config, rec: Record, now: nat) {
    rec.state in {Completed, Failed} && now - rec.completedAt > c.ttl
  }

  /** Eviction only takes entries away, below the limit none, and else every outdated one. */
  lemma EvictedEntries(c: Config, r: Registry, now: nat, table': map<Printed, Ref>)
    requires RefsValid(r) && Evicts(c, r, now, table')
    ensures forall k :: k in table' ==> k in r.table && table'[k] == r.table[k]
    ensures |r.table| < c.maxEntries ==> table' == r.table
    ensures |r.table| >= c.maxEntries ==> forall k :: k in table' ==> !Outdated(c, r.heap[r.table[k]], now)
  {
  }

  /** Beyond the outdated entries it takes at most one, when the limit is still reached: one that
      has finished, and no later than any finished entry that is left. */
  lemma EvictedOldest(c: Config, r: Registry, now: nat, table': map<Printed, Ref>, k: Printed)
    requires RefsValid(r) && Evicts(c, r, now, table')
    requires k in r.table && k !in table' && !Outdated(c, r.heap[r.table[k]], now)
    ensures r.heap[r.table[k]].state in {Completed, Failed} && |table'| + 1 >= c.maxEntries
    ensures forall j :: j in r.table && j !in table' && j != k ==> Outdated(c, r.heap[r.table[j]], now)
    ensures forall j :: j in table' && j in r.table && r.heap[r.table[j]].state in {Completed, Failed} ==>
              r.heap[r.table[k]].completedAt <= r.heap[r.table[j]].completedAt
  {
    var kept := Unexpired(c, r, now);
    assert k in kept;
    var o :| OldestFinished(r, kept, o) && table' == kept - {o};
    assert o == k;
    OneLess(r, kept, k);
    UnexpiredEntries(c, r, now);
    hide Unexpired, Evicts, Outdated;
  }

  lemma UnexpiredEntries(c: Config, r: Registry, now: nat)
    requires RefsValid(r)
    ensures forall j :: j in Unexpired(c, r, now) ==> j in r.table && Unexpired(c, r, now)[j] == r.table[j]
    ensures forall j :: j in r.table && j !in Unexpired(c, r, now) ==> Outdated(c, r.heap[r.table[j]], now)
  {
  }

  /** The answer to a claim is about the record filed under the key once it is given: a new one
      exactly if the claim may execute; else one that was there before, and it goes first by the
      payload and only then by whether the operation has finished. */
  ghost predicate Answers(r: Registry, r': Registry, k: Printed, hash: string, claim: Claim) {
    && |r.heap| <= |r'.heap| && r'.heap[..|r.heap|] == r.heap
    && k in r'.table && r'.table[k] < |r'.heap|
    && !claim.ExecuteUnkeyed? && claim.rec == r'.table[k]
    && var ref := r'.table[k];
       && Print(r'.heap[ref].key) == k
       && (claim.Execute? <==> ref == |r.heap|)
       && (claim.Execute? ==> r'.heap[ref].payloadHash == hash && r'.heap[ref].state == Executing)
       && (ref < |r.heap| ==> Resident(r, k, ref))
       && (claim.Conflict? <==> ref < |r.heap| && r.heap[ref].payloadHash != hash)
       && (claim.Replay? <==>
           ref < |r.heap| && r.heap[ref].payloadHash == hash && r.heap[ref].state in {Completed, Failed})
       && (claim.Wait? <==> ref < |r.heap| && r.heap[ref].payloadHash == hash && r.heap[ref].state == Executing)
  }

  lemma ClaimInAnswered(r: Registry, key: OperationKey, hash: string, claim: Claim, r': Registry)
    requires RegistryInv(r) && ClaimsIn(r, key, hash, claim, r')
    ensures Answers(r, r', Print(key), hash, claim)
  {
    hide Print;
    if Print(key) in r.table {
      assert RecordOk(r, r.table[Print(key)]);
    }
  }

  lemma AnsweredBeforeEviction(r: Registry, table: map<Printed, Ref>, r': Registry, k: Printed, hash: string,
                               claim: Claim)
    requires Answers(r.(table := table), r', k, hash, claim)
    requires forall j :: j in table ==> j in r.table && table[j] == r.table[j]
    ensures Answers(r, r', k, hash, claim)
  {
    hide Print;
  }

  lemma ClaimAnswered(c: Config, r: Registry, key: OperationKey, hash: string, now: nat, claim: Claim, r': Registry)
    requires RegistryInv(r) && key.requestId != "" && Claims(c, r, key, hash, now, claim, r')
    ensures Answers(r, r', Print(key), hash, claim)
  {
    var table :| Evicts(c, r, now, table) && ClaimsIn(r.(table := table), key, hash, claim, r');
    hide *;
    EvictionKeepsExecuting(c, r, now, table);
    ClaimInAnswered(r.(table := table), key, hash, claim, r');
    AnsweredBeforeEviction(r, table, r', Print(key), hash, claim);
  }

  /** In every reachable state every keyed claim is answered so, and the others may execute. */
  lemma ClaimExactly(c: Config, states: seq<System>, steps: seq<Step>, n: nat, caller: nat, key: OperationKey,
                     hash: string, now: nat, claim: Claim)
    requires IsRun(c, states, steps) && n < |steps| && steps[n] == ClaimStep(caller, key, hash, now, claim)
    ensures if key.requestId == "" then claim == ExecuteUnkeyed && states[n + 1].reg == states[n].reg
            else Answers(states[n].reg, states[n + 1].reg, Print(key), hash, claim)
  {
    RunInv(c, states, steps, n);
    assert RegistryInv(states[n].reg);
    hide Print, SystemInv, RegistryInv, Answers;
    assert Next(c, states[n], steps[n], states[n + 1]);
    if key.requestId != "" {
      ClaimAnswered(c, states[n].reg, key, hash, now, claim, states[n + 1].reg);
    }
  }

  /** So nobody is told to execute, wait for or replay an operation of another payload. */
  lemma NoForeignPayload(c: Config, states: seq<System>, steps: seq<Step>, n: nat, caller: nat, key: OperationKey,
                         hash: string, now: nat, claim: Claim)
    requires IsRun(c, states, steps) && n < |steps| && steps[n] == ClaimStep(caller, key, hash, now, claim)
    requires claim.Execute? || claim.Replay? || claim.Wait?
    ensures claim.rec < |states[n + 1].reg.heap| && states[n + 1].reg.heap[claim.rec].payloadHash == hash
    ensures Print(states[n + 1].reg.heap[claim.rec].key) == Print(key)
  {
    hide Next, Print;
    ClaimExactly(c, states, steps, n, caller, key, hash, now, claim);
    var r, r' := states[n].reg, states[n + 1].reg;
    if claim.rec < |r.heap| {
      assert r'.heap[..|r.heap|][claim.rec] == r'.heap[claim.rec];
    }
  }

  /** The step reports the record finished. */
  predicate ReportsOn(s: System, s': System, ref: Ref) {
    |s'.log| == |s.log| + 1 && s'.log[|s.log|].Reported? && s'.log[|s.log|].rec == ref
  }

  predicate RecordAt(s: System, ref: Ref, rec: Record) {
    ref < |s.reg.heap| && s.reg.heap[ref] == rec
  }

  predicate NotReported(states: seq<System>, n: nat, m: nat, ref: Ref)
    requires m < |states|
  {
    forall i :: n <= i < m ==> !ReportsOn(states[i], states[i + 1], ref)
  }

  lemma NotReportedBefore(states: seq<System>, n: nat, m: nat, ref: Ref)
    requires n < m < |states| && NotReported(states, n, m, ref)
    ensures NotReported(states, n, m - 1, ref) && !ReportsOn(states[m - 1], states[m], ref)
  {
    hide ReportsOn;
    assert !ReportsOn(states[m - 1], states[m - 1 + 1], ref);
  }

  lemma StepKeepsRecord(c: Config, s: System, e: Step, s': System, ref: Ref, rec: Record)
    requires SystemInv(s) && Next(c, s, e, s') && RecordAt(s, ref, rec) && !ReportsOn(s, s', ref)
    ensures RecordAt(s', ref, rec)
  {
    hide Print, Finish;
    match e {
      case ClaimStep(caller, key, hash, now, claim) =>
        if key.requestId != "" {
          hide Claims;
          ClaimAnswered(c, s.reg, key, hash, now, claim, s'.reg);
          assert s'.reg.heap[..|s.reg.heap|][ref] == s'.reg.heap[ref];
        }
      case WakeStep(caller, result) =>
      case CancelStep(caller) =>
      case FinishStep(key, report) =>
      case FinishByIdStep(requestId, report) =>
    }
  }

  lemma RunStep(c: Config, states: seq<System>, steps: seq<Step>, i: nat)
    requires IsRun(c, states, steps) && i < |steps|
    ensures |states| == |steps| + 1 && SystemInv(states[i]) && RefsValid(states[i].reg)
    ensures Next(c, states[i], steps[i], states[i + 1])
  {
    RunInv(c, states, steps, i);
    hide Next, SystemInv;
  }

  lemma RunLength(c: Config, states: seq<System>, steps: seq<Step>)
    requires IsRun(c, states, steps)
    ensures |states| == |steps| + 1
  {
    hide Next, RefsValid;
  }

  lemma {:induction false} RunKeepsRecord(c: Config, states: seq<System>, steps: seq<Step>, n: nat, m: nat,
                                          ref: Ref, rec: Record)
    requires IsRun(c, states, steps) && n <= m < |states| && RecordAt(states[n], ref, rec)
    requires NotReported(states, n, m, ref)
    ensures RecordAt(states[m], ref, rec)
    decreases m - n
  {
    if m == n {
    } else {
      hide *;
      RunLength(c, states, steps);
      NotReportedBefore(states, n, m, ref);
      RunKeepsRecord(c, states, steps, n, m - 1, ref, rec);
      RunStep(c, states, steps, m - 1);
      StepKeepsRecord(c, states[m - 1], steps[m - 1], states[m], ref, rec);
    }
  }

  /** What a replay hands out is the last report on its record, by key or by request id,
      however much later; a report without a response leaves the one before. */
  lemma ReplayIsLastReport(c: Config, states: seq<System>, steps: seq<Step>, n: nat, m: nat,
                           caller: nat, again: OperationKey, hash: string, now: nat, ref: Ref)
    requires IsRun(c, states, steps) && n < m < |steps| && (steps[n].FinishStep? || steps[n].FinishByIdStep?)
    requires steps[m] == ClaimStep(caller, again, hash, now, Replay(ref)) && ReportsOn(states[n], states[n + 1], ref)
    requires NotReported(states, n + 1, m, ref)
    ensures ref < |states[m].reg.heap|
    ensures var rec := states[m].reg.heap[ref];
            var report := steps[n].report;
            && rec.statusCode == report.statusCode && rec.completedAt == report.now
            && (|report.response| > 0 ==> rec.response == report.response)
            && (|report.response| == 0 && ref < |states[n].reg.heap| ==>
                  rec.response == states[n].reg.heap[ref].response)
            && (if report.failed then rec.state == Failed && rec.errorMsg == report.errorMsg
                else rec.state == Completed)
  {
    assert Next(c, states[n], steps[n], states[n + 1]);
    RunStep(c, states, steps, n);
    hide Print, SystemInv;
    RunKeepsRecord(c, states, steps, n + 1, m, ref, states[n + 1].reg.heap[ref]);
  }

  /** A report by key is on the resident record, else on a new one. */
  lemma ReportByKey(c: Config, s: System, key: OperationKey, report: Report, s': System, ref: Ref)
    requires SystemInv(s) && Next(c, s, FinishStep(key, report), s')
    ensures ReportsOn(s, s', ref) <==>
            key.requestId != ""
            && (Resident(s.reg, Print(key), ref) || (Print(key) !in s.reg.table && ref == |s.reg.heap|))
  {
    hide Print, Finish;
  }

  /** A report by request id is on one resident record that has it, if there is any; if
      there is none, or the id is empty, nothing happens. */
  lemma ReportById(c: Config, s: System, requestId: string, report: Report, s': System)
    requires SystemInv(s) && Next(c, s, FinishByIdStep(requestId, report), s')
    ensures if requestId != "" && exists k ::
                 k in s.reg.table && s.reg.table[k] < |s.reg.heap|
                 && s.reg.heap[s.reg.table[k]].key.requestId == requestId
            then exists k :: k in s.reg.table && s.reg.table[k] < |s.reg.heap|
                   && s.reg.heap[s.reg.table[k]].key.requestId == requestId && ReportsOn(s, s', s.reg.table[k])
            else s' == s
  {
    hide Print, Finish;
  }

  /** Reporting the key finished wakes everyone parked on its executing record. */
  lemma FinishWakes(c: Config, s: System, key: OperationKey, report: Report, s': System, w: nat)
    requires SystemInv(s) && Next(c, s, FinishStep(key, report), s')
    requires w in s.parked && Print(key) == s.parked[w].printed && key.requestId != ""
    ensures w in s'.parked && s'.parked[w].rec < |s'.reg.heap| && s'.reg.heap[s'.parked[w].rec].closes == 1
  {
    var t := s.parked[w];
    assert TicketOk(s.reg, t);
    assert RecordOk(s.reg, t.rec);
    if Resident(s.reg, t.printed, t.rec) {
      FinishRefInv(s.reg, t.rec, report, s'.reg);
    }
  }

  /** A woken caller gets the very record it waited for, finished and with its own payload
      hash, exactly if nothing else has been filed under the key in the meantime. */
  lemma WakeExactly(c: Config, s: System, caller: nat, result: Ref, s': System)
    requires SystemInv(s) && Next(c, s, WakeStep(caller, result), s')
    ensures result == s.parked[caller].rec <==>
            s.parked[caller].printed !in s.reg.table || Resident(s.reg, s.parked[caller].printed, s.parked[caller].rec)
    ensures result == s.parked[caller].rec ==>
              Finished(s.reg.heap[result]) && s.reg.heap[result].payloadHash == s.parked[caller].hash
    ensures result < |s.reg.heap| && Print(s.reg.heap[result].key) == s.parked[caller].printed
  {
    hide Print;
    assert TicketOk(s.reg, s.parked[caller]);
    assert RecordOk(s.reg, s.parked[caller].rec);
  }

  // A run in which that happens, with room for one record: a caller is parked on payload a,
  // its record is finished and evicted, and the key is granted again for payload b.

  const TIGHT: Config := Config(0, 1)
  const KEY: OperationKey := OperationKey("p", "build", "1")
  const DONE: Report := Report(200, [], false, "", 1)

  function FinishedA(): Record {
    Finish(NewRecord(KEY, "a"), DONE)
  }

  function Scene(i: nat): System {
    var k := Print(KEY);
    if i == 0 then Empty()
    else if i == 1 then
      System(Registry([NewRecord(KEY, "a")], map[k := 0]), map[], [Evicted(map[]), Granted(k, 0)])
    else if i == 2 then
      System(Scene(1).reg, map[1 := Ticket(0, k, "a")], Scene(1).log + [Evicted(map[])])
    else if i == 3 then
      System(Registry([FinishedA()], map[k := 0]), Scene(2).parked, Scene(2).log + [Reported(k, 0)])
    else if i == 4 then
      System(Registry([FinishedA(), NewRecord(KEY, "b")], map[k := 1]), Scene(2).parked,
             Scene(3).log + [Evicted(map[k := 0]), Granted(k, 1)])
    else
      Scene(4).(parked := map[])
  }

  lemma SceneParks()
    ensures Next(TIGHT, Scene(0), ClaimStep(0, KEY, "a", 1, Execute(0)), Scene(1))
    ensures Next(TIGHT, Scene(1), ClaimStep(1, KEY, "a", 1, Wait(0)), Scene(2))
  {
    SceneStarts();
    SceneWaits();
  }

  lemma SceneStarts()
    ensures Next(TIGHT, Scene(0), ClaimStep(0, KEY, "a", 1, Execute(0)), Scene(1))
  {
    var k := Print(KEY);
    hide Print;
    var r0, r := Registry([], map[]), Registry([NewRecord(KEY, "a")], map[k := 0]);
    assert Evicts(TIGHT, r0, 1, map[]);
    hide Evicts;
    assert ClaimsIn(r0, KEY, "a", Execute(0), r);
    assert Claims(TIGHT, r0, KEY, "a", 1, Execute(0), r);
    hide ClaimsIn, Claims;
    assert Gone(map[], map[k := 0]) == map[];
  }

  lemma SceneWaits()
    ensures Next(TIGHT, Scene(1), ClaimStep(1, KEY, "a", 1, Wait(0)), Scene(2))
  {
    var k := Print(KEY);
    hide Print;
    var r := Registry([NewRecord(KEY, "a")], map[k := 0]);
    assert Unexpired(TIGHT, r, 1) == r.table;
    assert Evicts(TIGHT, r, 1, r.table);
    hide Evicts;
    assert ClaimsIn(r, KEY, "a", Wait(0), r);
    assert Claims(TIGHT, r, KEY, "a", 1, Wait(0), r);
    hide ClaimsIn, Claims;
    assert Gone(map[k := 0], map[k := 0]) == map[];
  }

  lemma SceneFinishes()
    ensures Next(TIGHT, Scene(2), FinishStep(KEY, DONE), Scene(3))
  {
    hide Print, Finish;
  }

  lemma SceneGrantsAgain()
    ensures Next(TIGHT, Scene(3), ClaimStep(2, KEY, "b", 1, Execute(1)), Scene(4))
  {
    SceneClaims();
    hide Claims, Print, FinishedA;
    var k := Print(KEY);
    assert Gone(map[k := 0], map[k := 1]) == map[k := 0];
  }

  lemma SceneClaims()
    ensures Claims(TIGHT, Registry([FinishedA()], map[Print(KEY) := 0]), KEY, "b", 1, Execute(1),
                   Registry([FinishedA(), NewRecord(KEY, "b")], map[Print(KEY) := 1]))
  {
    var k := Print(KEY);
    var r, r' := Registry([FinishedA()], map[k := 0]), Registry([FinishedA(), NewRecord(KEY, "b")], map[k := 1]);
    SceneEvicts(r, k);
    hide Evicts, Print, FinishedA, Claims, NewRecord;
    var mid := r.(table := map[]);
    assert r'.heap == mid.heap + [NewRecord(KEY, "b")] && |mid.heap| == 1;
    assert ClaimsIn(mid, KEY, "b", Execute(1), r');
    ClaimMade(TIGHT, r, map[], KEY, "b", 1, Execute(1), r');
  }

  lemma SceneEvicts(r: Registry, k: Printed)
    requires r == Registry([FinishedA()], map[k := 0])
    ensures Evicts(TIGHT, r, 1, map[])
  {
    assert Unexpired(TIGHT, r, 1) == r.table;
    assert OldestFinished(r, r.table, k);
    assert r.table - {k} == map[];
  }

  lemma SceneWakes()
    ensures Next(TIGHT, Scene(4), WakeStep(1, 1), Scene(5))
  {
    hide Print;
    assert Scene(4).parked - {1} == map[];
  }

  /** Otherwise it is told to replay a record that need be neither finished nor its own: here
      the caller parked on payload a is handed the executing record of payload b. */
  lemma WakeMaySeeLaterExecution() returns (states: seq<System>, steps: seq<Step>)
    ensures IsRun(TIGHT, states, steps) && |steps| == 5
    ensures steps[1] == ClaimStep(1, KEY, "a", 1, Wait(0)) && steps[4] == WakeStep(1, 1)
    ensures |states[5].reg.heap| == 2
    ensures states[5].reg.heap[1].state == Executing && states[5].reg.heap[1].payloadHash == "b"
  {
    SceneParks();
    SceneFinishes();
    SceneGrantsAgain();
    SceneWakes();
    SceneRefs();
    hide Next, Print, Scene, RefsValid, Empty;
    states := [Scene(0), Scene(1), Scene(2), Scene(3), Scene(4), Scene(5)];
    steps := [ClaimStep(0, KEY, "a", 1, Execute(0)), ClaimStep(1, KEY, "a", 1, Wait(0)), FinishStep(KEY, DONE),
              ClaimStep(2, KEY, "b", 1, Execute(1)), WakeStep(1, 1)];
  }

  lemma SceneRefs()
    ensures Scene(0) == Empty() && forall i :: 0 <= i < 5 ==> RefsValid(Scene(i).reg)
    ensures Scene(5).reg.heap == [FinishedA(), NewRecord(KEY, "b")]
  {
    hide Print, Finish;
  }

  // --------------------------------------------------------------- the registry

  lemma PrintNotEmpty(k: OperationKey)
    ensures Print(k) != Printed("")
  {
    assert |Print(k).text| >= 2;
  }

  lemma ClaimMade(c: Config, r: Registry, table: map<Printed, Ref>, key: OperationKey, hash: string, now: nat,
                  claim: Claim, r': Registry)
    requires RefsValid(r) && key.requestId != ""
    requires Evicts(c, r, now, table) && ClaimsIn(r.(table := table), key, hash, claim, r')
    ensures Claims(c, r, key, hash, now, claim, r')
  {
    hide Print, Evicts, ClaimsIn;
  }

  class OperationRegistry {
    var heap: seq<Record>
    var records: map<Printed, Ref>
    const ttl: nat
    const maxEntries: nat

    ghost function View(): Registry
      reads this
    {
      Registry(heap, records)
    }

    /** Non-positive settings are replaced by ten minutes (in nanoseconds) and 512 entries. */
    constructor (ttl: int, maxEntries: int)
      ensures View() == Registry([], map[]) && RegistryInv(View())
      ensures this.ttl == (if ttl <= 0 then 600_000_000_000 else ttl)
      ensures this.maxEntries == (if maxEntries <= 0 then 512 else maxEntries)
    {
      heap, records := [], map[];
      this.ttl := if ttl <= 0 then 600_000_000_000 else ttl;
      this.maxEntries := if maxEntries <= 0 then 512 else maxEntries;
    }

    method EvictExpired(now: nat)
      requires RegistryInv(View())
      modifies this`records
      ensures Evicts(Config(ttl, maxEntries), old(View()), now, records)
    {
      ghost var c, r := Config(ttl, maxEntries), View();
      if |records| < maxEntries {
        return;
      }
      RegistryRefs(r);
      hide Print, RegistryInv, Finished, Expired;
      DropExpired(now);
      ghost var kept := records;
      assert kept == Unexpired(c, r, now);
      if |records| >= maxEntries {
        var oldestKey := FindOldest();
        if oldestKey.text != "" {
          records := records - {oldestKey};
          assert OldestFinished(r, kept, oldestKey);
        }
      }
    }

    method DropExpired(now: nat)
      requires RegistryInv(View())
      modifies this`records
      ensures records == Unexpired(Config(ttl, maxEntries), old(View()), now)
    {
      hide Print, RegistryInv, Finished;
      ghost var c, r := Config(ttl, maxEntries), View();
      assert RefsValid(r) by { RegistryRefs(r); }
      var todo := records.Keys;
      while todo != {}
        invariant todo <= records.Keys
        invariant forall k :: k in records <==> k in r.table && (k in todo || !Expired(c, r, k, now))
        invariant forall k :: k in records ==> records[k] == r.table[k]
      {
        var k :| k in todo;
        todo := todo - {k};
        var v := heap[records[k]];
        if Finished(v) && now - v.completedAt > ttl {
          records := records - {k};
        }
      }
    }

    /** The key of an oldest finished entry, or the empty text if there is none. */
    method FindOldest() returns (oldestKey: Printed)
      requires RefsValid(View()) && forall k :: k in records ==> k.text != "" && (Finished(heap[records[k]]) ==>
          heap[records[k]].completedAt > 0)
      ensures oldestKey.text == "" ==> forall k :: k in records ==> !Finished(heap[records[k]])
      ensures oldestKey.text != "" ==> OldestFinished(View(), records, oldestKey)
    {
      hide Finished;
      oldestKey := Printed("");
      var oldestTime := 0;
      var todo := records.Keys;
      while todo != {}
        invariant todo <= records.Keys
        invariant oldestKey.text == "" <==> oldestTime == 0
        invariant oldestKey.text == "" ==> forall k :: k in records && k !in todo ==> !Finished(heap[records[k]])
        invariant oldestKey.text != "" ==>
                    && oldestKey in records && Finished(heap[records[oldestKey]])
                    && heap[records[oldestKey]].completedAt == oldestTime
                    && forall k :: k in records && k !in todo && Finished(heap[records[k]]) ==>
                        oldestTime <= heap[records[k]].completedAt
      {
        var k :| k in todo;
        todo := todo - {k};
        var v := heap[records[k]];
        if Finished(v) {
          if oldestTime == 0 || v.completedAt < oldestTime {
            oldestTime := v.completedAt;
            oldestKey := k;
          }
        }
      }
    }

    /** The locked part of ClaimOrWait; a caller told to wait parks on the record's done channel. */
    method Claim(key: OperationKey, payloadHash: string, now: nat) returns (claim: Claim)
      requires RegistryInv(View())
      modifies this
      ensures Claims(Config(ttl, maxEntries), old(View()), key, payloadHash, now, claim, View())
      ensures RegistryInv(View())
    {
      ghost var c, r := Config(ttl, maxEntries), View();
      if key.requestId == "" {
        return ExecuteUnkeyed;
      }
      hide Print, RegistryInv, Evicts, Claims, Finished;
      var k := Print(key);
      EvictExpired(now);
      ghost var mid := View();
      EvictionKeepsExecuting(c, r, now, records);
      if k !in records {
        heap := heap + [NewRecord(key, payloadHash)];
        records := records[k := |heap| - 1];
        claim := Execute(|heap| - 1);
      } else {
        var rec := records[k];
        assert rec < |heap|;
        if heap[rec].payloadHash != payloadHash {
          claim := Conflict(rec);
        } else if Finished(heap[rec]) {
          claim := Replay(rec);
        } else {
          claim := Wait(rec);
        }
      }
      assert mid == r.(table := mid.table);
      assert ClaimsIn(mid, key, payloadHash, claim, View());
      hide ClaimsIn;
      ClaimInInv(mid, key, payloadHash, claim, View());
      ClaimMade(c, r, mid.table, key, payloadHash, now, claim, View());
    }

    /** A woken caller gets a record of its own key, and the very one it waited for unless
        another has been filed under the key since. */
    method LookupAfterWake(k: Printed, rec: Ref) returns (result: Ref)
      requires RegistryInv(View()) && rec < |heap| && Print(heap[rec].key) == k
      ensures result < |heap| && Print(heap[result].key) == k
      ensures result == rec <==> k !in records || Resident(View(), k, rec)
      ensures result != rec ==> Resident(View(), k, result)
    {
      hide Print;
      RegistryRefs(View());
      if k in records {
        return records[k];
      }
      return rec;
    }

    /** Closing a channel twice is a panic; it is closed only if that has not happened yet. */
    method CloseDone(ref: Ref)
      requires ref < |heap| && heap[ref].closes == 0
      modifies this`heap
      ensures heap == old(heap)[ref := old(heap)[ref].(closes := 1)]
    {
      heap := heap[ref := heap[ref].(closes := heap[ref].closes + 1)];
    }

    method Report(ref: Ref, report: Report)
      requires ref < |heap|
      modifies this`heap
      ensures heap == old(heap)[ref := Finish(old(heap)[ref], report)]
    {
      var rec := heap[ref].(statusCode := report.statusCode);
      if |report.response| > 0 {
        rec := rec.(response := report.response);
      }
      rec := rec.(completedAt := report.now);
      if report.failed {
        rec := rec.(state := Failed, errorMsg := report.errorMsg);
      } else {
        rec := rec.(state := Completed);
      }
      heap := heap[ref := rec];
      if heap[ref].closes == 0 {
        CloseDone(ref);
      }
    }

    method FinishOperation(key: OperationKey, report: Report)
      requires RegistryInv(View()) && report.now > 0
      modifies this
      ensures Finishes(old(View()), key, report, View()) && RegistryInv(View())
    {
      ghost var r := View();
      if key.requestId == "" {
        return;
      }
      var k := Print(key);
      if k !in records {
        heap := heap + [Record(key, "", Unset, 0, [], "", 0, 0)];
        records := records[k := |heap| - 1];
      }
      Report(records[k], report);
      assert Finishes(r, key, report, View()) by { hide Print, Finish; }
      FinishInv(r, key, report, View());
    }

    method FinishByRequestID(requestId: string, report: Report)
      requires RegistryInv(View()) && report.now > 0
      modifies this
      ensures FinishesById(old(View()), requestId, report, View()) && RegistryInv(View())
    {
      ghost var r := View();
      if requestId == "" {
        return;
      }
      var todo := records.Keys;
      while todo != {}
        invariant todo <= records.Keys && View() == r
        invariant forall k :: k in records && k !in todo ==> heap[records[k]].key.requestId != requestId
      {
        var k :| k in todo;
        todo := todo - {k};
        if heap[records[k]].key.requestId == requestId {
          assert HoldsId(r, requestId, k);
          Report(records[k], report);
          FinishRefInv(r, r.table[k], report, View());
          return;
        }
      }
    }
  }

  lemma RegistryRefs(r: Registry)
    requires RegistryInv(r)
    ensures RefsValid(r)
    ensures forall k :: k in r.table ==> k.text != "" && (Finished(r.heap[r.table[k]]) ==>
        r.heap[r.table[k]].completedAt > 0)
  {
    forall k | k in r.table ensures k.text != "" && (Finished(r.heap[r.table[k]]) ==>
        r.heap[r.table[k]].completedAt > 0) {
      PrintNotEmpty(r.heap[r.table[k]].key);
      assert RecordOk(r, r.table[k]);
    }
  }
}

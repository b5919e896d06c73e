/** Hit-count filters of breakpoints, and what the session records of a run of hits. */
module HitCount {
  import opened Bytes

  datatype HitCountMode = Off | EQ | GT | GE | LT | LE | MOD | Unrecognised

  /** EvaluateHitCount, for a breakpoint that has been hit `count` times. */
  function Stops(mode: HitCountMode, target: int64, count: int64): bool {
    match mode
    case Off => true
    case EQ => count == target
    case GT => count > target
    case GE => count >= target
    case LT => count < target
    case LE => count <= target
    case MOD => if target <= 0 then false else GoRemainder(count, target) == 0
    case Unrecognised => true
  }

  /** Go's % takes the sign of the dividend. */
  function GoRemainder(a: int, b: int): int
    requires b > 0
  {
    if a >= 0 then a % b else -((-a) % b)
  }

  /** The next count; the counter is a signed 64-bit integer and wraps. */
  function Next(count: int64): int64 {
    if count == 0x7FFF_FFFF_FFFF_FFFF then -0x8000_0000_0000_0000 else count + 1
  }

  datatype DebugEventType =
    | VMStart | VMDeath | ClassPrepare | ClassUnload | ThreadStart | ThreadDeath
    | BreakpointHit | StepComplete | ExceptionHit | FieldAccess | FieldModify

  datatype DebugEvent = DebugEvent(kind: DebugEventType, threadId: int, requestId: int32)

  // --------------------------------------------------------- totals over runs

  /** Of the hits reported by `events` on an enabled, unconditional breakpoint that stands at
      `count`, the ones that stop the session and are logged. */
  function Logged(mode: HitCountMode, target: int64, count: int64, events: seq<DebugEvent>): seq<DebugEvent>
    decreases |events|
  {
    if events == [] then []
    else (if Stops(mode, target, Next(count)) then [events[0]] else []) + Logged(mode, target, Next(count), events[1..])
  }

  /** The count after n further hits, as long as it does not wrap. */
  function Advance(count: int64, n: nat): int64
    requires count + n < 0x8000_0000_0000_0000
  {
    count + n
  }

  lemma LoggedStep(mode: HitCountMode, target: int64, count: int64, e: DebugEvent, tail: seq<DebugEvent>)
    ensures Logged(mode, target, count, [e] + tail)
         == (if Stops(mode, target, Next(count)) then [e] else []) + Logged(mode, target, Next(count), tail)
  {
    assert ([e] + tail)[0] == e && ([e] + tail)[1..] == tail;
    hide Stops;
  }

  lemma LoggedNothing(mode: HitCountMode, target: int64, count: int64)
    ensures Logged(mode, target, count, []) == []
  {
  }

  lemma {:induction false} LoggedAppend(mode: HitCountMode, target: int64, count: int64, events: seq<DebugEvent>,
                                        e: DebugEvent)
    requires count + |events| < 0x8000_0000_0000_0000
    ensures Logged(mode, target, count, events + [e])
         == Logged(mode, target, count, events) + Logged(mode, target, Advance(count, |events|), [e])
    decreases |events|
  {
    hide Stops, Logged;
    if events == [] {
      assert events + [e] == [e];
      LoggedNothing(mode, target, count);
      assert [] + Logged(mode, target, count, [e]) == Logged(mode, target, count, [e]);
    } else {
      var first, tail := events[0], events[1..];
      assert events == [first] + tail && events + [e] == [first] + (tail + [e]);
      LoggedStep(mode, target, count, first, tail);
      LoggedStep(mode, target, count, first, tail + [e]);
      LoggedAppend(mode, target, Next(count), tail, e);
    }
  }

  function Max(a: int, b: int): int { if a > b then a else b }
  function Min(a: int, b: int): int { if a < b then a else b }

  /** How often n hits stop, counted from zero, for any target. */
  function Total(mode: HitCountMode, k: int64, n: nat): int {
    match mode
    case Off => n
    case EQ => if 1 <= k <= n then 1 else 0
    case GT => Max(0, n - Max(k, 0))
    case GE => Max(0, n + 1 - Max(k, 1))
    case LT => Min(n, Max(k - 1, 0))
    case LE => Min(n, Max(k, 0))
    case MOD => if k <= 0 then 0 else n / k
    case Unrecognised => n
  }

  lemma MulAtLeast(a: int, k: int)
    requires k > 0
    ensures a >= 1 ==> a * k >= k
    ensures a <= -1 ==> a * k <= -k
  {
    if a >= 1 {
      assert (a - 1) * k >= 0;
    } else if a <= -1 {
      assert (-a - 1) * k >= 0;
    }
  }

  lemma DivUnique(n: int, k: int, q: int, r: int)
    requires k > 0 && n == q * k + r && 0 <= r < k
    ensures n / k == q
  {
    var d, m := n / k, n % k;
    assert n == d * k + m && 0 <= m < k;
    MulAtLeast(d - q, k);
    assert (d - q) * k == d * k - q * k;
  }

  lemma DivStep(n: nat, k: int)
    requires n > 0 && k > 0
    ensures n / k == (n - 1) / k + if n % k == 0 then 1 else 0
  {
    var q, r := n / k, n % k;
    assert n == q * k + r && 0 <= r < k;
    if r == 0 {
      assert (q - 1) * k == q * k - k;
      DivUnique(n - 1, k, q - 1, k - 1);
    } else {
      DivUnique(n - 1, k, q, r - 1);
    }
  }

  lemma TotalStep(mode: HitCountMode, k: int64, n: nat)
    requires 0 < n < 0x8000_0000_0000_0000
    ensures Total(mode, k, n) == Total(mode, k, n - 1) + if Stops(mode, k, n) then 1 else 0
  {
    if mode == MOD && k > 0 {
      DivStep(n, k);
    }
  }

  /** The number of stops in a run of hits is the closed form, in every mode. */
  lemma {:induction false} StopsTotal(mode: HitCountMode, k: int64, events: seq<DebugEvent>)
    requires |events| < 0x8000_0000_0000_0000
    ensures |Logged(mode, k, 0, events)| == Total(mode, k, |events|)
    decreases |events|
  {
    var n := |events|;
    if n > 0 {
      hide Stops, Total;
      var init, e := events[..n - 1], events[n - 1];
      assert events == init + [e];
      StopsTotal(mode, k, init);
      LoggedAppend(mode, k, 0, init, e);
      TotalStep(mode, k, n);
      assert Logged(mode, k, n - 1, [e]) == if Stops(mode, k, n) then [e] else [];
    } else {
      TotalOfNone(mode, k);
    }
  }

  lemma TotalOfNone(mode: HitCountMode, k: int64)
    ensures Total(mode, k, 0) == 0
  {
  }

  // ------------------------------------------------ breakpoints and the session

  class Breakpoint {
    const ID: int32
    var RequestID: int32
    var Enabled: bool
    var Condition: string
    var HitCount: int64
    var HitCountMode: HitCountMode
    var HitCountTarget: int64

    constructor (id: int32, requestId: int32, condition: string, mode: HitCountMode, target: int64)
      ensures ID == id && RequestID == requestId && Enabled && Condition == condition
      ensures HitCount == 0 && HitCountMode == mode && HitCountTarget == target
    {
      ID, RequestID, Enabled, Condition, HitCount, HitCountMode, HitCountTarget := id, requestId, true, condition, 0,
          mode, target;
    }
  }

  class BreakpointManager {
    var breakpoints: map<int32, Breakpoint>

    constructor ()
      ensures breakpoints == map[]
    {
      breakpoints := map[];
    }

    /** The breakpoint a hit event may be counted on: one with that request id, in whatever
        order the map yields them, or if there is none the one with that local id. */
    ghost predicate MayMatch(requestID: int32, bp: Breakpoint)
      reads this, breakpoints.Values
    {
      if exists k :: k in breakpoints && breakpoints[k].RequestID == requestID
      then bp in breakpoints.Values && bp.RequestID == requestID
      else requestID in breakpoints && breakpoints[requestID] == bp
    }

    method FindMatch(requestID: int32) returns (bp: Breakpoint?)
      ensures bp != null ==> MayMatch(requestID, bp) && bp in breakpoints.Values
      ensures bp != null ==>
                || bp.RequestID == requestID
                || (requestID in breakpoints && breakpoints[requestID] == bp
                    && forall k :: k in breakpoints ==> breakpoints[k].RequestID != requestID)
      ensures bp == null ==> requestID !in breakpoints && forall k :: k in breakpoints ==>
          breakpoints[k].RequestID != requestID
    {
      var todo := breakpoints.Keys;
      while todo != {}
        invariant todo <= breakpoints.Keys
        invariant forall k :: k in breakpoints && k !in todo ==> breakpoints[k].RequestID != requestID
      {
        var k :| k in todo;
        todo := todo - {k};
        if breakpoints[k].RequestID == requestID {
          return breakpoints[k];
        }
      }
      if requestID in breakpoints {
        return breakpoints[requestID];
      }
      return null;
    }

    /** Counts the hit and says whether to stop; `holds` evaluates condition texts. An event
        that matches no breakpoint always stops. */
    method RecordHitAndShouldStop(requestID: int32, holds: string -> bool) returns (stop: bool, ghost hit: Breakpoint?)
      modifies breakpoints.Values`HitCount
      ensures hit == null ==> stop && requestID !in breakpoints
                              && forall k :: k in breakpoints ==> breakpoints[k].RequestID != requestID
      ensures hit != null ==> MayMatch(requestID, hit) && hit in breakpoints.Values
                              && hit.HitCount == Next(old(hit.HitCount))
      ensures hit != null ==>
                (stop <==> hit.Enabled && (hit.Condition == "" || holds(hit.Condition))
                           && Stops(hit.HitCountMode, hit.HitCountTarget, hit.HitCount))
      ensures forall bp :: bp in breakpoints.Values && bp != hit ==> bp.HitCount == old(bp.HitCount)
    {
      var bp := FindMatch(requestID);
      hit := bp;
      if bp == null {
        return true, hit;
      }
      bp.HitCount := Next(bp.HitCount);
      if !bp.Enabled {
        return false, hit;
      }
      if bp.Condition != "" && !holds(bp.Condition) {
        return false, hit;
      }
      return Stops(bp.HitCountMode, bp.HitCountTarget, bp.HitCount), hit;
    }
  }

  datatype DebugState = NotConnected | Connected | Running | Suspended | Terminated

  /** The state after an event that is not filtered out. */
  function Moved(state: DebugState, kind: DebugEventType): DebugState {
    match kind
    case VMStart => Running
    case VMDeath => Terminated
    case BreakpointHit => if state == Running then Suspended else state
    case StepComplete => if state == Running then Suspended else state
    case ExceptionHit => if state == Running then Suspended else state
    case FieldAccess => if state == Running then Suspended else state
    case FieldModify => if state == Running then Suspended else state
    case ThreadStart => state
    case ThreadDeath => state
    case ClassPrepare => state
    case ClassUnload => state
  }

  /** The state after a run of events none of which is filtered out. */
  function MovedAll(state: DebugState, events: seq<DebugEventType>): DebugState
    decreases |events|
  {
    if events == [] then state
    else Moved(MovedAll(state, events[..|events| - 1]), events[|events| - 1])
  }

  /** Events that stop a running program. */
  const STOPS: set<DebugEventType> := {BreakpointHit, StepComplete, ExceptionHit, FieldAccess, FieldModify}

  /** No such event in between starts or ends the program. */
  predicate NoLifeCycle(events: seq<DebugEventType>) {
    VMStart !in events && VMDeath !in events
  }

  /** Without a start or an end of the program, only a running program is suspended, and exactly
      if one of the stopping events occurs. */
  lemma {:induction false} StateBetween(state: DebugState, events: seq<DebugEventType>)
    requires NoLifeCycle(events)
    ensures MovedAll(state, events) ==
            if state == Running && exists e :: e in events && e in STOPS then Suspended else state
    decreases |events|
  {
    if events == [] {
    } else {
      var init, last := events[..|events| - 1], events[|events| - 1];
      assert events == init + [last] && forall e :: e in events <==> e in init || e == last;
      StateBetween(state, init);
    }
  }

  lemma {:induction false} MovedAllAppend(state: DebugState, before: seq<DebugEventType>, after: seq<DebugEventType>)
    ensures MovedAll(state, before + after) == MovedAll(MovedAll(state, before), after)
    decreases |after|
  {
    hide Moved;
    if after == [] {
      assert before + after == before;
    } else {
      var init, last := after[..|after| - 1], after[|after| - 1];
      var all := before + after;
      assert all[|all| - 1] == last && all[..|all| - 1] == before + init;
      MovedAllAppend(state, before, init);
    }
  }

  /** From its start on a program is running until the first stopping event and suspended from
      there on; from its end on it stays terminated. */
  lemma StateSinceLifeCycle(state: DebugState, before: seq<DebugEventType>, after: seq<DebugEventType>)
    requires NoLifeCycle(after)
    ensures MovedAll(state, before + [VMDeath] + after) == Terminated
    ensures MovedAll(state, before + [VMStart] + after) ==
            if exists e :: e in after && e in STOPS then Suspended else Running
  {
    MovedAllAppend(state, before + [VMDeath], after);
    MovedAllAppend(state, before + [VMStart], after);
    LastMove(state, before, VMDeath);
    LastMove(state, before, VMStart);
    StateBetween(Terminated, after);
    StateBetween(Running, after);
    hide MovedAll, NoLifeCycle;
  }

  lemma LastMove(state: DebugState, before: seq<DebugEventType>, last: DebugEventType)
    ensures MovedAll(state, before + [last]) == Moved(MovedAll(state, before), last)
  {
    assert (before + [last])[..|before|] == before;
  }

  class DebugStateMachine {
    var state: DebugState
    var eventLog: seq<DebugEvent>
    var breakpoints: BreakpointManager?

    constructor ()
      ensures state == NotConnected && eventLog == [] && breakpoints == null
    {
      state, eventLog, breakpoints := NotConnected, [], null;
    }

    /** bp is the only breakpoint the request id can mean, enabled and without a condition. */
    ghost predicate PlainTarget(requestID: int32, bp: Breakpoint)
      reads this
      reads breakpoints
      reads if breakpoints == null then {} else breakpoints.breakpoints.Values
    {
      && breakpoints != null
      && bp in breakpoints.breakpoints.Values && bp.RequestID == requestID && bp.Enabled && bp.Condition == ""
      && forall k :: k in breakpoints.breakpoints && breakpoints.breakpoints[k].RequestID == requestID ==>
           breakpoints.breakpoints[k] == bp
    }

    /** A filtered-out hit leaves state and log alone; every other event moves the state and
        is logged. A hit is filtered out exactly if the breakpoint it is counted on, `hit`, is
        disabled, its condition fails, or its filter does not let it through. */
    method HandleEvent(event: DebugEvent, holds: string -> bool) returns (ghost hit: Breakpoint?)
      modifies this`state, this`eventLog
      modifies (if breakpoints == null then {} else breakpoints.breakpoints.Values)`HitCount
      ensures eventLog == old(eventLog) ==> state == old(state)
      ensures eventLog != old(eventLog) ==>
                eventLog == old(eventLog) + [event] && state == Moved(old(state), event.kind)
      ensures hit == null ==> eventLog == old(eventLog) + [event]
      ensures event.kind != BreakpointHit || breakpoints == null ==> hit == null
      ensures event.kind == BreakpointHit && breakpoints != null && hit == null ==>
                event.requestId !in breakpoints.breakpoints
                && forall k :: k in breakpoints.breakpoints ==> breakpoints.breakpoints[k].RequestID != event.requestId
      ensures hit != null ==> breakpoints != null && breakpoints.MayMatch(event.requestId, hit)
                              && hit in breakpoints.breakpoints.Values
                              && hit.HitCount == Next(old(hit.HitCount))
      ensures hit != null ==>
                (eventLog == old(eventLog) + [event] <==>
                 hit.Enabled && (hit.Condition == "" || holds(hit.Condition))
                 && Stops(hit.HitCountMode, hit.HitCountTarget, hit.HitCount))
      ensures breakpoints != null ==>
                forall bp :: bp in breakpoints.breakpoints.Values && bp != hit ==> bp.HitCount == old(bp.HitCount)
    {
      hit := null;
      if event.kind == BreakpointHit && breakpoints != null {
        var stop;
        stop, hit := breakpoints.RecordHitAndShouldStop(event.requestId, holds);
        hide Stops;
        if !stop {
          return;
        }
      }
      state := Moved(state, event.kind);
      eventLog := eventLog + [event];
    }

    /** A run of hits, handled one after the other, on a plain breakpoint that has not been hit:
        the log gains exactly the hits its filter lets through, as many as the closed form says. */
    method HandleHits(hits: seq<DebugEvent>, bp: Breakpoint, holds: string -> bool)
      requires PlainTarget(bp.RequestID, bp) && bp.HitCount == 0
      requires |hits| < 0x8000_0000_0000_0000
      requires forall e :: e in hits ==> e.kind == BreakpointHit && e.requestId == bp.RequestID
      modifies this`state, this`eventLog
      modifies (if breakpoints == null then {} else breakpoints.breakpoints.Values)`HitCount
      ensures bp.HitCount == |hits|
      ensures eventLog == old(eventLog) + Logged(bp.HitCountMode, bp.HitCountTarget, 0, hits)
      ensures |eventLog| - |old(eventLog)| == Total(bp.HitCountMode, bp.HitCountTarget, |hits|)
    {
      for i := 0 to |hits|
        invariant PlainTarget(bp.RequestID, bp) && bp.HitCount == i
        invariant eventLog == old(eventLog) + Logged(bp.HitCountMode, bp.HitCountTarget, 0, hits[..i])
      {
        assert hits[..i + 1] == hits[..i] + [hits[i]];
        LoggedAppend(bp.HitCountMode, bp.HitCountTarget, 0, hits[..i], hits[i]);
        ghost var hit := HandleEvent(hits[i], holds);
        assert hit == bp;
      }
      assert hits[..|hits|] == hits;
      StopsTotal(bp.HitCountMode, bp.HitCountTarget, hits);
    }
  }
}

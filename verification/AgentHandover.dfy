/** The agent-state file during restarts: each process is replaced by a child of the next
    generation, and all of them write and remove the one file.

    Each check of the file together with the write or removal it guards is one atomic step;
    reading the file to rewrite it later, as a restart does, is a step of its own. */
module AgentHandover {

  datatype Status = Starting | Ready | HandingOver | Failed

  datatype AgentState = AgentState(generation: int, pid: int, status: Status, error: string)

  /** A file that cannot be parsed counts as garbage. */
  datatype File = Missing | Garbage | Holds(state: AgentState)

  /** Why an existing record may not be replaced by st. */
  predicate Refuses(existing: AgentState, st: AgentState) {
    || existing.generation > st.generation
    || (existing.generation == st.generation && existing.pid != 0 && st.pid != 0 && existing.pid != st.pid
        && existing.status == Ready && st.status == Starting)
  }

  /** The file after WriteAgentStateAtomic. */
  function Written(file: File, st: AgentState): File {
    if file.Holds? && Refuses(file.state, st) then file else Holds(st)
  }

  /** The file after RemoveAgentState. */
  function Removed(file: File, pid: int, generation: int): File {
    if file.Holds? && file.state.generation <= generation && (file.state.pid == 0
        || file.state.pid == pid) then Missing else file
  }

  datatype WriteResult = Wrote | RefusedNewer | RefusedReady

  /** The file and its three operations, as one process performs them under the lock. */
  class StateFile {
    var file: File

    constructor (file: File)
      ensures this.file == file
    {
      this.file := file;
    }

    method WriteAgentStateAtomic(st: AgentState) returns (r: WriteResult)
      modifies this
      ensures file == Written(old(file), st)
      ensures r == Wrote ==> file == Holds(st)
      ensures r != Wrote ==> file == old(file) && file.Holds? && Refuses(file.state, st)
      ensures r == RefusedNewer <==> old(file).Holds? && old(file).state.generation > st.generation
      ensures r == RefusedReady <==>
                && old(file).Holds? && old(file).state.generation == st.generation && old(file).state.status == Ready
                && st.status == Starting && old(file).state.pid != st.pid && old(file).state.pid != 0 && st.pid != 0
      ensures st.status != Starting && r != RefusedNewer ==> r == Wrote && file == Holds(st)
      ensures !old(file).Holds? ==> r == Wrote && file == Holds(st)
      ensures old(file).Holds? && (old(file).state.generation < st.generation
                || (old(file).state.generation == st.generation && old(file).state.pid == st.pid)) ==>
                r == Wrote && file == Holds(st)
    {
      match file {
        case Holds(existing) =>
          if existing.generation > st.generation {
            return RefusedNewer;
          }
          if existing.generation == st.generation && existing.pid != 0 && st.pid != 0
             && existing.pid != st.pid && existing.status == Ready && st.status == Starting {
            return RefusedReady;
          }
        case _ =>
      }
      file := Holds(st);
      return Wrote;
    }

    method RemoveAgentState(pid: int, generation: int) returns (ok: bool)
      modifies this
      ensures file == Removed(old(file), pid, generation)
      ensures file == Missing || file == old(file)
      ensures old(file).Holds? ==>
                (file == Missing <==>
                 (old(file).state.pid == pid || old(file).state.pid == 0) && old(file).state.generation <= generation)
      ensures ok <==> !old(file).Garbage?
    {
      match file {
        case Missing => return true;
        case Garbage => return false;
        case Holds(existing) =>
          if existing.generation > generation || (existing.pid != 0 && existing.pid != pid) {
            return true;
          }
      }
      file := Missing;
      return true;
    }
  }

  // ------------------------------------------------------------ the processes

  /** Where a process is: starting up, bound, serving, in the middle of a restart with the
      record it has read and altered in `held`, on its way out, or gone. */
  datatype Phase = Booting | Listening | Serving | AboutToHandOver | Spawning | SpawnFailed | Leaving | Gone

  datatype Process = Process(generation: int, pid: int, phase: Phase, held: AgentState)

  datatype System = System(file: File, procs: seq<Process>)

  datatype Action =
    | WriteStarting | WriteReady | WriteListenFailed
    | ReadForHandover | WriteHandingOver
    | Spawn(childPid: int) | SpawnFails | WriteSpawnFailed
    | Remove | Exit

  /** Step `action` of process `who`; a write may fail for outside reasons and leave the file alone. */
  datatype Step = Step(who: nat, action: Action, ioError: bool)

  function Own(p: Process, status: Status): AgentState {
    AgentState(p.generation, p.pid, status, "")
  }

  predicate Enabled(s: System, e: Step) {
    e.who < |s.procs| &&
    var phase := s.procs[e.who].phase;
    match e.action
    case WriteStarting => phase == Booting
    case WriteReady => phase == Listening
    case WriteListenFailed => phase == Listening
    case ReadForHandover => phase == Serving
    case WriteHandingOver => phase == AboutToHandOver
    case Spawn(_) => phase == Spawning
    case SpawnFails => phase == Spawning
    case WriteSpawnFailed => phase == SpawnFailed
    case Remove => phase == Listening || phase == Serving || phase == Leaving
    case Exit => phase != Gone
  }

  function Put(s: System, e: Step, st: AgentState): File {
    if e.ioError then s.file else Written(s.file, st)
  }

  function Moved(s: System, who: nat, phase: Phase): System
    requires who < |s.procs|
  {
    s.(procs := s.procs[who := s.procs[who].(phase := phase)])
  }

  function Apply(s: System, e: Step): System
    requires Enabled(s, e)
  {
    var p := s.procs[e.who];
    match e.action
    case WriteStarting => Moved(s, e.who, Listening).(file := Put(s, e, Own(p, Starting)))
    case WriteReady => Moved(s, e.who, Serving).(file := Put(s, e, Own(p, Ready)))
    case WriteListenFailed => Moved(s, e.who, Gone).(file := Put(s, e, Own(p, Failed).(error := "listen")))
    case ReadForHandover =>
      if s.file.Holds? then
        s.(procs := s.procs[e.who := p.(phase := AboutToHandOver, held := s.file.state.(status := HandingOver))])
      else Moved(s, e.who, Spawning)
    case WriteHandingOver => Moved(s, e.who, Spawning).(file := Put(s, e, p.held))
    case Spawn(childPid) =>
      var t := Moved(s, e.who, Leaving);
      t.(procs := t.procs + [Process(p.generation + 1, childPid, Booting, p.held)])
    case SpawnFails =>
      if s.file.Holds? then
        s.(procs := s.procs[e.who := p.(phase := SpawnFailed,
                                        held := s.file.state.(status := Failed, error := "spawn replacement failed"))])
      else Moved(s, e.who, Gone)
    case WriteSpawnFailed => Moved(s, e.who, Gone).(file := Put(s, e, p.held))
    case Remove => Moved(s, e.who, Gone).(file := Removed(s.file, p.pid, p.generation))
    case Exit => Moved(s, e.who, Gone)
  }

  // ---------------------------------------------------- legitimate writes land

  /** Over no record, an older generation's, or one of the same pid and generation every write
      lands, and over a record of the same generation every write but that of a starting one. */
  lemma WriteLands(file: File, st: AgentState)
    requires file.Holds? ==> file.state.generation <= st.generation
    requires file.Holds? && file.state.generation == st.generation ==>
               file.state.pid == st.pid || st.status != Starting || file.state.status != Ready
    ensures Written(file, st) == Holds(st)
  {
  }

  /** An ordinary start: a process that becomes ready replaces its own starting record. */
  lemma OrdinaryStart(states: seq<System>, steps: seq<Step>, k: nat)
    requires Steps(states, steps) && k < |steps| && steps[k].action == WriteReady && !steps[k].ioError
    requires steps[k].who < |states[k].procs| && states[k].file == Holds(Own(states[k].procs[steps[k].who], Starting))
    ensures states[k + 1].file == Holds(Own(states[k].procs[steps[k].who], Ready))
  {
    assert Enabled(states[k], steps[k]) && states[k + 1] == Apply(states[k], steps[k]);
  }

  /** On its way out a process removes the record that it has left in the file. */
  lemma OwnRecordRemoved(states: seq<System>, steps: seq<Step>, k: nat)
    requires Steps(states, steps) && k < |steps| && steps[k].action == Remove && steps[k].who < |states[k].procs|
    requires states[k].file.Holds? && states[k].file.state.pid == states[k].procs[steps[k].who].pid
    requires states[k].file.state.generation <= states[k].procs[steps[k].who].generation
    ensures states[k + 1].file == Missing
  {
    assert Enabled(states[k], steps[k]) && states[k + 1] == Apply(states[k], steps[k]);
  }

  // ------------------------------------------- what holds from any file at all

  lemma StepKeepsGeneration(s: System, e: Step)
    requires Enabled(s, e) && s.file.Holds? && Apply(s, e).file.Holds?
    ensures s.file.state.generation <= Apply(s, e).file.state.generation
  {
  }

  /** Any number of steps of any processes, one after the other. */
  ghost predicate Steps(states: seq<System>, steps: seq<Step>) {
    && |states| == |steps| + 1
    && forall i :: 0 <= i < |steps| ==> Enabled(states[i], steps[i]) && states[i + 1] == Apply(states[i], steps[i])
  }

  /** While the file holds a record, its generation never decreases, whatever processes act. */
  lemma {:induction false} GenerationNeverDecreases(states: seq<System>, steps: seq<Step>, k: nat, n: nat)
    requires Steps(states, steps) && k <= n < |states|
    requires forall i :: k <= i <= n ==> states[i].file.Holds?
    ensures states[k].file.state.generation <= states[n].file.state.generation
    decreases n - k
  {
    if k == n {
    } else {
      hide Apply, Enabled;
      GenerationNeverDecreases(states, steps, k, n - 1);
      assert Enabled(states[n - 1], steps[n - 1]) && states[n] == Apply(states[n - 1], steps[n - 1]);
      StepKeepsGeneration(states[n - 1], steps[n - 1]);
    }
  }

  /** Processes have real process ids, different ones within a generation. */
  predicate PidsDistinct(s: System) {
    && (forall i :: 0 <= i < |s.procs| ==> s.procs[i].pid != 0)
    && forall i, j :: 0 <= i < j < |s.procs| ==>
         s.procs[i].generation != s.procs[j].generation || s.procs[i].pid != s.procs[j].pid
  }

  predicate ReadyIn(s: System, g: int) {
    s.file.Holds? && s.file.state.generation == g && s.file.state.status == Ready
  }

  /** A process of generation g with this pid has got past its starting record. */
  ghost predicate Started(s: System, g: int, pid: int) {
    exists i :: 0 <= i < |s.procs| && s.procs[i].generation == g && s.procs[i].pid == pid && s.procs[i].phase != Booting
  }

  lemma StepKeepsProcs(s: System, e: Step)
    requires Enabled(s, e)
    ensures |s.procs| <= |Apply(s, e).procs|
    ensures forall i :: 0 <= i < |s.procs| ==>
              && Apply(s, e).procs[i].generation == s.procs[i].generation
              && Apply(s, e).procs[i].pid == s.procs[i].pid
              && (s.procs[i].phase != Booting ==> Apply(s, e).procs[i].phase != Booting)
  {
  }

  lemma StepKeepsPids(s: System, e: Step)
    requires Enabled(s, e) && PidsDistinct(Apply(s, e))
    ensures PidsDistinct(s)
  {
    hide Apply, Enabled;
    StepKeepsProcs(s, e);
    var t := Apply(s, e);
    forall i | 0 <= i < |s.procs| ensures s.procs[i].pid != 0 {
      assert t.procs[i].pid != 0;
    }
    forall i, j | 0 <= i < j < |s.procs|
      ensures s.procs[i].generation != s.procs[j].generation || s.procs[i].pid != s.procs[j].pid
    {
      assert t.procs[i].generation != t.procs[j].generation || t.procs[i].pid != t.procs[j].pid;
    }
  }

  lemma {:induction false} PidsDistinctBefore(states: seq<System>, steps: seq<Step>, k: nat, n: nat)
    requires Steps(states, steps) && k <= n < |states| && PidsDistinct(states[n])
    ensures PidsDistinct(states[k])
    decreases n - k
  {
    if k == n {
    } else {
      hide Apply, Enabled, PidsDistinct;
      assert Enabled(states[n - 1], steps[n - 1]) && states[n] == Apply(states[n - 1], steps[n - 1]);
      StepKeepsPids(states[n - 1], steps[n - 1]);
      PidsDistinctBefore(states, steps, k, n - 1);
    }
  }

  lemma StartedStays(s: System, e: Step, g: int, pid: int)
    requires Enabled(s, e) && Started(s, g, pid)
    ensures Started(Apply(s, e), g, pid)
  {
    hide Apply, Enabled;
    StepKeepsProcs(s, e);
    var i :| 0 <= i < |s.procs| && s.procs[i].generation == g && s.procs[i].pid == pid && s.procs[i].phase != Booting;
    assert Apply(s, e).procs[i].pid == pid;
  }

  lemma StartedIsNotBooting(s: System, who: nat, g: int, pid: int)
    requires PidsDistinct(s) && Started(s, g, pid)
    requires who < |s.procs| && s.procs[who].generation == g && s.procs[who].pid == pid
    ensures s.procs[who].phase != Booting
  {
    var i :| 0 <= i < |s.procs| && s.procs[i].generation == g && s.procs[i].pid == pid && s.procs[i].phase != Booting;
    assert i == who;
  }

  /** A restart rewrites the record it has read as handing over or failed. */
  predicate RestartsMarked(s: System) {
    forall i :: 0 <= i < |s.procs| && (s.procs[i].phase == AboutToHandOver || s.procs[i].phase == SpawnFailed) ==>
      s.procs[i].held.status == HandingOver || s.procs[i].held.status == Failed
  }

  lemma StepKeepsMarks(s: System, e: Step)
    requires Enabled(s, e) && RestartsMarked(s)
    ensures RestartsMarked(Apply(s, e))
  {
  }

  /** What one step may make of a ready record: it stays, or gives way to a ready record of a
      process that is past starting, or to something that is not starting, or to a starting
      record of the same pid by a process that was still booting. */
  lemma ReadyStep(s: System, e: Step, g: int)
    requires Enabled(s, e) && RestartsMarked(s) && ReadyIn(s, g) && s.file.state.pid != 0 && s.procs[e.who].pid != 0
    requires Apply(s, e).file.Holds? && Apply(s, e).file.state.generation == g
    ensures var p, t := s.procs[e.who], Apply(s, e);
            || t.file == s.file
            || t.file.state.status == HandingOver || t.file.state.status == Failed
            || (p.generation == g && t.file == Holds(Own(p, Ready)) && t.procs[e.who].phase == Serving)
            || (p.generation == g && p.phase == Booting && p.pid == s.file.state.pid
                && t.file == Holds(Own(p, Starting)))
  {
  }

  lemma ReadyWhoseStep(s: System, e: Step, g: int, a: int)
    requires Enabled(s, e) && PidsDistinct(s) && RestartsMarked(s) && ReadyIn(s, g) && s.file.state.pid != 0
    requires s.file.state.pid == a || Started(s, g, s.file.state.pid)
    requires Apply(s, e).file.Holds? && Apply(s, e).file.state.generation == g
    ensures var t := Apply(s, e);
            || t.file.state.status == HandingOver || t.file.state.status == Failed
            || (t.file.state.status == Starting && t.file.state.pid == a)
            || (ReadyIn(t, g) && t.file.state.pid != 0 && (t.file.state.pid == a || Started(t, g, t.file.state.pid)))
  {
    var p, t := s.procs[e.who], Apply(s, e);
    var pid := s.file.state.pid;
    assert p.pid != 0;
    hide Apply, Enabled, PidsDistinct, RestartsMarked, Started;
    StepKeepsProcs(s, e);
    ReadyStep(s, e, g);
    if pid != a {
      StartedStays(s, e, g, pid);
      if p.generation == g && p.pid == pid {
        StartedIsNotBooting(s, e.who, g, pid);
      }
    }
    if t.procs[e.who].phase == Serving && p.generation == g {
      ServingIsStarted(t, e.who);
    }
  }

  lemma ServingIsStarted(s: System, who: nat)
    requires who < |s.procs| && s.procs[who].phase == Serving
    ensures Started(s, s.procs[who].generation, s.procs[who].pid)
  {
  }

  lemma {:induction false} ReadyGivesWay(states: seq<System>, steps: seq<Step>, a: int, first: nat, k: nat, n: nat)
    returns (j: nat)
    requires Steps(states, steps) && first <= k < n < |states| && PidsDistinct(states[n]) && RestartsMarked(states[k])
    requires forall i :: first <= i <= n ==> states[i].file.Holds?
    requires ReadyIn(states[k], states[n].file.state.generation) && states[k].file.state.pid != 0
    requires states[k].file.state.pid == a
             || Started(states[k], states[n].file.state.generation, states[k].file.state.pid)
    requires states[n].file.state.status == Starting && states[n].file.state.pid != a
    ensures k < j < n
    ensures || states[j].file.state.status == HandingOver || states[j].file.state.status == Failed
            || (states[j].file.state.status == Starting && states[j].file.state.pid == a)
    decreases n - k
  {
    hide Apply, Enabled, PidsDistinct, RestartsMarked, Started;
    var g := states[n].file.state.generation;
    PidsDistinctBefore(states, steps, k, n);
    GenerationNeverDecreases(states, steps, k, k + 1);
    GenerationNeverDecreases(states, steps, k + 1, n);
    assert Enabled(states[k], steps[k]) && states[k + 1] == Apply(states[k], steps[k]);
    ReadyWhoseStep(states[k], steps[k], g, a);
    StepKeepsMarks(states[k], steps[k]);
    if ReadyIn(states[k + 1], g) {
      j := ReadyGivesWay(states, steps, a, first, k + 1, n);
    } else {
      j := k + 1;
    }
  }

  /** In one generation a ready record of one pid becomes a starting record of another only by
      way of a removal, a handing-over or failed record, or the pid's own starting record. */
  lemma ReadyNotReplacedByStarting(states: seq<System>, steps: seq<Step>, k: nat, n: nat) returns (j: nat)
    requires Steps(states, steps) && k < n < |states| && PidsDistinct(states[n]) && RestartsMarked(states[k])
    requires forall i :: k <= i <= n ==> states[i].file.Holds?
    requires ReadyIn(states[k], states[n].file.state.generation) && states[k].file.state.pid != 0
    requires states[n].file.state.status == Starting && states[n].file.state.pid != states[k].file.state.pid
    ensures k < j < n
    ensures || states[j].file.state.status == HandingOver || states[j].file.state.status == Failed
            || (states[j].file.state.status == Starting && states[j].file.state.pid == states[k].file.state.pid)
  {
    j := ReadyGivesWay(states, steps, states[k].file.state.pid, k, k, n);
  }

  // ------------------------------------------------------- the restart chain

  predicate BeforeSpawn(phase: Phase) {
    phase != Leaving && phase != Gone
  }

  /** Each process is one generation after its parent, and only the latest can still write. */
  predicate Shape(s: System, g0: int) {
    && |s.procs| > 0
    && (forall i :: 0 <= i < |s.procs| ==> s.procs[i].generation == g0 + i)
    && (forall i :: 0 <= i < |s.procs| - 1 ==> !BeforeSpawn(s.procs[i].phase))
  }

  predicate FileBounded(s: System, g0: int) {
    s.file.Holds? ==> s.file.state.generation <= g0 + |s.procs| - 1
  }

  predicate HeldBounded(s: System, g0: int) {
    forall i :: 0 <= i < |s.procs| && (s.procs[i].phase == AboutToHandOver || s.procs[i].phase == SpawnFailed) ==>
      s.procs[i].held.generation <= g0 + i
  }

  /** No record, in the file or held, is of a later generation than the latest process. */
  predicate ChainInv(s: System, g0: int) {
    Shape(s, g0) && FileBounded(s, g0) && HeldBounded(s, g0)
  }

  function Chain(file: File, g0: int, pid: int): System {
    System(file, [Process(g0, pid, Booting, AgentState(g0, pid, Starting, ""))])
  }

  /** A record that a crashed agent of a later generation has left behind. */
  predicate NewerLeftover(file: File, g0: int) {
    file.Holds? && file.state.generation > g0
  }

  lemma StepShape(s: System, e: Step, g0: int)
    requires Shape(s, g0) && Enabled(s, e)
    ensures Shape(Apply(s, e), g0)
  {
  }

  lemma StepFileBounded(s: System, e: Step, g0: int)
    requires ChainInv(s, g0) && Enabled(s, e)
    ensures FileBounded(Apply(s, e), g0)
  {
  }

  lemma StepHeldBounded(s: System, e: Step, g0: int)
    requires ChainInv(s, g0) && Enabled(s, e)
    ensures HeldBounded(Apply(s, e), g0)
  {
  }

  lemma StepChainInv(s: System, e: Step, g0: int)
    requires ChainInv(s, g0) && Enabled(s, e)
    ensures ChainInv(Apply(s, e), g0)
  {
    hide Shape, FileBounded, HeldBounded, Apply, Enabled;
    StepShape(s, e, g0);
    StepFileBounded(s, e, g0);
    StepHeldBounded(s, e, g0);
  }

  /** The runs of a chain that starts with one process of generation g0. */
  ghost predicate IsRun(file: File, g0: int, pid: int, states: seq<System>, steps: seq<Step>) {
    Steps(states, steps) && states[0] == Chain(file, g0, pid)
  }

  /** Every run keeps the shape, whatever file it starts on. */
  lemma {:induction false} RunShape(file: File, g0: int, pid: int, states: seq<System>, steps: seq<Step>, n: nat)
    requires IsRun(file, g0, pid, states, steps) && n < |states|
    ensures Shape(states[n], g0)
    decreases n
  {
    if n == 0 {
    } else {
      hide Shape, Apply, Enabled;
      RunShape(file, g0, pid, states, steps, n - 1);
      assert Enabled(states[n - 1], steps[n - 1]) && states[n] == Apply(states[n - 1], steps[n - 1]);
      StepShape(states[n - 1], steps[n - 1], g0);
    }
  }

  lemma {:induction false} RunChainInv(file: File, g0: int, pid: int, states: seq<System>, steps: seq<Step>, n: nat)
    requires IsRun(file, g0, pid, states, steps) && n < |states| && !NewerLeftover(file, g0)
    ensures ChainInv(states[n], g0)
    decreases n
  {
    if n == 0 {
    } else {
      hide ChainInv, Apply, Enabled, NewerLeftover;
      RunChainInv(file, g0, pid, states, steps, n - 1);
      assert Enabled(states[n - 1], steps[n - 1]) && states[n] == Apply(states[n - 1], steps[n - 1]);
      StepChainInv(states[n - 1], steps[n - 1], g0);
    }
  }

  /** A process never touches a record of a later generation than its own. */
  lemma StepSparesNewer(s: System, e: Step, g0: int)
    requires ChainInv(s, g0) && Enabled(s, e)
    requires s.file.Holds? && s.file.state.generation > s.procs[e.who].generation
    ensures Apply(s, e).file == s.file
  {
  }

  /** The file before step i holds a record of a later generation than the process that moves. */
  predicate FacesNewer(s: System, e: Step) {
    e.who < |s.procs| && s.file.Holds? && s.file.state.generation > s.procs[e.who].generation
  }

  predicate SparesNewer(states: seq<System>, steps: seq<Step>) {
    forall i :: 0 <= i < |steps| && i + 1 < |states| && FacesNewer(states[i], steps[i]) ==>
      states[i + 1].file == states[i].file
  }

  /** Over every run of a restart chain: records of later generations are spared. */
  lemma NewerRecordsSpared(file: File, g0: int, pid: int, states: seq<System>, steps: seq<Step>)
    requires IsRun(file, g0, pid, states, steps) && !NewerLeftover(file, g0)
    ensures SparesNewer(states, steps)
  {
    hide ChainInv, Apply, NewerLeftover;
    forall i | 0 <= i < |steps| && FacesNewer(states[i], steps[i]) ensures states[i + 1].file == states[i].file {
      RunChainInv(file, g0, pid, states, steps, i);
      StepSparesNewer(states[i], steps[i], g0);
    }
  }

  // With a newer leftover that is not so: the restart reads it, marks it as handing over and
  // writes it back, and when no child can be spawned it marks it as failed.

  function Script(i: nat): Step {
    Step(0, if i == 0 then WriteStarting else if i == 1 then WriteReady else if i == 2 then ReadForHandover
            else if i == 3 then WriteHandingOver else if i == 4 then SpawnFails else WriteSpawnFailed, false)
  }

  function Scene(leftover: AgentState, g0: int, pid: int, i: nat): System {
    var marked := leftover.(status := HandingOver);
    var failed := marked.(status := Failed, error := "spawn replacement failed");
    System(Holds(if i < 4 then leftover else if i < 6 then marked else failed),
           [Process(g0, pid,
                    if i == 0 then Booting else if i == 1 then Listening else if i == 2 then Serving
                    else if i == 3 then AboutToHandOver else if i == 4 then Spawning else if i == 5 then SpawnFailed
                    else Gone,
                    if i < 3 then AgentState(g0, pid, Starting, "") else if i < 5 then marked else failed)])
  }

  lemma SceneStep(leftover: AgentState, g0: int, pid: int, i: nat)
    requires leftover.generation > g0 && i < 6
    ensures Enabled(Scene(leftover, g0, pid, i), Script(i))
    ensures Apply(Scene(leftover, g0, pid, i), Script(i)) == Scene(leftover, g0, pid, i + 1)
  {
  }

  lemma LeftoverIsTouched(file: File, g0: int, pid: int) returns (states: seq<System>, steps: seq<Step>)
    requires NewerLeftover(file, g0)
    ensures IsRun(file, g0, pid, states, steps) && !SparesNewer(states, steps)
  {
    var leftover := file.state;
    states := seq(7, i requires 0 <= i < 7 => Scene(leftover, g0, pid, i));
    steps := seq(6, i requires 0 <= i < 6 => Script(i));
    assert states[0] == Chain(file, g0, pid);
    var k := if leftover.status != HandingOver then 3 else 5;
    assert states[k + 1].file != states[k].file && FacesNewer(states[k], steps[k]);
    hide Enabled, Apply, Scene, Script;
    forall i | 0 <= i < 6 ensures Enabled(states[i], steps[i]) && states[i + 1] == Apply(states[i], steps[i]) {
      SceneStep(leftover, g0, pid, i);
    }
  }

  /** So a chain always spares newer records exactly if it does not start on one. */
  lemma SparedExactly(file: File, g0: int, pid: int)
    ensures !NewerLeftover(file, g0) <==>
            forall states, steps :: IsRun(file, g0, pid, states, steps) ==> SparesNewer(states, steps)
  {
    hide *;
    if NewerLeftover(file, g0) {
      var states, steps := LeftoverIsTouched(file, g0, pid);
    } else {
      forall states, steps | IsRun(file, g0, pid, states, steps) ensures SparesNewer(states, steps) {
        NewerRecordsSpared(file, g0, pid, states, steps);
      }
    }
  }

  // ------------------------------------------------------ own records get there

  /** A successor that has not written yet finds no record of its own generation or a later one. */
  predicate SuccessorFirst(s: System) {
    |s.procs| > 1 && s.procs[|s.procs| - 1].phase == Booting ==>
      s.file.Holds? ==> s.file.state.generation < s.procs[|s.procs| - 1].generation
  }

  lemma StepSuccessorFirst(s: System, e: Step, g0: int)
    requires ChainInv(s, g0) && SuccessorFirst(s) && Enabled(s, e)
    ensures SuccessorFirst(Apply(s, e))
  {
  }

  lemma {:induction false} RunSuccessorFirst(file: File, g0: int, pid: int, states: seq<System>, steps: seq<Step>,
                                             n: nat)
    requires IsRun(file, g0, pid, states, steps) && n < |states| && !NewerLeftover(file, g0)
    ensures SuccessorFirst(states[n])
    decreases n
  {
    if n == 0 {
    } else {
      hide ChainInv, Apply, Enabled, NewerLeftover, SuccessorFirst;
      RunSuccessorFirst(file, g0, pid, states, steps, n - 1);
      RunChainInv(file, g0, pid, states, steps, n - 1);
      assert Enabled(states[n - 1], steps[n - 1]) && states[n] == Apply(states[n - 1], steps[n - 1]);
      StepSuccessorFirst(states[n - 1], steps[n - 1], g0);
    }
  }

  /** Over every run of a chain that does not start on a later generation's record: unless the
      file cannot be written, the ready record of every process lands, and the starting record of
      every successor. */
  lemma OwnWritesLand(file: File, g0: int, pid: int, states: seq<System>, steps: seq<Step>, k: nat)
    requires IsRun(file, g0, pid, states, steps) && !NewerLeftover(file, g0) && k < |steps| && !steps[k].ioError
    requires steps[k].who < |states[k].procs|
    ensures steps[k].action == WriteReady ==>
              states[k + 1].file == Holds(Own(states[k].procs[steps[k].who], Ready))
    ensures steps[k].action == WriteStarting && steps[k].who > 0 ==>
              states[k + 1].file == Holds(Own(states[k].procs[steps[k].who], Starting))
  {
    hide NewerLeftover;
    RunChainInv(file, g0, pid, states, steps, k);
    RunSuccessorFirst(file, g0, pid, states, steps, k);
    var s, e := states[k], steps[k];
    assert Enabled(s, e) && states[k + 1] == Apply(s, e);
    hide Steps, IsRun;
    if e.action == WriteReady || e.action == WriteStarting {
      assert e.who == |s.procs| - 1;
    }
  }

  /** Every ready record that could be written is in the file after the write. */
  predicate ReadyLands(states: seq<System>, steps: seq<Step>) {
    forall k :: 0 <= k < |steps| && k + 1 < |states| && steps[k].action == WriteReady && !steps[k].ioError
                && steps[k].who < |states[k].procs| ==>
      states[k + 1].file == Holds(Own(states[k].procs[steps[k].who], Ready))
  }

  /** And that condition is exact. */
  lemma ReadyLandsExactly(file: File, g0: int, pid: int)
    ensures !NewerLeftover(file, g0) <==>
            forall states, steps :: IsRun(file, g0, pid, states, steps) ==> ReadyLands(states, steps)
  {
    if NewerLeftover(file, g0) {
      var states, steps := LeftoverStays(file, g0, pid);
      hide Apply, Enabled, Own;
      assert states[1 + 1].file != Holds(Own(states[1].procs[steps[1].who], Ready));
      assert IsRun(file, g0, pid, states, steps) && !ReadyLands(states, steps);
    } else {
      hide Apply, Enabled, Own, NewerLeftover;
      forall states: seq<System>, steps: seq<Step> | IsRun(file, g0, pid, states, steps)
        ensures ReadyLands(states, steps)
      {
        forall k | 0 <= k < |steps| && steps[k].action == WriteReady && !steps[k].ioError
                   && steps[k].who < |states[k].procs|
          ensures states[k + 1].file == Holds(Own(states[k].procs[steps[k].who], Ready))
        {
          OwnWritesLand(file, g0, pid, states, steps, k);
        }
      }
    }
  }

  /** A later generation's record stays whatever the first process writes of its own. */
  lemma LeftoverStays(file: File, g0: int, pid: int) returns (states: seq<System>, steps: seq<Step>)
    requires NewerLeftover(file, g0)
    ensures IsRun(file, g0, pid, states, steps) && |steps| == 2 && steps[1] == Step(0, WriteReady, false)
    ensures states[2].file == file && states[1].procs != [] && states[1].procs[0].generation == g0
    ensures file != Holds(Own(states[1].procs[0], Ready))
  {
    var s0 := Chain(file, g0, pid);
    var s1 := Apply(s0, Script(0));
    var s2 := Apply(s1, Script(1));
    states, steps := [s0, s1, s2], [Script(0), Script(1)];
  }

  // -------------------------------------------- once a successor has written

  /** The file is generation h's or later, or has been removed, and nobody holds anything older. */
  predicate TakenOver(s: System, g0: int, h: int) {
    && ChainInv(s, g0) && h <= g0 + |s.procs| - 1
    && (s.file.Holds? ==> s.file.state.generation >= h)
    && forall i :: 0 <= i < |s.procs| && (s.procs[i].phase == AboutToHandOver || s.procs[i].phase == SpawnFailed) ==>
         s.procs[i].held.generation >= h
  }

  lemma TakenOverKept(s: System, e: Step, g0: int, h: int)
    requires TakenOver(s, g0, h) && Enabled(s, e)
    ensures TakenOver(Apply(s, e), g0, h)
    ensures s.procs[e.who].generation < h ==> Apply(s, e).file == s.file
  {
    StepChainInv(s, e, g0);
  }

  lemma {:induction false} TakenOverForGood(file: File, g0: int, pid: int, states: seq<System>, steps: seq<Step>,
                                            k: nat, n: nat, h: int)
    requires IsRun(file, g0, pid, states, steps) && k <= n < |states| && TakenOver(states[k], g0, h)
    ensures TakenOver(states[n], g0, h)
    decreases n - k
  {
    if k == n {
    } else {
      hide TakenOver, Apply, Enabled;
      TakenOverForGood(file, g0, pid, states, steps, k, n - 1, h);
      assert Enabled(states[n - 1], steps[n - 1]) && states[n] == Apply(states[n - 1], steps[n - 1]);
      TakenOverKept(states[n - 1], steps[n - 1], g0, h);
    }
  }

  /** A process writing a record of its own: on starting, on being ready, or on failing to listen. */
  predicate WritesOwn(action: Action) {
    action == WriteStarting || action == WriteReady || action == WriteListenFailed
  }

  /** From the moment such a record is in the file the chain is in its order, whatever was in the
      file before. */
  lemma WriteTakesOver(s: System, e: Step, g0: int)
    requires Shape(s, g0) && Enabled(s, e) && WritesOwn(e.action)
    requires Apply(s, e).file.Holds? && Apply(s, e).file.state.generation == s.procs[e.who].generation
    ensures TakenOver(Apply(s, e), g0, s.procs[e.who].generation)
  {
    StepShape(s, e, g0);
    assert e.who == |s.procs| - 1;
  }

  /** Handover safety, for every run on whatever file it starts: once the file holds a record of
      a process's own generation after that process has written, be it the starting, the ready or
      the failure record, no write and no removal by any earlier generation ever changes the file
      again, not even after the successor has removed its record. */
  lemma HandoverSafe(file: File, g0: int, pid: int, states: seq<System>, steps: seq<Step>, k: nat, n: nat)
    requires IsRun(file, g0, pid, states, steps) && k < n < |steps|
    requires WritesOwn(steps[k].action) && steps[k].who < |states[k].procs| && states[k + 1].file.Holds?
    requires states[k + 1].file.state.generation == states[k].procs[steps[k].who].generation
    requires steps[n].who < |states[n].procs|
    requires states[n].procs[steps[n].who].generation < states[k].procs[steps[k].who].generation
    ensures states[n + 1].file == states[n].file
  {
    hide Shape, Apply, TakenOver, Enabled, WritesOwn;
    RunShape(file, g0, pid, states, steps, k);
    assert Enabled(states[k], steps[k]) && states[k + 1] == Apply(states[k], steps[k]);
    WriteTakesOver(states[k], steps[k], g0);
    var h := states[k].procs[steps[k].who].generation;
    TakenOverForGood(file, g0, pid, states, steps, k + 1, n, h);
    assert Enabled(states[n], steps[n]) && states[n + 1] == Apply(states[n], steps[n]);
    TakenOverKept(states[n], steps[n], g0, h);
  }
}

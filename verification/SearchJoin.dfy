/** RunSearchWithJoin: a producer goroutine feeding a bounded channel, a consumer that
    batches and may fail, a drain goroutine, and the final join.

    The goroutines are modelled as one system of atomic steps that may be taken in any
    order. Each call of onBatch returns in a step of its own, successfully or not. */
module SearchJoin {

  const CAPACITY: nat := 16

  datatype Params = Params(totalItems: int, batchSize: int)

  /** Items are named by their number: item-0, item-1, ... */
  function Items(lo: nat, hi: nat): (s: seq<nat>)
    requires lo <= hi
    ensures |s| == hi - lo && forall i :: 0 <= i < |s| ==> s[i] == lo + i
    decreases hi - lo
  {
    if lo == hi then [] else [lo] + Items(lo + 1, hi)
  }

  function Total(p: Params): nat {
    if p.totalItems > 0 then p.totalItems else 0
  }

  /** A batch is handed over as soon as it is at least batchSize long, so never before one item. */
  function FullBatch(p: Params): nat {
    if p.batchSize > 1 then p.batchSize else 1
  }

  datatype ProducerAt = Sending | Closing | Leaving | Exited
  datatype ConsumerAt = Ranging | InBatch | LoopDone | InFinalBatch | Draining | Joining | Returned
  datatype DrainAt = NotStarted | DrainRunning | DrainExited

  datatype State = State(
    sent: nat,                  // items put into the channel
    channel: seq<nat>,
    closed: bool,
    callerCancelled: bool,      // the caller's context
    cancelled: bool,            // the context derived from it
    producer: ProducerAt,
    consumer: ConsumerAt,
    batch: seq<nat>,
    calls: seq<seq<nat>>,       // batches for which onBatch returned nil
    failed: bool,               // onBatch returned an error for the batch in `rejected`
    rejected: seq<nat>,
    drain: DrainAt,
    drained: seq<nat>)

  function Init(): State {
    State(0, [], false, false, false, Sending, Ranging, [], [], false, [], NotStarted, [])
  }

  datatype Step =
    | CallerCancels
    | ProducerSends | ProducerSeesCancel | ProducerRunsOut | ProducerCloses | ProducerLeaves
    | ConsumerReceives | ConsumerSeesClose | BatchReturns(ok: bool)
    | SkipFinal | StartFinal | FinalReturns(ok: bool) | StartDrain | Join
    | DrainReceives | DrainExits

  predicate Enabled(p: Params, s: State, e: Step) {
    match e
    case CallerCancels => !s.callerCancelled
    case ProducerSends => s.producer == Sending && s.sent < p.totalItems && |s.channel| < CAPACITY
    case ProducerSeesCancel => s.producer == Sending && s.sent < p.totalItems && s.cancelled
    case ProducerRunsOut => s.producer == Sending && s.sent >= p.totalItems
    case ProducerCloses => s.producer == Closing
    case ProducerLeaves => s.producer == Leaving
    case ConsumerReceives => s.consumer == Ranging && s.channel != []
    case ConsumerSeesClose => s.consumer == Ranging && s.channel == [] && s.closed
    case BatchReturns(_) => s.consumer == InBatch
    case SkipFinal => s.consumer == LoopDone && (s.failed || s.batch == [])
    case StartFinal => s.consumer == LoopDone && !s.failed && s.batch != []
    case FinalReturns(_) => s.consumer == InFinalBatch
    case StartDrain => s.consumer == Draining
    case Join => s.consumer == Joining && s.producer == Exited
    case DrainReceives => s.drain == DrainRunning && s.channel != []
    case DrainExits => s.drain == DrainRunning && s.channel == [] && s.closed
  }

  function Apply(p: Params, s: State, e: Step): State
    requires Enabled(p, s, e)
  {
    match e
    case CallerCancels => s.(callerCancelled := true, cancelled := true)
    case ProducerSends => s.(sent := s.sent + 1, channel := s.channel + [s.sent])
    case ProducerSeesCancel => s.(producer := Closing)
    case ProducerRunsOut => s.(producer := Closing)
    case ProducerCloses => s.(producer := Leaving, closed := true)
    case ProducerLeaves => s.(producer := Exited)
    case ConsumerReceives =>
      var batch := s.batch + [s.channel[0]];
      s.(channel := s.channel[1..], batch := batch, consumer := if |batch| >= p.batchSize then InBatch else Ranging)
    case ConsumerSeesClose => s.(consumer := LoopDone)
    case BatchReturns(ok) =>
      if ok then s.(calls := s.calls + [s.batch], batch := [], consumer := Ranging)
      else s.(failed := true, rejected := s.batch, cancelled := true, consumer := LoopDone)
    case SkipFinal => s.(consumer := Draining)
    case StartFinal => s.(consumer := InFinalBatch)
    case FinalReturns(ok) =>
      if ok then s.(calls := s.calls + [s.batch], batch := [], consumer := Draining)
      else s.(failed := true, rejected := s.batch, consumer := Draining)
    case StartDrain => s.(drain := DrainRunning, consumer := Joining)
    case Join => s.(consumer := Returned, cancelled := true)
    case DrainReceives => s.(drained := s.drained + [s.channel[0]], channel := s.channel[1..])
    case DrainExits => s.(drain := DrainExited)
  }

  // --------------------------------------------------------------- invariant

  function Concat(bs: seq<seq<nat>>): seq<nat> {
    if bs == [] then [] else Concat(bs[..|bs| - 1]) + bs[|bs| - 1]
  }

  /** Everything sent, in order: what onBatch accepted, then the batch in hand (which stays
      in hand after a failure), what was drained, and what is in the channel. */
  predicate Conserved(p: Params, s: State) {
    && s.sent <= Total(p)
    && Concat(s.calls) + s.batch + s.drained + s.channel == Items(0, s.sent)
  }

  /** Where each goroutine may be relative to the others. */
  predicate InStep(s: State) {
    && |s.channel| <= CAPACITY
    && (s.closed <==> s.producer == Leaving || s.producer == Exited)
    && (s.drain == NotStarted <==> s.consumer != Joining && s.consumer != Returned)
    && (s.drain == NotStarted ==> s.drained == [])
    && (s.drain == DrainExited ==> s.closed && s.channel == [])
    && (s.consumer == Returned ==> s.producer == Exited)
  }

  /** After an error the rejected batch stays in hand. */
  predicate FailureKept(s: State) {
    s.failed ==>
      && s.consumer != Ranging && s.consumer != InBatch && s.consumer != InFinalBatch
      && s.rejected == s.batch && s.batch != []
  }

  predicate Coordinated(s: State) {
    InStep(s) && FailureKept(s)
  }

  /** Without an error the consumer stops ranging only when the channel is closed and empty. */
  predicate DryUnlessFailed(s: State) {
    s.consumer != Ranging && s.consumer != InBatch && !s.failed ==> s.closed && s.channel == [] && s.drained == []
  }

  /** The batch in hand, in each phase of the consumer. */
  predicate BatchInHand(p: Params, s: State) {
    && (s.consumer == Ranging || s.consumer == InFinalBatch ==> |s.batch| < FullBatch(p))
    && (s.consumer == InBatch ==> |s.batch| == FullBatch(p))
    && (s.consumer == InFinalBatch ==> s.batch != [])
    && (s.consumer == LoopDone && !s.failed ==> |s.batch| < FullBatch(p))
    && (!s.failed && (s.consumer == Draining || s.consumer == Joining || s.consumer == Returned) ==> s.batch == [])
    && (s.failed ==> |s.batch| <= FullBatch(p))
  }

  predicate AllFull(p: Params, calls: seq<seq<nat>>) {
    forall i :: 0 <= i < |calls| ==> |calls[i]| == FullBatch(p)
  }

  predicate Ended(consumer: ConsumerAt) {
    consumer == Draining || consumer == Joining || consumer == Returned
  }

  /** The batches delivered: all full, but for the last one when the search has come to its end. */
  predicate Delivered(p: Params, ended: bool, failed: bool, calls: seq<seq<nat>>) {
    if ended && !failed && calls != [] then
      AllFull(p, calls[..|calls| - 1]) && 0 < |calls[|calls| - 1]| <= FullBatch(p)
    else AllFull(p, calls)
  }

  predicate BatchesDelivered(p: Params, s: State) {
    Delivered(p, Ended(s.consumer), s.failed, s.calls)
  }

  predicate BatchShape(p: Params, s: State) {
    BatchInHand(p, s) && BatchesDelivered(p, s)
  }

  /** The producer stops early only after a cancellation. */
  predicate StopsForAReason(p: Params, s: State) {
    && (s.cancelled ==> s.callerCancelled || s.failed || s.consumer == Returned)
    && (s.producer != Sending && s.sent < Total(p) ==> s.callerCancelled || s.failed)
  }

  predicate Inv(p: Params, s: State) {
    Conserved(p, s) && Coordinated(s) && DryUnlessFailed(s) && BatchShape(p, s) && StopsForAReason(p, s)
  }

  lemma InitInv(p: Params)
    ensures Inv(p, Init())
  {
  }

  lemma {:induction false} ItemsAppend(lo: nat, hi: nat)
    requires lo <= hi
    ensures Items(lo, hi + 1) == Items(lo, hi) + [hi]
  {
  }

  lemma MoveHead(head: seq<nat>, mid: seq<nat>, tail: seq<nat>)
    requires tail != []
    ensures head + mid + tail == head + (mid + [tail[0]]) + tail[1..]
  {
    assert tail == [tail[0]] + tail[1..];
  }

  lemma ConcatAppend(bs: seq<seq<nat>>, b: seq<nat>)
    ensures Concat(bs + [b]) == Concat(bs) + b
  {
    assert (bs + [b])[..|bs|] == bs;
  }

  lemma StepConserves(p: Params, s: State, e: Step)
    requires Inv(p, s) && Enabled(p, s, e)
    ensures Conserved(p, Apply(p, s, e))
  {
    hide DryUnlessFailed, BatchShape, StopsForAReason, Concat, Items;
    var t := Apply(p, s, e);
    var out, left := Concat(s.calls), s.drained + s.channel;
    match e {
      case ProducerSends =>
        ItemsAppend(0, s.sent);
        assert out + s.batch + s.drained + (s.channel + [s.sent]) == out + s.batch + s.drained + s.channel + [s.sent];
      case ConsumerReceives =>
        assert s.drained == [];
        MoveHead(out, s.batch, s.channel);
        assert out + s.batch + [] + s.channel == out + s.batch + s.channel;
        assert out + t.batch + [] + t.channel == out + t.batch + t.channel;
      case DrainReceives =>
        MoveHead(out + s.batch, s.drained, s.channel);
      case BatchReturns(ok) =>
        ConcatAppend(s.calls, s.batch);
        assert out + s.batch + [] == out + s.batch;
      case FinalReturns(ok) =>
        ConcatAppend(s.calls, s.batch);
        assert out + s.batch + [] == out + s.batch;
      case _ =>
    }
  }

  /** Every step of every goroutine keeps the invariant. */
  lemma StepInv(p: Params, s: State, e: Step)
    requires Inv(p, s) && Enabled(p, s, e)
    ensures Inv(p, Apply(p, s, e))
  {
    StepConserves(p, s, e);
    hide Conserved;
    StepCoordinates(p, s, e);
    StepShapes(p, s, e);
    hide Enabled, Apply, Coordinated, DryUnlessFailed, BatchShape, StopsForAReason;
  }

  /** Steps of the consumer, who alone handles batches. */
  predicate Consumes(e: Step) {
    e.ConsumerReceives? || e.ConsumerSeesClose? || e.BatchReturns? || e.SkipFinal? || e.StartFinal? || e.FinalReturns?
    || e.StartDrain? || e.Join?
  }

  lemma OthersLeaveBatches(p: Params, s: State, e: Step)
    requires Enabled(p, s, e) && !Consumes(e)
    ensures var t := Apply(p, s, e);
            && t.consumer == s.consumer && t.batch == s.batch && t.calls == s.calls
            && t.failed == s.failed && t.rejected == s.rejected
  {
  }

  lemma StepCoordinates(p: Params, s: State, e: Step)
    requires Inv(p, s) && Enabled(p, s, e)
    ensures Coordinated(Apply(p, s, e)) && DryUnlessFailed(Apply(p, s, e)) && StopsForAReason(p, Apply(p, s, e))
  {
    hide Conserved, BatchesDelivered, BatchInHand, InStep, FailureKept, DryUnlessFailed, StopsForAReason;
    hide Apply, Enabled;
    if Consumes(e) {
      ConsumerKeepsInStep(p, s, e);
      ConsumerKeepsFailure(p, s, e);
    } else {
      OthersKeepInStep(p, s, e);
      OthersKeepFailure(p, s, e);
    }
    KeepsDry(p, s, e);
    KeepsReason(p, s, e);
  }

  lemma ConsumerKeepsInStep(p: Params, s: State, e: Step)
    requires InStep(s) && Enabled(p, s, e) && Consumes(e)
    ensures InStep(Apply(p, s, e))
  {
  }

  lemma OthersKeepInStep(p: Params, s: State, e: Step)
    requires InStep(s) && Enabled(p, s, e) && !Consumes(e)
    ensures InStep(Apply(p, s, e))
  {
  }

  lemma ConsumerKeepsFailure(p: Params, s: State, e: Step)
    requires FailureKept(s) && BatchInHand(p, s) && Enabled(p, s, e) && Consumes(e)
    ensures FailureKept(Apply(p, s, e))
  {
  }

  lemma OthersKeepFailure(p: Params, s: State, e: Step)
    requires FailureKept(s) && Enabled(p, s, e) && !Consumes(e)
    ensures FailureKept(Apply(p, s, e))
  {
    OthersLeaveBatches(p, s, e);
    hide Apply, Enabled;
  }

  lemma KeepsDry(p: Params, s: State, e: Step)
    requires Coordinated(s) && DryUnlessFailed(s) && Enabled(p, s, e)
    ensures DryUnlessFailed(Apply(p, s, e))
  {
  }

  lemma KeepsReason(p: Params, s: State, e: Step)
    requires Coordinated(s) && StopsForAReason(p, s) && Enabled(p, s, e)
    ensures StopsForAReason(p, Apply(p, s, e))
  {
  }

  lemma StepShapes(p: Params, s: State, e: Step)
    requires Inv(p, s) && Enabled(p, s, e)
    ensures BatchShape(p, Apply(p, s, e))
  {
    hide Conserved, BatchesDelivered, BatchInHand, InStep, FailureKept, DryUnlessFailed, StopsForAReason;
    hide Apply, Enabled;
    if Consumes(e) {
      ConsumerKeepsBatch(p, s, e);
      ConsumerKeepsDelivered(p, s, e);
    } else {
      OthersKeepShapes(p, s, e);
    }
  }

  lemma OthersKeepShapes(p: Params, s: State, e: Step)
    requires BatchShape(p, s) && Enabled(p, s, e) && !Consumes(e)
    ensures BatchShape(p, Apply(p, s, e))
  {
    OthersLeaveBatches(p, s, e);
    hide Apply, Enabled, AllFull;
  }

  lemma ConsumerKeepsBatch(p: Params, s: State, e: Step)
    requires FailureKept(s) && BatchInHand(p, s) && Enabled(p, s, e) && Consumes(e)
    ensures BatchInHand(p, Apply(p, s, e))
  {
  }

  lemma ConsumerKeepsDelivered(p: Params, s: State, e: Step)
    requires FailureKept(s) && BatchInHand(p, s) && BatchesDelivered(p, s) && Enabled(p, s, e) && Consumes(e)
    ensures BatchesDelivered(p, Apply(p, s, e))
  {
    if e.BatchReturns? || e.FinalReturns? {
      BatchKeepsDelivered(p, s, e);
    } else {
      hide BatchInHand, FailureKept, AllFull, Delivered;
      if e.SkipFinal? {
        EndOfSearch(p, s.failed, s.calls);
      }
    }
  }

  lemma BatchKeepsDelivered(p: Params, s: State, e: Step)
    requires FailureKept(s) && BatchInHand(p, s) && BatchesDelivered(p, s) && Enabled(p, s, e)
    requires e.BatchReturns? || e.FinalReturns?
    ensures BatchesDelivered(p, Apply(p, s, e))
  {
    assert !s.failed && !Ended(s.consumer) && 0 < |s.batch| <= FullBatch(p);
    assert e.BatchReturns? ==> |s.batch| == FullBatch(p);
    hide BatchInHand, FailureKept, AllFull, Delivered, FullBatch;
    FullAppend(p, s.calls, s.batch);
    EndOfSearch(p, false, s.calls);
  }

  lemma FullAppend(p: Params, calls: seq<seq<nat>>, batch: seq<nat>)
    requires Delivered(p, false, false, calls) && 0 < |batch| <= FullBatch(p)
    ensures |batch| == FullBatch(p) ==> Delivered(p, false, false, calls + [batch])
    ensures Delivered(p, true, false, calls + [batch])
  {
    assert (calls + [batch])[..|calls|] == calls;
  }

  lemma EndOfSearch(p: Params, failed: bool, calls: seq<seq<nat>>)
    requires Delivered(p, false, failed, calls)
    ensures Delivered(p, true, failed, calls) && Delivered(p, false, true, calls) && Delivered(p, true, true, calls)
  {
  }

  // ------------------------------------------------------ progress and measure

  /** Every step, the caller's cancellation included, makes this smaller. */
  function Measure(p: Params, s: State): nat
    requires s.sent <= Total(p)
  {
    3 * (Total(p) - s.sent) + 2 * |s.channel|
    + ProducerRank(s.producer) + ConsumerRank(s.consumer) + DrainRank(s.drain) + (if s.callerCancelled then 0 else 1)
  }

  function ProducerRank(producer: ProducerAt): nat {
    match producer case Sending => 3 case Closing => 2 case Leaving => 1 case Exited => 0
  }

  function ConsumerRank(consumer: ConsumerAt): nat {
    match consumer
    case InBatch => 11
    case Ranging => 10
    case LoopDone => 9
    case InFinalBatch => 8
    case Draining => 7
    case Joining => 6
    case Returned => 5
  }

  function DrainRank(drain: DrainAt): nat {
    match drain case NotStarted => 2 case DrainRunning => 1 case DrainExited => 0
  }

  lemma StepDecreases(p: Params, s: State, e: Step)
    requires Inv(p, s) && Enabled(p, s, e)
    ensures Apply(p, s, e).sent <= Total(p) && Measure(p, Apply(p, s, e)) < Measure(p, s)
  {
    assert s.sent <= Total(p) && (s.consumer == Draining ==> s.drain == NotStarted) by {
      hide DryUnlessFailed, BatchShape, StopsForAReason, Apply, Enabled, Measure;
    }
    hide Inv;
    MeasureDecreases(p, s, e);
  }

  lemma MeasureDecreases(p: Params, s: State, e: Step)
    requires s.sent <= Total(p) && (s.consumer == Draining ==> s.drain == NotStarted) && Enabled(p, s, e)
    ensures Apply(p, s, e).sent <= Total(p) && Measure(p, Apply(p, s, e)) < Measure(p, s)
  {
    hide Measure, Enabled, Apply;
    match e {
      case CallerCancels => OutsideDecreases(p, s, e);
      case ProducerSends => ProducerDecreases(p, s, e);
      case ProducerSeesCancel => ProducerDecreases(p, s, e);
      case ProducerRunsOut => ProducerDecreases(p, s, e);
      case ProducerCloses => ProducerDecreases(p, s, e);
      case ProducerLeaves => ProducerDecreases(p, s, e);
      case DrainReceives => OutsideDecreases(p, s, e);
      case DrainExits => OutsideDecreases(p, s, e);
      case ConsumerReceives => ConsumerDecreases(p, s, e);
      case ConsumerSeesClose => ConsumerDecreases(p, s, e);
      case BatchReturns(ok) => ConsumerDecreases(p, s, e);
      case SkipFinal => ConsumerDecreases(p, s, e);
      case StartFinal => ConsumerDecreases(p, s, e);
      case FinalReturns(ok) => ConsumerDecreases(p, s, e);
      case StartDrain => ConsumerDecreases(p, s, e);
      case Join => ConsumerDecreases(p, s, e);
    }
  }

  lemma ProducerDecreases(p: Params, s: State, e: Step)
    requires s.sent <= Total(p) && Enabled(p, s, e)
    requires e.ProducerSends? || e.ProducerSeesCancel? || e.ProducerRunsOut? || e.ProducerCloses? || e.ProducerLeaves?
    ensures Apply(p, s, e).sent <= Total(p) && Measure(p, Apply(p, s, e)) < Measure(p, s)
  {
    hide ConsumerRank, DrainRank;
  }

  lemma OutsideDecreases(p: Params, s: State, e: Step)
    requires s.sent <= Total(p) && Enabled(p, s, e) && (e.CallerCancels? || e.DrainReceives? || e.DrainExits?)
    ensures Apply(p, s, e).sent <= Total(p) && Measure(p, Apply(p, s, e)) < Measure(p, s)
  {
    hide ConsumerRank, ProducerRank;
  }

  lemma ConsumerDecreases(p: Params, s: State, e: Step)
    requires s.sent <= Total(p) && Enabled(p, s, e) && (s.consumer == Draining ==> s.drain == NotStarted)
    requires e.ConsumerReceives? || e.ConsumerSeesClose? || e.BatchReturns? || e.SkipFinal? || e.StartFinal?
             || e.FinalReturns? || e.StartDrain? || e.Join?
    ensures Apply(p, s, e).sent <= Total(p) && Measure(p, Apply(p, s, e)) < Measure(p, s)
  {
    hide ProducerRank;
  }

  /** A step of some goroutine that can be taken now, as long as any goroutine is alive. */
  function SomeStep(p: Params, s: State): Step {
    match s.consumer
    case Ranging =>
      if s.channel != [] then ConsumerReceives
      else if s.closed then ConsumerSeesClose
      else ProducerStep(p, s)
    case InBatch => BatchReturns(true)
    case LoopDone => if s.failed || s.batch == [] then SkipFinal else StartFinal
    case InFinalBatch => FinalReturns(true)
    case Draining => StartDrain
    case Joining => if s.producer == Exited then Join else if s.channel != [] then DrainReceives else ProducerStep(p, s)
    case Returned => if s.channel != [] then DrainReceives else DrainExits
  }

  function ProducerStep(p: Params, s: State): Step {
    match s.producer
    case Sending => if s.sent < p.totalItems then ProducerSends else ProducerRunsOut
    case Closing => ProducerCloses
    case Leaving => ProducerLeaves
    case Exited => ProducerLeaves
  }

  /** All three goroutines are gone. */
  predicate AllGone(s: State) {
    s.consumer == Returned && s.producer == Exited && s.drain == DrainExited
  }

  /** No deadlock: unless everything is over, a goroutine can move without the caller's help,
      even when the producer is blocked on a full channel and the consumer has failed. */
  lemma NoDeadlock(p: Params, s: State)
    requires Inv(p, s) && !AllGone(s)
    ensures Enabled(p, s, SomeStep(p, s)) && SomeStep(p, s) != CallerCancels
  {
    hide Conserved, BatchShape, StopsForAReason;
  }

  // ------------------------------------------------------------------- runs

  ghost predicate IsRun(p: Params, states: seq<State>, steps: seq<Step>) {
    && |states| == |steps| + 1
    && states[0] == Init()
    && forall i :: 0 <= i < |steps| ==>
         Enabled(p, states[i], steps[i]) && states[i + 1] == Apply(p, states[i], steps[i])
  }

  lemma {:induction false} RunInv(p: Params, states: seq<State>, steps: seq<Step>, k: nat)
    requires IsRun(p, states, steps) && k < |states|
    ensures Inv(p, states[k]) && Measure(p, states[k]) + k <= Measure(p, Init())
    decreases k
  {
    hide Inv, Measure, Apply, Enabled;
    if k == 0 {
      InitInv(p);
    } else {
      RunInv(p, states, steps, k - 1);
      var s, e := states[k - 1], steps[k - 1];
      assert Enabled(p, s, e) && states[k] == Apply(p, s, e);
      StepInv(p, s, e);
      StepDecreases(p, s, e);
    }
  }

  /** Every run is finite, with at most 3n + 16 steps, and a run that cannot go on has
      returned to the caller and left no goroutine behind. */
  lemma RunsTerminate(p: Params, states: seq<State>, steps: seq<Step>)
    requires IsRun(p, states, steps)
    ensures |steps| <= 3 * Total(p) + 16
    ensures (forall e :: Enabled(p, states[|steps|], e) ==> e == CallerCancels) ==> AllGone(states[|steps|])
  {
    var last := states[|steps|];
    RunInv(p, states, steps, |steps|);
    assert Measure(p, Init()) == 3 * Total(p) + 16;
    if !AllGone(last) {
      NoDeadlock(p, last);
    }
  }

  // ---------------------------------------------------------------- outcomes

  predicate IsPrefix(s: seq<nat>, t: seq<nat>) {
    |s| <= |t| && t[..|s|] == s
  }

  lemma {:induction false} ItemsPrefix(s: seq<nat>, rest: seq<nat>, n: nat, m: nat)
    requires s + rest == Items(0, n) && n <= m
    ensures IsPrefix(s, Items(0, m))
  {
    var all := Items(0, m);
    assert forall i :: 0 <= i < |s| ==> s[i] == (s + rest)[i] == i == all[i];
  }

  /** In every reachable state what onBatch accepted, and the batch it rejected if any, is a
      prefix of item-0 .. item-(n-1). */
  lemma DeliveredIsPrefix(p: Params, s: State)
    requires Inv(p, s)
    ensures IsPrefix(Concat(s.calls), Items(0, Total(p)))
    ensures s.failed ==> IsPrefix(Concat(s.calls) + s.rejected, Items(0, Total(p)))
  {
    hide Concat, Items, DryUnlessFailed, BatchShape, StopsForAReason, IsPrefix;
    var rest := s.drained + s.channel;
    assert Concat(s.calls) + s.batch + rest == Concat(s.calls) + s.batch + s.drained + s.channel;
    ItemsPrefix(Concat(s.calls) + s.batch, rest, s.sent, Total(p));
    assert Concat(s.calls) + (s.batch + rest) == Concat(s.calls) + s.batch + rest;
    ItemsPrefix(Concat(s.calls), s.batch + rest, s.sent, Total(p));
  }

  /** Until an error everything is accounted for, in order, with the unsent items last. */
  lemma NothingLostUntilError(p: Params, s: State)
    requires Inv(p, s) && !s.failed
    ensures Concat(s.calls) + s.batch + s.channel + Items(s.sent, Total(p)) == Items(0, Total(p))
  {
    assert s.drained == [] by { hide Conserved, BatchShape; }
    hide Coordinated, DryUnlessFailed, BatchShape, StopsForAReason, Concat, Items;
    NothingDrained(Concat(s.calls) + s.batch, s.channel);
    ItemsJoin(s.sent, Total(p));
  }

  lemma NothingDrained(front: seq<nat>, channel: seq<nat>)
    ensures front + [] + channel == front + channel
  {
  }

  lemma ItemsJoin(n: nat, m: nat)
    requires n <= m
    ensures Items(0, n) + Items(n, m) == Items(0, m)
  {
    hide Items;
  }

  /** When the call returns nil: what was sent was delivered, in full batches but for the
      last. That is everything exactly if the producer was not stopped, and it can be
      stopped only by the caller's cancellation. */
  lemma NilOutcome(p: Params, s: State)
    requires Inv(p, s) && s.consumer == Returned && !s.failed
    ensures Concat(s.calls) == Items(0, s.sent)
    ensures Concat(s.calls) == Items(0, Total(p)) <==> s.sent == Total(p)
    ensures !s.callerCancelled ==> s.sent == Total(p)
    ensures forall i :: 0 <= i < |s.calls| - 1 ==> |s.calls[i]| == FullBatch(p)
    ensures |s.calls| > 0 ==> 0 < |s.calls[|s.calls| - 1]| <= FullBatch(p)
  {
    assert s.drained == [] && s.channel == [] && s.batch == [] by { hide Conserved; }
    NothingLeft(Concat(s.calls));
    AllItems(s.sent, Total(p));
    hide Concat, Items;
  }

  lemma NothingLeft(delivered: seq<nat>)
    ensures delivered + [] + [] + [] == delivered
  {
  }

  lemma AllItems(n: nat, m: nat)
    ensures Items(0, n) == Items(0, m) <==> n == m
  {
    assert |Items(0, n)| == n && |Items(0, m)| == m;
  }

  /** When the call returns an error: the batches accepted before it were all full. */
  lemma ErrorOutcome(p: Params, s: State)
    requires Inv(p, s) && s.failed
    ensures forall i :: 0 <= i < |s.calls| ==> |s.calls[i]| == FullBatch(p)
    ensures 0 < |s.rejected| <= FullBatch(p)
    ensures s.consumer != InBatch && s.consumer != InFinalBatch
  {
    hide Conserved;
  }

  /** After a failing call onBatch is never called again. */
  lemma FailureIsLast(p: Params, s: State, e: Step)
    requires Inv(p, s) && Enabled(p, s, e) && s.failed
    ensures Apply(p, s, e).failed && Apply(p, s, e).calls == s.calls && Apply(p, s, e).rejected == s.rejected
    ensures !e.BatchReturns? && !e.FinalReturns?
  {
    hide Conserved, BatchShape;
  }

  lemma CancelledStays(p: Params, s: State, e: Step)
    requires Enabled(p, s, e) && s.cancelled
    ensures Apply(p, s, e).cancelled
  {
  }

  lemma FailureCancelsHere(p: Params, s: State)
    requires Enabled(p, s, BatchReturns(false))
    ensures Apply(p, s, BatchReturns(false)).cancelled
  {
  }

  lemma MayStop(p: Params, s: State)
    requires s.cancelled
    ensures s.producer == Sending && s.sent < p.totalItems ==> Enabled(p, s, ProducerSeesCancel)
  {
  }

  lemma RunStep(p: Params, states: seq<State>, steps: seq<Step>, i: nat)
    requires IsRun(p, states, steps) && i < |steps|
    ensures |states| == |steps| + 1
    ensures Enabled(p, states[i], steps[i]) && states[i + 1] == Apply(p, states[i], steps[i])
  {
    hide Enabled, Apply;
  }

  /** A failing onBatch in the loop cancels the producer at once and for good: from then on it may
      stop instead of sending. */
  lemma {:induction false} FailureCancels(p: Params, states: seq<State>, steps: seq<Step>, k: nat, n: nat)
    requires |states| == |steps| + 1 && k < n < |states| && steps[k] == BatchReturns(false)
    requires IsRun(p, states, steps)
    ensures states[n].cancelled
    ensures states[n].producer == Sending && states[n].sent < p.totalItems ==>
              Enabled(p, states[n], ProducerSeesCancel)
    decreases n
  {
    hide *;
    RunStep(p, states, steps, n - 1);
    if n == k + 1 {
      FailureCancelsHere(p, states[k]);
    } else {
      FailureCancels(p, states, steps, k, n - 1);
      CancelledStays(p, states[n - 1], steps[n - 1]);
    }
    MayStop(p, states[n]);
  }

  lemma ExtendRun(p: Params, states: seq<State>, steps: seq<Step>, e: Step, t: State)
    requires IsRun(p, states, steps) && Enabled(p, states[|steps|], e) && t == Apply(p, states[|steps|], e)
    ensures IsRun(p, states + [t], steps + [e]) && (states + [t])[|steps + [e]|] == t
  {
    hide Enabled, Apply;
  }

  /** A nil return is no promise of delivery: a search for any positive number of items may
      return nil and deliver nothing, if the caller cancels. */
  lemma NilAfterCancel(p: Params) returns (states: seq<State>, steps: seq<Step>)
    requires p.totalItems > 0
    ensures IsRun(p, states, steps)
    ensures AllGone(states[|steps|]) && !states[|steps|].failed && states[|steps|].calls == []
  {
    hide IsRun;
    var script := [CallerCancels, ProducerSeesCancel, ProducerCloses, ProducerLeaves, ConsumerSeesClose, SkipFinal,
                   StartDrain, DrainExits, Join];
    states, steps := [Init()], [];
    StartRun(p);
    var s := Init();
    for i := 0 to |script|
      invariant IsRun(p, states, steps) && |states| == |steps| + 1 && |steps| == i && states[i] == s
      invariant s == CancelledAfter(i)
    {
      ScriptStep(p, i, script[i]);
      var t := Apply(p, s, script[i]);
      ExtendRun(p, states, steps, script[i], t);
      states, steps, s := states + [t], steps + [script[i]], t;
    }
  }

  lemma StartRun(p: Params)
    ensures IsRun(p, [Init()], [])
  {
  }

  /** The states of that run. */
  function CancelledAfter(i: nat): State {
    Init().(callerCancelled := i >= 1, cancelled := i >= 1,
            producer := if i >= 4 then Exited else if i == 3 then Leaving else if i == 2 then Closing else Sending,
            closed := i >= 3,
            consumer := if i >= 9 then Returned else if i >= 7 then Joining else if i == 6 then Draining
                        else if i == 5 then LoopDone else Ranging,
            drain := if i >= 8 then DrainExited else if i == 7 then DrainRunning else NotStarted)
  }

  lemma ScriptStep(p: Params, i: nat, e: Step)
    requires p.totalItems > 0 && i < 9
    requires e == [CallerCancels, ProducerSeesCancel, ProducerCloses, ProducerLeaves, ConsumerSeesClose, SkipFinal,
                   StartDrain, DrainExits, Join][i]
    ensures Enabled(p, CancelledAfter(i), e) && Apply(p, CancelledAfter(i), e) == CancelledAfter(i + 1)
  {
  }

  /** A finished run of these steps returned nil, so it should have delivered every item. */
  ghost predicate NilReturn(p: Params, states: seq<State>, steps: seq<Step>) {
    IsRun(p, states, steps) && states[|steps|].consumer == Returned && !states[|steps|].failed
  }

  /** Every nil return delivers all items exactly if there are none to deliver. */
  lemma NilDeliversAllExactly(p: Params)
    ensures (forall states: seq<State>, steps: seq<Step> :: NilReturn(p, states, steps) ==>
               Concat(states[|steps|].calls) == Items(0, Total(p))) <==> p.totalItems <= 0
  {
    hide Inv, Measure, Concat, Apply, Enabled;
    if p.totalItems > 0 {
      var states, steps := NilAfterCancel(p);
      assert NilReturn(p, states, steps);
      ConcatNothing();
      assert |Items(0, Total(p))| > 0;
    } else {
      forall states: seq<State>, steps: seq<Step> | NilReturn(p, states, steps)
        ensures Concat(states[|steps|].calls) == Items(0, Total(p))
      {
        RunDelivers(p, states, steps);
      }
    }
  }

  lemma ConcatNothing()
    ensures Concat([]) == []
  {
  }

  /** Whatever the number of items: if the caller does not cancel, a nil return delivers all. */
  lemma NilWithoutCancel(p: Params, states: seq<State>, steps: seq<Step>)
    requires NilReturn(p, states, steps) && CallerCancels !in steps
    ensures Concat(states[|steps|].calls) == Items(0, Total(p))
  {
    hide Inv, Measure, Concat;
    NeverCancelled(p, states, steps, |steps|);
    RunDelivers(p, states, steps);
  }

  lemma RunDelivers(p: Params, states: seq<State>, steps: seq<Step>)
    requires NilReturn(p, states, steps)
    ensures var s := states[|steps|]; s.sent <= Total(p) && Concat(s.calls) == Items(0, s.sent)
    ensures !states[|steps|].callerCancelled ==> states[|steps|].sent == Total(p)
  {
    RunInv(p, states, steps, |steps|);
    NilOutcome(p, states[|steps|]);
  }

  lemma {:induction false} NeverCancelled(p: Params, states: seq<State>, steps: seq<Step>, k: nat)
    requires IsRun(p, states, steps) && CallerCancels !in steps && k < |states|
    ensures !states[k].callerCancelled
    decreases k
  {
    if k == 0 {
    } else {
      NeverCancelled(p, states, steps, k - 1);
      assert steps[k - 1] in steps;
      assert states[k] == Apply(p, states[k - 1], steps[k - 1]);
    }
  }

  /** The call as a whole: goroutine steps are taken in any order until it returns. */
  method RunSearchWithJoin(p: Params) returns (failed: bool, accepted: seq<seq<nat>>, rejected: seq<nat>,
                           cancelled: bool)
    ensures IsPrefix(Concat(accepted) + (if failed then rejected else []), Items(0, Total(p)))
    ensures failed ==> 0 < |rejected| <= FullBatch(p)
    ensures !failed && !cancelled ==> Concat(accepted) == Items(0, Total(p))
    ensures forall i :: 0 <= i < |accepted| - (if failed then 0 else 1) ==> |accepted[i]| == FullBatch(p)
    ensures !failed && |accepted| > 0 ==> 0 < |accepted[|accepted| - 1]| <= FullBatch(p)
  {
    InitInv(p);
    hide Inv, Enabled, Apply, Measure, SomeStep;
    var s := Init();
    while s.consumer != Returned
      invariant Inv(p, s) && s.sent <= Total(p)
      decreases Measure(p, s)
    {
      NoDeadlock(p, s);
      assert Enabled(p, s, SomeStep(p, s));
      var e: Step :| Enabled(p, s, e);
      StepInv(p, s, e);
      StepDecreases(p, s, e);
      s := Apply(p, s, e);
    }
    DeliveredIsPrefix(p, s);
    if s.failed {
      ErrorOutcome(p, s);
    } else {
      NilOutcome(p, s);
      assert Concat(s.calls) + [] == Concat(s.calls);
    }
    return s.failed, s.calls, s.rejected, s.callerCancelled;
  }
}

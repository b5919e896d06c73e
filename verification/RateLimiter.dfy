/** The per-client token-bucket rate limiter and the clean-up that deletes idle buckets.
    Token counts are real numbers, times are seconds on a clock that never runs backwards. */
module RateLimiter {

  datatype Ip = Ip(text: string)

  /** The state of one bucket. */
  datatype Level = Level(tokens: real, lastRefill: real)

  type Levels = map<Ip, Level>

  const CLEANUP_INTERVAL: real := 300.0

  /** Tokens gained in dt seconds at `rate` tokens a minute. */
  function Gain(rate: nat, dt: real): real {
    rate as real * dt / 60.0
  }

  lemma GainAdds(rate: nat, d: real, e: real)
    ensures Gain(rate, d) + Gain(rate, e) == Gain(rate, d + e)
  {
  }

  lemma GainGrows(rate: nat, d: real, e: real)
    requires d <= e
    ensures Gain(rate, d) <= Gain(rate, e)
  {
    var n := rate as real;
    assert n * d <= n * e;
  }

  lemma GainOfNothing(rate: nat)
    ensures Gain(rate, 0.0) == 0.0
  {
  }

  function Refilled(rate: nat, b: Level, now: real): Level {
    var tokens := b.tokens + Gain(rate, now - b.lastRefill);
    Level(if tokens > rate as real then rate as real else tokens, now)
  }

  /** The bucket that a request at `now` draws from. */
  function Drawn(rate: nat, levels: Levels, ip: Ip, now: real): Level {
    if ip in levels then Refilled(rate, levels[ip], now) else Level(rate as real, now)
  }

  function Admits(rate: nat, levels: Levels, ip: Ip, now: real): bool {
    Drawn(rate, levels, ip, now).tokens >= 1.0
  }

  /** A bucket created a moment before the request is as good as one created at its time. */
  lemma RefilledIsDrawn(rate: nat, levels: Levels, ip: Ip, created: real, now: real)
    requires created <= now
    ensures Refilled(rate, if ip in levels then levels[ip] else Level(rate as real, created), now)
         == Drawn(rate, levels, ip, now)
  {
    GainOfNothing(rate);
    GainGrows(rate, 0.0, now - created);
    hide Gain;
  }

  /** A bucket after a request: one token less if there was one. */
  function Taken(b: Level): Level {
    if b.tokens >= 1.0 then b.(tokens := b.tokens - 1.0) else b
  }

  function AfterRequest(rate: nat, levels: Levels, ip: Ip, now: real): Levels {
    levels[ip := Taken(Drawn(rate, levels, ip, now))]
  }

  function AfterCleanup(levels: Levels, now: real): Levels {
    map ip | ip in levels && now - levels[ip].lastRefill <= CLEANUP_INTERVAL :: levels[ip]
  }

  // -------------------------------------------------------------------- runs

  datatype Event = Request(ip: Ip, at: real) | CleanUp(at: real)

  /** Events in the order they happen, none before `now`. */
  predicate Ordered(events: seq<Event>, now: real) {
    events == [] || (now <= events[0].at && Ordered(events[1..], events[0].at))
  }

  /** The answers to the requests of a run. */
  function Answers(rate: nat, levels: Levels, events: seq<Event>): seq<bool>
    decreases |events|
  {
    if events == [] then []
    else match events[0]
      case Request(ip, at) =>
        [Admits(rate, levels, ip, at)] + Answers(rate, AfterRequest(rate, levels, ip, at), events[1..])
      case CleanUp(at) => Answers(rate, AfterCleanup(levels, at), events[1..])
  }

  /** The same run on a limiter that never deletes a bucket. */
  function AnswersWithoutCleanup(rate: nat, levels: Levels, events: seq<Event>): seq<bool>
    decreases |events|
  {
    if events == [] then []
    else match events[0]
      case Request(ip, at) =>
        [Admits(rate, levels, ip, at)] + AnswersWithoutCleanup(rate, AfterRequest(rate, levels, ip, at), events[1..])
      case CleanUp(_) => AnswersWithoutCleanup(rate, levels, events[1..])
  }

  /** Token counts never leave the range from 0 to rate. */
  predicate InRange(rate: nat, levels: Levels, now: real) {
    forall ip :: ip in levels ==> 0.0 <= levels[ip].tokens <= rate as real && levels[ip].lastRefill <= now
  }

  lemma DrawnInRange(rate: nat, levels: Levels, ip: Ip, before: real, now: real)
    requires InRange(rate, levels, before) && before <= now
    ensures 0.0 <= Drawn(rate, levels, ip, now).tokens <= rate as real
  {
    if ip in levels {
      GainOfNothing(rate);
      GainGrows(rate, 0.0, now - levels[ip].lastRefill);
    }
    hide Gain;
  }

  lemma RequestKeepsRange(rate: nat, levels: Levels, ip: Ip, before: real, now: real)
    requires InRange(rate, levels, before) && before <= now
    ensures InRange(rate, AfterRequest(rate, levels, ip, now), now)
  {
    DrawnInRange(rate, levels, ip, before, now);
    hide Gain, Refilled;
  }

  // ------------------------------------------------- clean-up is unobservable

  /** `some` is what clean-up has left of `all`: what it took has been idle too long. */
  predicate LeftOf(some: Levels, all: Levels, now: real) {
    && (forall ip :: ip in some ==> ip in all && some[ip] == all[ip])
    && (forall ip :: ip in all && ip !in some ==> now - all[ip].lastRefill > CLEANUP_INTERVAL)
  }

  /** A bucket idle for more than five minutes is full at the next request. */
  lemma IdleIsFull(rate: nat, b: Level, now: real)
    requires b.tokens >= 0.0 && now - b.lastRefill > CLEANUP_INTERVAL
    ensures Refilled(rate, b, now) == Level(rate as real, now)
  {
    GainGrows(rate, 300.0, now - b.lastRefill);
    assert Gain(rate, 300.0) == rate as real * 5.0;
    hide Gain;
  }

  lemma SameDraw(rate: nat, some: Levels, all: Levels, ip: Ip, before: real, now: real)
    requires before <= now && InRange(rate, all, before) && LeftOf(some, all, before)
    ensures Drawn(rate, some, ip, now) == Drawn(rate, all, ip, now)
    ensures LeftOf(AfterRequest(rate, some, ip, now), AfterRequest(rate, all, ip, now), now)
  {
    if ip in all && ip !in some {
      IdleIsFull(rate, all[ip], now);
    }
    hide Gain, Refilled;
  }

  /** With clean-ups at any times whatever, every request is answered as if there were none. */
  lemma {:induction false} CleanupUnobservable(rate: nat, some: Levels, all: Levels, events: seq<Event>, now: real)
    requires Ordered(events, now) && InRange(rate, all, now) && LeftOf(some, all, now)
    ensures Answers(rate, some, events) == AnswersWithoutCleanup(rate, all, events)
    decreases |events|
  {
    hide LeftOf, InRange, Admits, AfterRequest, AfterCleanup;
    if events == [] {
    } else {
      var at := events[0].at;
      match events[0]
      case Request(ip, _) =>
        SameDraw(rate, some, all, ip, now, at);
        RequestKeepsRange(rate, all, ip, now, at);
        SameAdmission(rate, some, all, ip, at);
        CleanupUnobservable(rate, AfterRequest(rate, some, ip, at), AfterRequest(rate, all, ip, at), events[1..], at);
      case CleanUp(_) =>
        CleanupLeaves(rate, some, all, now, at);
        CleanupUnobservable(rate, AfterCleanup(some, at), all, events[1..], at);
    }
  }

  lemma SameAdmission(rate: nat, some: Levels, all: Levels, ip: Ip, now: real)
    requires Drawn(rate, some, ip, now) == Drawn(rate, all, ip, now)
    ensures Admits(rate, some, ip, now) == Admits(rate, all, ip, now)
  {
  }

  lemma CleanupLeaves(rate: nat, some: Levels, all: Levels, before: real, now: real)
    requires before <= now && InRange(rate, all, before) && LeftOf(some, all, before)
    ensures InRange(rate, all, now) && LeftOf(AfterCleanup(some, now), all, now)
  {
  }

  // -------------------------------------------------------------- window bound

  predicate InWindow(e: Event, ip: Ip, lo: real, hi: real) {
    e.Request? && e.ip == ip && lo <= e.at <= hi
  }

  /** How many requests of `ip` in the window from lo to hi are admitted. */
  function Admitted(rate: nat, levels: Levels, events: seq<Event>, ip: Ip, lo: real, hi: real): nat
    decreases |events|
  {
    if events == [] then 0
    else match events[0]
      case Request(from, at) =>
        (if InWindow(events[0], ip, lo, hi) && Admits(rate, levels, from, at) then 1 else 0)
        + Admitted(rate, AfterRequest(rate, levels, from, at), events[1..], ip, lo, hi)
      case CleanUp(at) => Admitted(rate, AfterCleanup(levels, at), events[1..], ip, lo, hi)
  }

  function AdmittedWithoutCleanup(rate: nat, levels: Levels, events: seq<Event>, ip: Ip, lo: real, hi: real): nat
    decreases |events|
  {
    if events == [] then 0
    else match events[0]
      case Request(from, at) =>
        (if InWindow(events[0], ip, lo, hi) && Admits(rate, levels, from, at) then 1 else 0)
        + AdmittedWithoutCleanup(rate, AfterRequest(rate, levels, from, at), events[1..], ip, lo, hi)
      case CleanUp(_) => AdmittedWithoutCleanup(rate, levels, events[1..], ip, lo, hi)
  }

  lemma {:induction false} SameAdmitted(rate: nat, some: Levels, all: Levels, events: seq<Event>, now: real,
                                        ip: Ip, lo: real, hi: real)
    requires Ordered(events, now) && InRange(rate, all, now) && LeftOf(some, all, now)
    ensures Admitted(rate, some, events, ip, lo, hi) == AdmittedWithoutCleanup(rate, all, events, ip, lo, hi)
    decreases |events|
  {
    hide LeftOf, InRange, Admits, AfterRequest, AfterCleanup, InWindow;
    if events == [] {
    } else {
      var at := events[0].at;
      match events[0]
      case Request(from, _) =>
        SameDraw(rate, some, all, from, now, at);
        RequestKeepsRange(rate, all, from, now, at);
        SameAdmission(rate, some, all, from, at);
        SameAdmitted(rate, AfterRequest(rate, some, from, at), AfterRequest(rate, all, from, at), events[1..], at,
            ip, lo, hi);
      case CleanUp(_) =>
        CleanupLeaves(rate, some, all, now, at);
        SameAdmitted(rate, AfterCleanup(some, at), all, events[1..], at, ip, lo, hi);
    }
  }

  lemma {:induction false} NothingAfterWindow(rate: nat, levels: Levels, events: seq<Event>, now: real, ip: Ip,
                                              lo: real, hi: real)
    requires Ordered(events, now) && hi < now
    ensures AdmittedWithoutCleanup(rate, levels, events, ip, lo, hi) == 0
    decreases |events|
  {
    hide Admits, AfterRequest;
    if events == [] {
    } else {
      match events[0]
      case Request(from, at) => NothingAfterWindow(rate, AfterRequest(rate, levels, from, at), events[1..], at, ip,
          lo, hi);
      case CleanUp(at) => NothingAfterWindow(rate, levels, events[1..], at, ip, lo, hi);
    }
  }

  /** What one admission costs: tokens now plus what the rest of the window will bring. */
  lemma DrawStep(rate: nat, levels: Levels, ip: Ip, at: real, hi: real)
    requires ip in levels && levels[ip].lastRefill <= at <= hi
    ensures ip in AfterRequest(rate, levels, ip, at) && AfterRequest(rate, levels, ip, at)[ip].lastRefill == at
    ensures (if Admits(rate, levels, ip, at) then 1.0 else 0.0) + AfterRequest(rate, levels, ip, at)[ip].tokens
        + Gain(rate, hi - at)
            <= levels[ip].tokens + Gain(rate, hi - levels[ip].lastRefill)
  {
    GainAdds(rate, at - levels[ip].lastRefill, hi - at);
    assert (at - levels[ip].lastRefill) + (hi - at) == hi - levels[ip].lastRefill;
    hide Gain;
  }

  lemma OtherUntouched(rate: nat, levels: Levels, from: Ip, at: real, ip: Ip)
    requires from != ip && ip in levels
    ensures ip in AfterRequest(rate, levels, from, at) && AfterRequest(rate, levels, from, at)[ip] == levels[ip]
  {
  }

  /** From a known level on, no more is admitted than there is and will be. */
  lemma {:induction false} BoundFromLevel(rate: nat, levels: Levels, events: seq<Event>, now: real, ip: Ip, lo: real,
                                          hi: real)
    requires Ordered(events, now) && ip in levels && levels[ip].lastRefill <= now <= hi
    requires InRange(rate, levels, now)
    ensures AdmittedWithoutCleanup(rate, levels, events, ip, lo, hi) as real
            <= levels[ip].tokens + Gain(rate, hi - levels[ip].lastRefill)
    decreases |events|
  {
    LevelWorth(rate, levels, ip, now, hi);
    hide Gain, Admits, AfterRequest, InRange;
    if events == [] {
    } else {
      var at, tail := events[0].at, events[1..];
      if at > hi {
        NothingAfterWindow(rate, levels, events, at, ip, lo, hi);
      } else {
        match events[0]
        case Request(from, _) =>
          RequestKeepsRange(rate, levels, from, now, at);
          if from == ip {
            DrawStep(rate, levels, ip, at, hi);
          } else {
            OtherUntouched(rate, levels, from, at, ip);
          }
          BoundFromLevel(rate, AfterRequest(rate, levels, from, at), tail, at, ip, lo, hi);
        case CleanUp(_) =>
          CleanupLeaves(rate, levels, levels, now, at);
          BoundFromLevel(rate, levels, tail, at, ip, lo, hi);
      }
    }
  }

  lemma LevelWorth(rate: nat, levels: Levels, ip: Ip, now: real, hi: real)
    requires ip in levels && levels[ip].lastRefill <= now <= hi && InRange(rate, levels, now)
    ensures 0.0 <= levels[ip].tokens + Gain(rate, hi - levels[ip].lastRefill)
  {
    GainOfNothing(rate);
    GainGrows(rate, 0.0, hi - levels[ip].lastRefill);
  }

  lemma {:induction false} BoundWithoutCleanup(rate: nat, levels: Levels, events: seq<Event>, now: real, ip: Ip,
                                               lo: real, hi: real)
    requires Ordered(events, now) && InRange(rate, levels, now) && lo <= hi
    ensures AdmittedWithoutCleanup(rate, levels, events, ip, lo, hi) as real <= rate as real + Gain(rate, hi - lo)
    decreases |events|
  {
    GainOfNothing(rate);
    GainGrows(rate, 0.0, hi - lo);
    hide Gain, Admits, AfterRequest, InRange;
    if events == [] {
    } else {
      var at, tail := events[0].at, events[1..];
      match events[0]
      case Request(from, _) =>
        RequestKeepsRange(rate, levels, from, now, at);
        if from == ip && lo <= at <= hi {
          FirstInWindow(rate, levels, ip, now, at, lo, hi);
          BoundFromLevel(rate, AfterRequest(rate, levels, ip, at), tail, at, ip, lo, hi);
        } else {
          BoundWithoutCleanup(rate, AfterRequest(rate, levels, from, at), tail, at, ip, lo, hi);
        }
      case CleanUp(_) =>
        CleanupLeavesAll(rate, levels, now, at);
        BoundWithoutCleanup(rate, levels, tail, at, ip, lo, hi);
    }
  }

  lemma CleanupLeavesAll(rate: nat, levels: Levels, before: real, now: real)
    requires before <= now && InRange(rate, levels, before)
    ensures InRange(rate, levels, now)
  {
  }

  lemma FirstInWindow(rate: nat, levels: Levels, ip: Ip, before: real, at: real, lo: real, hi: real)
    requires InRange(rate, levels, before) && before <= at && lo <= at <= hi
    ensures ip in AfterRequest(rate, levels, ip, at) && AfterRequest(rate, levels, ip, at)[ip].lastRefill == at
    ensures (if Admits(rate, levels, ip, at) then 1.0 else 0.0) + AfterRequest(rate, levels, ip, at)[ip].tokens
        + Gain(rate, hi - at)
            <= rate as real + Gain(rate, hi - lo)
  {
    DrawnInRange(rate, levels, ip, before, at);
    GainGrows(rate, hi - at, hi - lo);
    hide Gain, Refilled;
  }

  /** In any window, over any run with any clean-ups, one client is admitted at most `rate`
      times plus `rate` times the minutes the window lasts. */
  lemma WindowBound(rate: nat, events: seq<Event>, start: real, ip: Ip, lo: real, hi: real)
    requires Ordered(events, start) && lo <= hi
    ensures Admitted(rate, map[], events, ip, lo, hi) as real <= rate as real + rate as real * (hi - lo) / 60.0
  {
    SameAdmitted(rate, map[], map[], events, start, ip, lo, hi);
    BoundWithoutCleanup(rate, map[], events, start, ip, lo, hi);
  }

  // ---------------------------------------------- and nobody is refused without need

  /** The buckets after a run. */
  function LevelsAfter(rate: nat, levels: Levels, events: seq<Event>): Levels
    decreases |events|
  {
    if events == [] then levels
    else match events[0]
      case Request(ip, at) => LevelsAfter(rate, AfterRequest(rate, levels, ip, at), events[1..])
      case CleanUp(at) => LevelsAfter(rate, AfterCleanup(levels, at), events[1..])
  }

  function LevelsWithoutCleanup(rate: nat, levels: Levels, events: seq<Event>): Levels
    decreases |events|
  {
    if events == [] then levels
    else match events[0]
      case Request(ip, at) => LevelsWithoutCleanup(rate, AfterRequest(rate, levels, ip, at), events[1..])
      case CleanUp(_) => LevelsWithoutCleanup(rate, levels, events[1..])
  }

  /** A run from `now` on that is over by `end`. */
  predicate Until(events: seq<Event>, now: real, end: real) {
    if events == [] then now <= end else now <= events[0].at && Until(events[1..], events[0].at, end)
  }

  lemma {:induction false} UntilIsOrdered(events: seq<Event>, now: real, end: real)
    requires Until(events, now, end)
    ensures Ordered(events, now) && now <= end
    decreases |events|
  {
    if events == [] {
    } else {
      UntilIsOrdered(events[1..], events[0].at, end);
    }
  }

  lemma {:induction false} SameFinalDraw(rate: nat, some: Levels, all: Levels, events: seq<Event>, now: real, ip: Ip,
                                         t: real)
    requires Until(events, now, t) && InRange(rate, all, now) && LeftOf(some, all, now)
    ensures Drawn(rate, LevelsAfter(rate, some, events), ip, t)
         == Drawn(rate, LevelsWithoutCleanup(rate, all, events), ip, t)
    decreases |events|
  {
    hide LeftOf, InRange, Drawn, AfterRequest, AfterCleanup;
    if events == [] {
      SameDraw(rate, some, all, ip, now, t);
    } else {
      var at, tail := events[0].at, events[1..];
      match events[0]
      case Request(from, _) =>
        SameDraw(rate, some, all, from, now, at);
        RequestKeepsRange(rate, all, from, now, at);
        SameFinalDraw(rate, AfterRequest(rate, some, from, at), AfterRequest(rate, all, from, at), tail, at, ip, t);
      case CleanUp(_) =>
        CleanupLeaves(rate, some, all, now, at);
        SameFinalDraw(rate, AfterCleanup(some, at), all, tail, at, ip, t);
    }
  }

  /** Tokens that a request at t would find. */
  function TokensAt(rate: nat, levels: Levels, events: seq<Event>, ip: Ip, t: real): real {
    Drawn(rate, LevelsWithoutCleanup(rate, levels, events), ip, t).tokens
  }

  /** Admissions of the run from lo on. */
  function Since(rate: nat, levels: Levels, events: seq<Event>, ip: Ip, lo: real, t: real): real {
    AdmittedWithoutCleanup(rate, levels, events, ip, lo, t) as real
  }

  /** One more for an admission by the first event. */
  function First(rate: nat, levels: Levels, e: Event, ip: Ip, lo: real, t: real): real {
    if InWindow(e, ip, lo, t) && Admits(rate, levels, e.ip, e.at) then 1.0 else 0.0
  }

  function Stepped(rate: nat, levels: Levels, e: Event): Levels {
    match e
    case Request(ip, at) => AfterRequest(rate, levels, ip, at)
    case CleanUp(_) => levels
  }

  lemma RunStep(rate: nat, levels: Levels, e: Event, tail: seq<Event>, ip: Ip, lo: real, t: real)
    ensures TokensAt(rate, levels, [e] + tail, ip, t) == TokensAt(rate, Stepped(rate, levels, e), tail, ip, t)
    ensures Since(rate, levels, [e] + tail, ip, lo, t)
         == First(rate, levels, e, ip, lo, t) + Since(rate, Stepped(rate, levels, e), tail, ip, lo, t)
  {
    assert ([e] + tail)[0] == e && ([e] + tail)[1..] == tail;
    hide Drawn, Admits, AfterRequest, InWindow;
  }

  lemma NoEvents(rate: nat, levels: Levels, ip: Ip, lo: real, t: real)
    ensures TokensAt(rate, levels, [], ip, t) == Drawn(rate, levels, ip, t).tokens
    ensures Since(rate, levels, [], ip, lo, t) == 0.0
  {
  }

  lemma StepInRange(rate: nat, levels: Levels, e: Event, now: real)
    requires InRange(rate, levels, now) && now <= e.at
    ensures InRange(rate, Stepped(rate, levels, e), e.at)
  {
    match e
    case Request(ip, at) => RequestKeepsRange(rate, levels, ip, now, at);
    case CleanUp(at) => CleanupLeavesAll(rate, levels, now, at);
  }

  /** It does not matter how long before the run a window begins. */
  lemma {:induction false} EarlierWindow(rate: nat, levels: Levels, events: seq<Event>, now: real, ip: Ip, lo: real,
                                         t: real)
    requires Ordered(events, now) && lo <= now
    ensures Since(rate, levels, events, ip, lo, t) == Since(rate, levels, events, ip, now, t)
    decreases |events|
  {
    if events == [] {
    } else {
      var e, tail := events[0], events[1..];
      assert events == [e] + tail;
      RunStep(rate, levels, e, tail, ip, lo, t);
      RunStep(rate, levels, e, tail, ip, now, t);
      EarlierWindow(rate, Stepped(rate, levels, e), tail, e.at, ip, lo, t);
      EarlierWindow(rate, Stepped(rate, levels, e), tail, e.at, ip, now, t);
      hide Since, Stepped, Admits;
    }
  }

  /** A step that is no request of the client's leaves its bucket alone. */
  lemma OthersStep(rate: nat, levels: Levels, e: Event, ip: Ip, lo: real, t: real)
    requires !(e.Request? && e.ip == ip)
    ensures First(rate, levels, e, ip, lo, t) == 0.0
    ensures ip in Stepped(rate, levels, e) <==> ip in levels
    ensures ip in levels ==> Stepped(rate, levels, e)[ip] == levels[ip]
  {
    hide Drawn, Admits;
  }

  /** Tokens and admissions together come to no more than the level at the start and the gain. */
  lemma {:induction false} SpentFromLevel(rate: nat, levels: Levels, events: seq<Event>, now: real, ip: Ip, t: real)
    requires Until(events, now, t) && InRange(rate, levels, now) && ip in levels
    ensures TokensAt(rate, levels, events, ip, t) + Since(rate, levels, events, ip, now, t)
         <= levels[ip].tokens + Gain(rate, t - levels[ip].lastRefill)
    decreases |events|
  {
    if events == [] {
      NoEvents(rate, levels, ip, now, t);
      hide Gain;
    } else {
      var e, tail := events[0], events[1..];
      assert events == [e] + tail;
      UntilIsOrdered(tail, e.at, t);
      RunStep(rate, levels, e, tail, ip, now, t);
      StepInRange(rate, levels, e, now);
      var after := Stepped(rate, levels, e);
      EarlierWindow(rate, after, tail, e.at, ip, now, t);
      if e.Request? && e.ip == ip {
        DrawStep(rate, levels, ip, e.at, t);
      } else {
        OthersStep(rate, levels, e, ip, now, t);
      }
      hide TokensAt, Since, Gain, AfterRequest, Admits, InRange;
      SpentFromLevel(rate, after, tail, e.at, ip, t);
    }
  }

  /** The tokens of the client at t and what it was admitted since lo never exceed the window bound. */
  lemma {:induction false} SpentSince(rate: nat, levels: Levels, events: seq<Event>, now: real, ip: Ip, lo: real,
                                      t: real)
    requires Until(events, now, t) && InRange(rate, levels, now) && lo <= t
    ensures TokensAt(rate, levels, events, ip, t) + Since(rate, levels, events, ip, lo, t)
         <= rate as real + Gain(rate, t - lo)
    decreases |events|
  {
    GainOfNothing(rate);
    GainGrows(rate, 0.0, t - lo);
    if events == [] {
      NoEvents(rate, levels, ip, lo, t);
      DrawnInRange(rate, levels, ip, now, t);
      hide Gain, Drawn;
    } else {
      var e, tail := events[0], events[1..];
      assert events == [e] + tail;
      UntilIsOrdered(tail, e.at, t);
      RunStep(rate, levels, e, tail, ip, lo, t);
      StepInRange(rate, levels, e, now);
      var after := Stepped(rate, levels, e);
      if e.Request? && e.ip == ip && lo <= e.at {
        FirstInWindow(rate, levels, ip, now, e.at, lo, t);
        EarlierWindow(rate, after, tail, e.at, ip, lo, t);
        SpentFromLevel(rate, after, tail, e.at, ip, t);
      } else {
        SpentSince(rate, after, tail, e.at, ip, lo, t);
      }
      hide TokensAt, Since, Gain, AfterRequest, Admits, InRange;
    }
  }

  /** What was there at the start and has come since is spent or still there. */
  predicate StartUsedUp(rate: nat, levels: Levels, events: seq<Event>, ip: Ip, now: real, t: real)
    requires ip in levels
  {
    TokensAt(rate, levels, events, ip, t) + Since(rate, levels, events, ip, now, t)
    == levels[ip].tokens + Gain(rate, t - levels[ip].lastRefill)
  }

  predicate WindowUsedUp(rate: nat, levels: Levels, events: seq<Event>, ip: Ip, lo: real, t: real) {
    TokensAt(rate, levels, events, ip, t) + Since(rate, levels, events, ip, lo, t) == rate as real + Gain(rate, t - lo)
  }

  /** Some window is used up exactly: the one since the bucket was last full, or, if it has not
      been full since the start of the run, all of it. */
  lemma {:induction false} FullSince(rate: nat, levels: Levels, events: seq<Event>, now: real, ip: Ip, t: real)
    returns (lo: real, never: bool)
    requires Until(events, now, t) && InRange(rate, levels, now)
    ensures now <= lo <= t && (never ==> ip in levels)
    ensures never ==> StartUsedUp(rate, levels, events, ip, now, t)
    ensures !never ==> WindowUsedUp(rate, levels, events, ip, lo, t)
    decreases |events|
  {
    GainOfNothing(rate);
    if events == [] {
      lo, never := t, ip in levels && levels[ip].tokens + Gain(rate, t - levels[ip].lastRefill) <= rate as real;
      NoEvents(rate, levels, ip, now, t);
      NoEvents(rate, levels, ip, t, t);
      hide Gain;
    } else {
      var e, tail := events[0], events[1..];
      assert events == [e] + tail;
      UntilIsOrdered(tail, e.at, t);
      StepInRange(rate, levels, e, now);
      lo, never := FullSince(rate, Stepped(rate, levels, e), tail, e.at, ip, t);
      if e.Request? && e.ip == ip {
        lo, never := FullSinceRequest(rate, levels, e, tail, now, t, lo, never);
      } else {
        OthersStep(rate, levels, e, ip, now, t);
        OthersStep(rate, levels, e, ip, lo, t);
        RunStep(rate, levels, e, tail, ip, now, t);
        RunStep(rate, levels, e, tail, ip, lo, t);
        EarlierWindow(rate, Stepped(rate, levels, e), tail, e.at, ip, now, t);
      }
    }
  }

  lemma FullSinceRequest(rate: nat, levels: Levels, e: Event, tail: seq<Event>, now: real, t: real, lo: real,
                         never: bool)
    returns (lo': real, never': bool)
    requires Until([e] + tail, now, t) && InRange(rate, levels, now) && e.Request? && e.at <= lo <= t
    requires e.ip in Stepped(rate, levels, e)
    requires never ==> StartUsedUp(rate, Stepped(rate, levels, e), tail, e.ip, e.at, t)
    requires !never ==> WindowUsedUp(rate, Stepped(rate, levels, e), tail, e.ip, lo, t)
    ensures now <= lo' <= t && (never' ==> e.ip in levels)
    ensures never' ==> StartUsedUp(rate, levels, [e] + tail, e.ip, now, t)
    ensures !never' ==> WindowUsedUp(rate, levels, [e] + tail, e.ip, lo', t)
  {
    var ip, at, after := e.ip, e.at, Stepped(rate, levels, e);
    assert ([e] + tail)[0] == e && ([e] + tail)[1..] == tail;
    UntilIsOrdered(tail, at, t);
    RunStep(rate, levels, e, tail, ip, lo, t);
    if never {
      RunStep(rate, levels, e, tail, ip, now, t);
      RunStep(rate, levels, e, tail, ip, at, t);
      EarlierWindow(rate, after, tail, at, ip, now, t);
      lo' := at;
      never' := ip in levels && levels[ip].tokens + Gain(rate, at - levels[ip].lastRefill) <= rate as real;
      ExactDraw(rate, levels, ip, at, t);
      hide TokensAt, Since, Gain, AfterRequest, Admits;
    } else {
      lo', never' := lo, false;
      if lo == at {
        SpentSince(rate, levels, [e] + tail, now, ip, lo, t);
      }
      hide TokensAt, Since, Gain, AfterRequest;
    }
  }

  /** One draw takes one token exactly if it admits. */
  lemma ExactDraw(rate: nat, levels: Levels, ip: Ip, at: real, t: real)
    ensures AfterRequest(rate, levels, ip, at)[ip].lastRefill == at
    ensures var taken := if Admits(rate, levels, ip, at) then 1.0 else 0.0;
            var spent := taken + AfterRequest(rate, levels, ip, at)[ip].tokens + Gain(rate, t - at);
            if ip in levels && levels[ip].tokens + Gain(rate, at - levels[ip].lastRefill) <= rate as real
            then spent == levels[ip].tokens + Gain(rate, t - levels[ip].lastRefill)
            else spent == rate as real + Gain(rate, t - at)
  {
    if ip in levels {
      GainAdds(rate, at - levels[ip].lastRefill, t - at);
      assert (at - levels[ip].lastRefill) + (t - at) == t - levels[ip].lastRefill;
    }
    hide Gain;
  }

  /** The converse of the window bound, for runs with any clean-ups: a request is refused exactly
      if it would be one too many in some window that ends with it. */
  lemma RefusedExactly(rate: nat, events: seq<Event>, start: real, ip: Ip, t: real)
    requires Until(events, start, t)
    ensures !Admits(rate, LevelsAfter(rate, map[], events), ip, t) <==>
            exists lo :: lo <= t && Exceeded(rate, events, ip, lo, t)
  {
    SameFinalDraw(rate, map[], map[], events, start, ip, t);
    UntilIsOrdered(events, start, t);
    var tokens := TokensAt(rate, map[], events, ip, t);
    assert Admits(rate, LevelsAfter(rate, map[], events), ip, t) <==> tokens >= 1.0;
    var full, never := FullSince(rate, map[], events, start, ip, t);
    SameAdmitted(rate, map[], map[], events, start, ip, full, t);
    hide TokensAt, Gain, Admits;
    forall lo | lo <= t && Exceeded(rate, events, ip, lo, t) ensures tokens < 1.0 {
      SpentSince(rate, map[], events, start, ip, lo, t);
      SameAdmitted(rate, map[], map[], events, start, ip, lo, t);
      GainIs(rate, t - lo);
    }
    GainIs(rate, t - full);
    assert tokens < 1.0 ==> Exceeded(rate, events, ip, full, t);
  }

  /** One more admission than there were from lo on would exceed rate plus the gain since lo. */
  predicate Exceeded(rate: nat, events: seq<Event>, ip: Ip, lo: real, t: real) {
    Admitted(rate, map[], events, ip, lo, t) as real + 1.0 > rate as real + rate as real * (t - lo) / 60.0
  }

  lemma GainIs(rate: nat, dt: real)
    ensures Gain(rate, dt) == rate as real * dt / 60.0
  {
  }

  // ---------------------------------------------------------------- the limiter

  class TokenBucket {
    var tokens: real
    var lastRefill: real

    constructor (tokens: real, lastRefill: real)
      ensures this.tokens == tokens && this.lastRefill == lastRefill
    {
      this.tokens, this.lastRefill := tokens, lastRefill;
    }
  }

  class RateLimiter {
    var buckets: map<Ip, TokenBucket>
    const rate: nat

    /** No bucket serves two clients. */
    ghost predicate Valid()
      reads this
    {
      forall i, j :: i in buckets && j in buckets && buckets[i] == buckets[j] ==> i == j
    }

    ghost function Contents(): Levels
      reads this, buckets.Values
    {
      map ip | ip in buckets :: Level(buckets[ip].tokens, buckets[ip].lastRefill)
    }

    constructor (ratePerMinute: int)
      ensures Valid() && Contents() == map[] && fresh(buckets.Values)
      ensures rate == (if ratePerMinute <= 0 then 100 else ratePerMinute) && rate > 0
    {
      buckets := map[];
      rate := if ratePerMinute <= 0 then 100 else ratePerMinute;
    }

    /** `created` and `now` are the two successive readings of the clock. */
    method Allow(ip: Ip, created: real, now: real) returns (ok: bool)
      requires Valid() && created <= now
      modifies this, buckets.Values
      ensures Valid() && fresh(buckets.Values - old(buckets.Values))
      ensures ok == Admits(rate, old(Contents()), ip, now)
      ensures Contents() == AfterRequest(rate, old(Contents()), ip, now)
    {
      ghost var before := Contents();
      RefilledIsDrawn(rate, before, ip, created, now);
      hide Refilled, Contents, Drawn;
      var bucket := BucketOf(ip, created);
      ghost var found := Contents();
      ok := RefillAndDraw(bucket, ip, now);
      assert found[ip := Taken(Drawn(rate, before, ip, now))] == AfterRequest(rate, before, ip, now);
    }

    method RefillAndDraw(bucket: TokenBucket, ghost ip: Ip, now: real) returns (ok: bool)
      requires Valid() && ip in buckets && buckets[ip] == bucket
      modifies bucket
      ensures Valid() && ip in old(Contents()) && ok == (Refilled(rate, old(Contents())[ip], now).tokens >= 1.0)
      ensures Contents() == old(Contents())[ip := Taken(Refilled(rate, old(Contents())[ip], now))]
    {
      ghost var refilled := Refilled(rate, Contents()[ip], now);
      Refill(bucket, now);
      assert Level(bucket.tokens, bucket.lastRefill) == refilled;
      hide Refilled;
      ok := bucket.tokens >= 1.0;
      if ok {
        bucket.tokens := bucket.tokens - 1.0;
      }
      assert Level(bucket.tokens, bucket.lastRefill) == Taken(refilled);
      OneBucketChanged(ip);
    }

    twostate lemma OneBucketChanged(ip: Ip)
      requires Valid() && buckets == old(buckets) && ip in buckets
      requires forall b :: b in buckets.Values && b != buckets[ip] ==>
                 b.tokens == old(b.tokens) && b.lastRefill == old(b.lastRefill)
      ensures Contents() == old(Contents())[ip := Level(buckets[ip].tokens, buckets[ip].lastRefill)]
    {
    }

    /** The client's bucket, a full one if there is none yet. */
    method BucketOf(ip: Ip, created: real) returns (bucket: TokenBucket)
      requires Valid()
      modifies this`buckets
      ensures Valid() && fresh(buckets.Values - old(buckets.Values))
      ensures ip in buckets && buckets[ip] == bucket
      ensures Contents() == if ip in old(buckets) then old(Contents())
                            else old(Contents())[ip := Level(rate as real, created)]
    {
      if ip !in buckets {
        bucket := new TokenBucket(rate as real, created);
        buckets := buckets[ip := bucket];
      }
      bucket := buckets[ip];
    }

    method Refill(b: TokenBucket, now: real)
      modifies b
      ensures Level(b.tokens, b.lastRefill) == Refilled(rate, old(Level(b.tokens, b.lastRefill)), now)
    {
      var elapsed := now - b.lastRefill;
      var newTokens := rate as real * elapsed / 60.0;
      b.tokens := b.tokens + newTokens;
      if b.tokens > rate as real {
        b.tokens := rate as real;
      }
      b.lastRefill := now;
    }

    method Cleanup(now: real)
      requires Valid()
      modifies this`buckets
      ensures Valid() && buckets.Values <= old(buckets.Values)
      ensures forall ip :: ip in buckets.Keys <==> ip in old(buckets.Keys) && now - old(buckets[ip].lastRefill) <= 300.0
      ensures Contents() == AfterCleanup(old(Contents()), now)
    {
      ghost var start := buckets;
      var todo := buckets.Keys;
      while todo != {}
        invariant todo <= buckets.Keys <= start.Keys
        invariant forall ip :: ip in buckets ==> buckets[ip] == start[ip]
        invariant forall ip :: ip in start && ip !in todo ==>
                    (ip in buckets <==> now - start[ip].lastRefill <= CLEANUP_INTERVAL)
      {
        var ip :| ip in todo;
        todo := todo - {ip};
        if now - buckets[ip].lastRefill > CLEANUP_INTERVAL {
          buckets := buckets - {ip};
        }
      }
    }
  }
}

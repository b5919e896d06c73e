/** Debug start order of a multi-module project: Kahn's topological sort over the
    registered modules, and the depth-first collection of transitive dependencies.

    Map iteration in the resolver has no fixed order, so every loop over a map below
    takes its keys in an arbitrary order; whatever is ensured holds for all orders. */
module ModuleDebugOrder {

  // ---------------------------------------------------------------- the graph

  datatype Name = Name(text: string)

  /** Registered module name to its DependsOn list. */
  type Graph = map<Name, seq<Name>>

  ghost predicate Edge(g: Graph, u: Name, v: Name) {
    u in g && v in g[u]
  }

  /** A non-empty list of names, each depending on the next. */
  ghost predicate Walk(g: Graph, p: seq<Name>) {
    |p| > 0 && forall i :: 0 <= i < |p| - 1 ==> Edge(g, p[i], p[i + 1])
  }

  ghost predicate WalkFromTo(g: Graph, p: seq<Name>, u: Name, v: Name) {
    Walk(g, p) && p[0] == u && p[|p| - 1] == v
  }

  ghost predicate Reaches(g: Graph, u: Name, v: Name) {
    exists p :: WalkFromTo(g, p, u, v)
  }

  /** At least one edge is taken. */
  ghost predicate ReachesByEdges(g: Graph, u: Name, v: Name) {
    exists p :: WalkFromTo(g, p, u, v) && |p| > 1
  }

  /** Every name on a cycle has an outgoing edge, hence is registered; a self-edge counts. */
  ghost predicate OnCycle(g: Graph, u: Name) {
    ReachesByEdges(g, u, u)
  }

  ghost predicate Acyclic(g: Graph) {
    forall u :: !OnCycle(g, u)
  }

  /** u lies on a cycle or is a direct or transitive dependency of a module that does. */
  ghost predicate BehindCycle(g: Graph, u: Name) {
    exists c :: OnCycle(g, c) && Reaches(g, c, u)
  }

  ghost function BehindCycles(g: Graph): set<Name> {
    set u | u in g && BehindCycle(g, u)
  }

  ghost predicate Distinct<T>(s: seq<T>) {
    forall i, j :: 0 <= i < j < |s| ==> s[i] != s[j]
  }

  function Elems<T>(s: seq<T>): set<T> {
    set x | x in s
  }

  /** Everything that depends on s[i] stands before position i. */
  ghost predicate PredecessorsFirst(g: Graph, s: seq<Name>) {
    forall i, u :: 0 <= i < |s| && Edge(g, u, s[i]) ==> u in s[..i]
  }

  /** A duplicate-free list of exactly the registered modules, each before every
      registered module it depends on. */
  ghost predicate IsDebugOrder(g: Graph, s: seq<Name>) {
    && Distinct(s)
    && Elems(s) == g.Keys
    && forall i, j :: 0 <= i < |s| && 0 <= j < |s| && Edge(g, s[i], s[j]) ==> i < j
  }

  // ------------------------------------------------- lemmas about walks and orders

  lemma EdgeIsWalk(g: Graph, u: Name, v: Name)
    requires Edge(g, u, v)
    ensures ReachesByEdges(g, u, v)
  {
    assert WalkFromTo(g, [u, v], u, v);
  }

  lemma ReachesSelf(g: Graph, u: Name)
    ensures Reaches(g, u, u)
  {
    assert WalkFromTo(g, [u], u, u);
  }

  lemma ReachesStep(g: Graph, u: Name, v: Name, w: Name)
    requires Reaches(g, u, v) && Edge(g, v, w)
    ensures ReachesByEdges(g, u, w) && Reaches(g, u, w)
  {
    var p :| WalkFromTo(g, p, u, v);
    assert WalkFromTo(g, p + [w], u, w);
  }

  /** Walking along edges inside a predecessor-closed list moves strictly to the right. */
  lemma {:induction false} WalkMovesRight(g: Graph, s: seq<Name>, p: seq<Name>, k: nat)
    requires Distinct(s) && PredecessorsFirst(g, s) && Walk(g, p)
    requires k < |s| && p[|p| - 1] == s[k]
    ensures exists i :: 0 <= i <= k && s[i] == p[0] && (|p| > 1 ==> i < k)
  {
    if |p| <= 1 {
    } else {
      var q := p[..|p| - 1];
      assert Edge(g, p[|p| - 2], p[|p| - 1]);
      assert p[|p| - 2] in s[..k];
      var j :| 0 <= j < k && s[j] == p[|p| - 2];
      assert Walk(g, q) by {
        forall i | 0 <= i < |q| - 1 ensures Edge(g, q[i], q[i + 1]) { assert Edge(g, p[i], p[i + 1]); }
      }
      WalkMovesRight(g, s, q, j);
    }
  }

  /** Nothing behind a cycle can stand in a predecessor-closed list. */
  lemma ListedIsNotBehindCycle(g: Graph, s: seq<Name>, u: Name)
    requires Distinct(s) && PredecessorsFirst(g, s) && u in s
    ensures !BehindCycle(g, u)
  {
    if BehindCycle(g, u) {
      var c :| OnCycle(g, c) && Reaches(g, c, u);
      var p :| WalkFromTo(g, p, c, u);
      var k :| 0 <= k < |s| && s[k] == u;
      WalkMovesRight(g, s, p, k);
      var i :| 0 <= i < |s| && s[i] == c;
      var q :| WalkFromTo(g, q, c, c) && |q| > 1;
      WalkMovesRight(g, s, q, i);
    }
  }

  ghost predicate HasDependent(g: Graph, rest: set<Name>, v: Name) {
    exists w :: w in rest && Edge(g, w, v)
  }

  ghost predicate EachHasDependent(g: Graph, rest: set<Name>) {
    forall v {:trigger HasDependent(g, rest, v)} :: v in rest ==> HasDependent(g, rest, v)
  }

  /** In a set where everybody has a dependent, walk backwards as far as one likes. */
  lemma {:induction false} BackwardWalk(g: Graph, rest: set<Name>, u: Name, n: nat) returns (p: seq<Name>)
    requires u in rest
    requires EachHasDependent(g, rest)
    ensures |p| == n + 1 && Walk(g, p) && p[n] == u
    ensures forall x :: x in p ==> x in rest
    decreases n
  {
    if n == 0 {
      p := [u];
    } else {
      assert HasDependent(g, rest, u);
      var w :| w in rest && Edge(g, w, u);
      var q := BackwardWalk(g, rest, w, n - 1);
      p := q + [u];
      forall i | 0 <= i < |p| - 1 ensures Edge(g, p[i], p[i + 1]) {
        if i < n - 1 { assert Edge(g, q[i], q[i + 1]); }
      }
    }
  }

  lemma {:induction false} Pigeonhole(p: seq<Name>, rest: set<Name>)
    requires |p| > |rest| && forall x :: x in p ==> x in rest
    ensures !Distinct(p)
  {
    var last := p[|p| - 1];
    assert last in p && last in rest;
    var q := p[..|p| - 1];
    if last in q {
      var i :| 0 <= i < |q| && q[i] == last;
      assert p[i] == p[|p| - 1];
    } else {
      assert forall x :: x in q ==> x in p;
      Pigeonhole(q, rest - {last});
    }
  }

  lemma SubWalk(g: Graph, p: seq<Name>, i: nat, j: nat)
    requires Walk(g, p) && i <= j < |p|
    ensures Reaches(g, p[i], p[j]) && (i < j ==> ReachesByEdges(g, p[i], p[j]))
  {
    var q := p[i..j + 1];
    forall k | 0 <= k < |q| - 1 ensures Edge(g, q[k], q[k + 1]) {
      assert Edge(g, p[i + k], p[i + k + 1]);
    }
    assert WalkFromTo(g, q, p[i], p[j]);
  }

  lemma StuckIsBehindCycle(g: Graph, rest: set<Name>, u: Name)
    requires u in rest
    requires EachHasDependent(g, rest)
    ensures BehindCycle(g, u)
  {
    var p := BackwardWalk(g, rest, u, |rest|);
    Pigeonhole(p, rest);
    var i, j :| 0 <= i < j < |p| && p[i] == p[j];
    SubWalk(g, p, i, j);
    SubWalk(g, p, j, |p| - 1);
    assert OnCycle(g, p[i]) && Reaches(g, p[i], u);
  }

  /** What Kahn's algorithm leaves behind, and so the number in its error message, does
      not depend on any iteration order: it is everything on or behind a cycle. */
  lemma LeftoverIsBehindCycle(g: Graph, s: seq<Name>)
    requires Distinct(s) && PredecessorsFirst(g, s) && Elems(s) <= g.Keys
    requires EachHasDependent(g, g.Keys - Elems(s))
    ensures g.Keys - Elems(s) == BehindCycles(g)
  {
    forall u | u in g ensures u in s <==> !BehindCycle(g, u) {
      if u in s {
        ListedIsNotBehindCycle(g, s, u);
      } else {
        StuckIsBehindCycle(g, g.Keys - Elems(s), u);
      }
    }
  }

  lemma AcyclicMeansNothingBehind(g: Graph)
    ensures Acyclic(g) <==> forall u :: u in g ==> !BehindCycle(g, u)
  {
    forall u | OnCycle(g, u) ensures u in g && BehindCycle(g, u) {
      ReachesSelf(g, u);
      var p :| WalkFromTo(g, p, u, u) && |p| > 1;
      assert Edge(g, p[0], p[1]);
    }
  }

  /** Such an order exists only for acyclic graphs, whoever computed it. */
  lemma OrderImpliesAcyclic(g: Graph, s: seq<Name>)
    requires IsDebugOrder(g, s)
    ensures Acyclic(g)
  {
    forall i, u | 0 <= i < |s| && Edge(g, u, s[i]) ensures u in s[..i] {
      assert u in Elems(s);
    }
    forall u | u in g ensures !BehindCycle(g, u) {
      assert u in Elems(s);
      ListedIsNotBehindCycle(g, s, u);
    }
    AcyclicMeansNothingBehind(g);
  }

  // -------------------------------------------- the resolver's comment and message

  /** Read as dependencies first: every module stands after what it depends on. */
  ghost predicate DependenciesFirst(g: Graph, s: seq<Name>) {
    forall i, j :: 0 <= i < |s| && 0 <= j < |s| && Edge(g, s[i], s[j]) ==> j < i
  }

  ghost predicate HasKnownDependency(g: Graph, u: Name) {
    exists v :: v in g && Edge(g, u, v)
  }

  /** Read literally: modules without registered dependencies stand before those with one. */
  ghost predicate IndependentFirst(g: Graph, s: seq<Name>) {
    forall i, j :: 0 <= i < |s| && 0 <= j < |s| && HasKnownDependency(g, s[i]) && !HasKnownDependency(g, s[j]) ==> j < i
  }

  ghost predicate NoKnownDependencies(g: Graph) {
    forall u :: !HasKnownDependency(g, u)
  }

  /** The comment promises that modules with no dependencies come first. In either reading the
      computed orders keep it exactly when no registered module depends on another. */
  lemma CommentHoldsExactly(g: Graph, s: seq<Name>)
    requires IsDebugOrder(g, s)
    ensures DependenciesFirst(g, s) <==> NoKnownDependencies(g)
    ensures IndependentFirst(g, s) <==> NoKnownDependencies(g)
  {
    forall u | HasKnownDependency(g, u) ensures !DependenciesFirst(g, s) && !IndependentFirst(g, s) {
      var v :| v in g && Edge(g, u, v);
      assert u in Elems(s) && v in Elems(s);
      var i, j :| 0 <= i < |s| && s[i] == u && 0 <= j < |s| && s[j] == v;
      LastIsIndependent(g, s);
    }
    if NoKnownDependencies(g) {
      forall i, j | 0 <= i < |s| && 0 <= j < |s| && Edge(g, s[i], s[j]) ensures HasKnownDependency(g, s[i]) {
        assert s[j] in Elems(s);
      }
    }
  }

  lemma LastIsIndependent(g: Graph, s: seq<Name>)
    requires IsDebugOrder(g, s) && s != []
    ensures !HasKnownDependency(g, s[|s| - 1])
  {
    forall v | v in g ensures !Edge(g, s[|s| - 1], v) {
      assert v in Elems(s);
      var j :| 0 <= j < |s| && s[j] == v;
    }
  }

  /** An application and the library it depends on: the library cannot come first. */
  lemma CommentFails(s: seq<Name>)
    requires IsDebugOrder(map[Name("app") := [Name("lib")], Name("lib") := []], s)
    ensures s == [Name("app"), Name("lib")]
  {
    var app, lib := Name("app"), Name("lib");
    var g := map[app := [lib], lib := []];
    assert Elems(s) == {app, lib};
    DistinctLength(s);
    assert s[0] in Elems(s) && s[1] in Elems(s) && s[0] != s[1];
    assert Edge(g, app, lib);
  }

  ghost function OnCycles(g: Graph): set<Name> {
    set u | u in g && OnCycle(g, u)
  }

  /** The modules on cycles depend on no registered module that is not on a cycle. */
  ghost predicate CyclesClosed(g: Graph) {
    forall u, v :: OnCycle(g, u) && Edge(g, u, v) && v in g ==> OnCycle(g, v)
  }

  lemma {:induction false} StaysOnCycles(g: Graph, p: seq<Name>, k: nat)
    requires CyclesClosed(g) && Walk(g, p) && OnCycle(g, p[0]) && k < |p| && p[k] in g
    ensures OnCycle(g, p[k])
    decreases k
  {
    if k == 0 {
    } else {
      assert Edge(g, p[k - 1], p[k]);
      StaysOnCycles(g, p, k - 1);
    }
  }

  /** The error message speaks of the number of modules in a cycle. The number it gives is that
      one exactly if no module on a cycle depends on a registered one off the cycles. */
  lemma MessageHoldsExactly(g: Graph)
    ensures OnCycles(g) <= BehindCycles(g)
    ensures |BehindCycles(g)| == |OnCycles(g)| <==> CyclesClosed(g)
  {
    forall u | u in OnCycles(g) ensures u in BehindCycles(g) {
      ReachesSelf(g, u);
    }
    if CyclesClosed(g) {
      forall u | u in BehindCycles(g) ensures u in OnCycles(g) {
        var c :| OnCycle(g, c) && Reaches(g, c, u);
        var p :| WalkFromTo(g, p, c, u);
        StaysOnCycles(g, p, |p| - 1);
      }
      assert BehindCycles(g) == OnCycles(g);
    }
    forall u, v | OnCycle(g, u) && Edge(g, u, v) && v in g && !OnCycle(g, v)
      ensures |OnCycles(g)| < |BehindCycles(g)|
    {
      ReachesSelf(g, u);
      ReachesStep(g, u, u, v);
      assert v in BehindCycles(g) - OnCycles(g);
      assert BehindCycles(g) == OnCycles(g) + (BehindCycles(g) - OnCycles(g));
    }
  }

  /** A module that depends on itself and on another: the message counts two, one is on a cycle. */
  lemma MessageFails()
    ensures var g := map[Name("a") := [Name("a"), Name("b")], Name("b") := []];
            |BehindCycles(g)| == 2 && |OnCycles(g)| == 1
  {
    var a, b := Name("a"), Name("b");
    var g := map[a := [a, b], b := []];
    assert Edge(g, a, a) && Edge(g, a, b);
    EdgeIsWalk(g, a, a);
    ReachesSelf(g, a);
    ReachesStep(g, a, a, b);
    forall v ensures !Edge(g, b, v) {}
    assert !OnCycle(g, b) by {
      forall p | |p| > 1 ensures !WalkFromTo(g, p, b, b) {
        assert Walk(g, p) ==> Edge(g, p[0], p[1]);
      }
    }
    assert BehindCycles(g) == {a, b} && OnCycles(g) == {a};
  }

  lemma ElemsExtended<T>(s: seq<T>, x: T)
    ensures Elems(s + [x]) == Elems(s) + {x}
  {
  }

  lemma {:induction false} DistinctLength<T>(s: seq<T>)
    requires Distinct(s)
    ensures |Elems(s)| == |s|
    decreases |s|
  {
    if s == [] {
      assert Elems(s) == {};
    } else {
      var q, last := s[..|s| - 1], s[|s| - 1];
      assert last !in q && Distinct(q);
      ElemsExtended(q, last);
      hide Distinct;
      assert last !in Elems(q);
      hide Elems;
      assert s == q + [last];
      DistinctLength(q);
    }
  }

  // ------------------------------------------------- in-degree bookkeeping

  function Known(g: Graph, deps: seq<Name>): (r: seq<Name>) {
    if deps == [] then []
    else (if deps[0] in g then [deps[0]] else []) + Known(g, deps[1..])
  }

  lemma {:induction false} KnownMembers(g: Graph, deps: seq<Name>)
    ensures forall x :: x in Known(g, deps) <==> x in deps && x in g
  {
    if deps == [] {
    } else {
      KnownMembers(g, deps[1..]);
      assert deps == [deps[0]] + deps[1..];
    }
  }

  lemma {:induction false} KnownAppend(g: Graph, deps: seq<Name>, d: Name)
    ensures Known(g, deps + [d]) == Known(g, deps) + if d in g then [d] else []
  {
    var last := if d in g then [d] else [];
    KnownNothing(g);
    if deps == [] {
      KnownStep(g, d, []);
      hide Known;
      assert deps + [d] == [d] + [];
    } else {
      var first, tail := deps[0], deps[1..];
      KnownStep(g, first, tail);
      KnownStep(g, first, tail + [d]);
      KnownAppend(g, tail, d);
      hide Known;
      assert deps == [first] + tail && deps + [d] == [first] + (tail + [d]);
    }
  }

  lemma KnownNothing(g: Graph)
    ensures Known(g, []) == []
  {
  }

  lemma KnownStep(g: Graph, first: Name, tail: seq<Name>)
    ensures Known(g, [first] + tail) == (if first in g then [first] else []) + Known(g, tail)
  {
    assert ([first] + tail)[1..] == tail;
  }

  function AdjacentTo(adjList: map<Name, seq<Name>>, u: Name): seq<Name> {
    if u in adjList then adjList[u] else []
  }

  ghost function Occurrences(s: seq<Name>, n: Name): nat {
    if s == [] then 0 else (if s[0] == n then 1 else 0) + Occurrences(s[1..], n)
  }

  lemma {:induction false} OccurrencesMember(s: seq<Name>, n: Name)
    ensures Occurrences(s, n) > 0 <==> n in s
  {
    if s == [] {
    } else {
      OccurrencesMember(s[1..], n);
      assert s == [s[0]] + s[1..];
    }
  }

  lemma {:induction false} OccurrencesAppend(s: seq<Name>, d: Name, n: Name)
    ensures Occurrences(s + [d], n) == Occurrences(s, n) + if d == n then 1 else 0
  {
    if s == [] {
    } else {
      assert (s + [d])[1..] == s[1..] + [d];
      OccurrencesAppend(s[1..], d, n);
    }
  }

  /** For each module the multiset of occurrences, in the lists `lists`, of edges into it,
      each entry named by the module the edge leaves. */
  type Waiting = map<Name, multiset<Name>>

  ghost predicate WaitingOn(g: Graph, waiting: Waiting, lists: map<Name, seq<Name>>) {
    && waiting.Keys == g.Keys
    && forall n, u {:trigger waiting[n][u]} :: n in g ==> waiting[n][u] == Occurrences(AdjacentTo(lists, u), n)
  }

  ghost predicate DegreesMatch(g: Graph, inDegree: map<Name, int>, waiting: Waiting) {
    && inDegree.Keys == g.Keys == waiting.Keys
    && forall n {:trigger inDegree[n]} :: n in g ==> inDegree[n] == |waiting[n]|
  }

  ghost predicate Tables(g: Graph, adjList: map<Name, seq<Name>>, done: set<Name>) {
    forall u {:trigger AdjacentTo(adjList, u)} :: AdjacentTo(adjList, u) ==
      if u in done && u in g then Known(g, g[u]) else []
  }

  ghost predicate SameButFor(lists: map<Name, seq<Name>>, lists': map<Name, seq<Name>>, u: Name, s: seq<Name>) {
    AdjacentTo(lists', u) == s && forall v :: v != u ==> AdjacentTo(lists', v) == AdjacentTo(lists, v)
  }

  lemma TablesStart(g: Graph, inDegree: map<Name, int>, waiting: Waiting)
    requires inDegree.Keys == g.Keys == waiting.Keys
    requires forall n :: n in g ==> inDegree[n] == 0 && waiting[n] == multiset{}
    ensures Tables(g, map[], g.Keys - g.Keys)
    ensures WaitingOn(g, waiting, map[]) && DegreesMatch(g, inDegree, waiting)
  {
  }

  lemma TablesAt(g: Graph, adjList: map<Name, seq<Name>>, done: set<Name>, u: Name)
    requires Tables(g, adjList, done)
    ensures u !in done ==> AdjacentTo(adjList, u) == []
  {
  }

  lemma DegreeGrows(g: Graph, inDegree: map<Name, int>, waiting: Waiting, dep: Name, u: Name)
    requires DegreesMatch(g, inDegree, waiting) && dep in g
    ensures dep in inDegree && dep in waiting
    ensures DegreesMatch(g, inDegree[dep := inDegree[dep] + 1], waiting[dep := waiting[dep] + multiset{u}])
  {
  }

  lemma DegreeShrinks(g: Graph, inDegree: map<Name, int>, waiting: Waiting, dep: Name, u: Name)
    requires DegreesMatch(g, inDegree, waiting) && dep in g && u in waiting[dep]
    ensures dep in inDegree && dep in waiting && inDegree[dep] > 0
    ensures DegreesMatch(g, inDegree[dep := inDegree[dep] - 1], waiting[dep := waiting[dep] - multiset{u}])
  {
    assert waiting[dep] == (waiting[dep] - multiset{u}) + multiset{u};
  }

  lemma TablesShrink(g: Graph, lists: map<Name, seq<Name>>, lists': map<Name, seq<Name>>, result: seq<Name>, u: Name)
    requires Tables(g, lists, g.Keys - Elems(result)) && SameButFor(lists, lists', u, [])
    ensures Tables(g, lists', g.Keys - Elems(result + [u]))
  {
    assert Elems(result + [u]) == Elems(result) + {u};
  }

  lemma TablesStep(g: Graph, adjList: map<Name, seq<Name>>, adjList': map<Name, seq<Name>>, done: set<Name>, u: Name)
    requires u in g && Tables(g, adjList, done)
    requires SameButFor(adjList, adjList', u, Known(g, g[u]))
    ensures Tables(g, adjList', done + {u})
  {
  }

  /** Invariant of the queue loop; `lists` are the adjacency lists not yet worked off. */
  ghost predicate KahnInv(g: Graph, inDegree: map<Name, int>, lists: map<Name, seq<Name>>, queue: seq<Name>,
                          result: seq<Name>, waiting: Waiting)
  {
    && Distinct(result + queue)
    && Elems(result + queue) <= g.Keys
    && WaitingOn(g, waiting, lists)
    && DegreesMatch(g, inDegree, waiting)
    && (forall n :: n in g ==> (n in result + queue <==> inDegree[n] == 0))
    && PredecessorsFirst(g, result)
  }

  ghost predicate AreSources(inDegree: map<Name, int>, queue: seq<Name>) {
    Distinct(queue) && forall n :: n in queue <==> n in inDegree && inDegree[n] == 0
  }

  lemma NoInDegreeNoEdge(g: Graph, waiting: Waiting, lists: map<Name, seq<Name>>, n: Name)
    requires WaitingOn(g, waiting, lists) && n in g
    ensures |waiting[n]| == 0 <==> forall u :: n !in AdjacentTo(lists, u)
  {
    forall u ensures u in waiting[n] <==> n in AdjacentTo(lists, u) {
      OccurrencesMember(AdjacentTo(lists, u), n);
      assert waiting[n][u] == Occurrences(AdjacentTo(lists, u), n);
    }
    if |waiting[n]| != 0 {
      var u :| u in waiting[n];
    }
  }

  lemma WaitingGrows(g: Graph, waiting: Waiting, lists: map<Name, seq<Name>>, u: Name, dep: Name)
    requires WaitingOn(g, waiting, lists) && dep in g
    ensures WaitingOn(g, waiting[dep := waiting[dep] + multiset{u}], lists[u := AdjacentTo(lists, u) + [dep]])
  {
    var waiting', lists' := waiting[dep := waiting[dep] + multiset{u}], lists[u := AdjacentTo(lists, u) + [dep]];
    forall n, v | n in g ensures waiting'[n][v] == Occurrences(AdjacentTo(lists', v), n) {
      assert waiting[n][v] == Occurrences(AdjacentTo(lists, v), n);
      OccurrencesAppend(AdjacentTo(lists, u), dep, n);
    }
  }

  lemma WaitingShrinks(g: Graph, waiting: Waiting, lists: map<Name, seq<Name>>, u: Name, dep: Name, tail: seq<Name>)
    requires WaitingOn(g, waiting, lists) && dep in g && AdjacentTo(lists, u) == [dep] + tail
    ensures u in waiting[dep]
    ensures WaitingOn(g, waiting[dep := waiting[dep] - multiset{u}], lists[u := tail])
  {
    var waiting', lists' := waiting[dep := waiting[dep] - multiset{u}], lists[u := tail];
    var here := AdjacentTo(lists, u);
    assert here[0] == dep && here[1..] == tail;
    assert waiting[dep][u] == Occurrences(here, dep);
    forall n, v | n in g ensures waiting'[n][v] == Occurrences(AdjacentTo(lists', v), n) {
      assert waiting[n][v] == Occurrences(AdjacentTo(lists, v), n);
    }
  }

  // ------------------------------------------------------------ the resolver

  class ModuleDebugDependency {
    var ModuleName: Name
    var DependsOn: seq<Name>
    var DebugPort: int
    var DebugOrder: int

    constructor (name: Name, dependsOn: seq<Name>)
      ensures ModuleName == name && DependsOn == dependsOn && DebugPort == 0 && DebugOrder == 0
    {
      ModuleName, DependsOn, DebugPort, DebugOrder := name, dependsOn, 0, 0;
    }
  }

  datatype OrderResult = Order(names: seq<Name>) | CircularDependency(inCycle: nat)

  /** Succeeds exactly on acyclic graphs. The number in the error message counts the
      modules on a cycle together with everything those depend on. */
  ghost predicate IsVerdict(g: Graph, r: OrderResult) {
    && (r.Order? <==> Acyclic(g))
    && (r.Order? ==> IsDebugOrder(g, r.names))
    && (r.CircularDependency? ==> r.inCycle == |BehindCycles(g)|)
  }

  /** The visited map and the result slice that the recursion updates through pointers. */
  class Collection {
    var visited: set<Name>
    var result: seq<Name>

    constructor ()
      ensures visited == {} && result == []
    {
      visited, result := {}, [];
    }
  }

  class ModuleDebugDependencyResolver {
    var modules: map<Name, ModuleDebugDependency>

    constructor ()
      ensures modules == map[]
    {
      modules := map[];
    }

    ghost function Deps(): (g: Graph)
      reads this, modules.Values
      ensures g.Keys == modules.Keys
      ensures forall n :: n in g ==> g[n] == modules[n].DependsOn
    {
      map n | n in modules :: modules[n].DependsOn
    }

    method AddModule(mod: ModuleDebugDependency?)
      modifies this
      ensures modules == if mod == null then old(modules) else old(modules)[mod.ModuleName := mod]
    {
      if mod == null {
        return;
      }
      modules := modules[mod.ModuleName := mod];
    }

    /** In-degrees and adjacency lists over the registered modules. */
    method BuildTables(ghost g: Graph)
      returns (inDegree: map<Name, int>, adjList: map<Name, seq<Name>>, ghost waiting: Waiting)
      requires g == Deps()
      ensures Tables(g, adjList, g.Keys)
      ensures WaitingOn(g, waiting, adjList) && DegreesMatch(g, inDegree, waiting)
    {
      hide *;
      inDegree, adjList, waiting := StartTables(g, modules.Keys);
      var todo := modules.Keys;
      while todo != {}
        invariant todo <= modules.Keys
        invariant Tables(g, adjList, g.Keys - todo)
        invariant WaitingOn(g, waiting, adjList) && DegreesMatch(g, inDegree, waiting)
      {
        var name :| name in todo;
        ghost var adjList0 := adjList;
        TablesAt(g, adjList, g.Keys - todo, name);
        inDegree, adjList, waiting := AddEdges(g, name, modules[name].DependsOn, inDegree, adjList, waiting);
        assert g[name] == modules[name].DependsOn;
        TablesStep(g, adjList0, adjList, g.Keys - todo, name);
        assert g.Keys - (todo - {name}) == g.Keys - todo + {name};
        todo := todo - {name};
      }
      assert g.Keys - todo == g.Keys;
    }

    /** Every in-degree zero, no edges. */
    static method StartTables(ghost g: Graph, names: set<Name>)
      returns (inDegree: map<Name, int>, adjList: map<Name, seq<Name>>, ghost waiting: Waiting)
      requires names == g.Keys
      ensures Tables(g, adjList, g.Keys - names)
      ensures WaitingOn(g, waiting, adjList) && DegreesMatch(g, inDegree, waiting)
    {
      inDegree := map n | n in names :: 0;
      waiting := map n | n in names :: multiset{};
      adjList := map[];
      TablesStart(g, inDegree, waiting);
    }

    /** Counts the dependencies of one module that are themselves registered. */
    method AddEdges(ghost g: Graph, name: Name, deps: seq<Name>, inDegree: map<Name, int>,
                    adjList: map<Name, seq<Name>>, ghost waiting: Waiting)
      returns (inDegree': map<Name, int>, adjList': map<Name, seq<Name>>, ghost waiting': Waiting)
      requires g.Keys == modules.Keys && AdjacentTo(adjList, name) == []
      requires WaitingOn(g, waiting, adjList) && DegreesMatch(g, inDegree, waiting)
      ensures SameButFor(adjList, adjList', name, Known(g, deps))
      ensures WaitingOn(g, waiting', adjList') && DegreesMatch(g, inDegree', waiting')
    {
      hide WaitingOn, DegreesMatch;
      inDegree', adjList', waiting' := inDegree, adjList, waiting;
      for i := 0 to |deps|
        invariant SameButFor(adjList, adjList', name, Known(g, deps[..i]))
        invariant WaitingOn(g, waiting', adjList') && DegreesMatch(g, inDegree', waiting')
      {
        var dep := deps[i];
        assert deps[..i + 1] == deps[..i] + [dep];
        KnownAppend(g, deps[..i], dep);
        if dep in modules {
          WaitingGrows(g, waiting', adjList', name, dep);
          DegreeGrows(g, inDegree', waiting', dep, name);
          adjList' := adjList'[name := AdjacentTo(adjList', name) + [dep]];
          inDegree' := inDegree'[dep := inDegree'[dep] + 1];
          waiting' := waiting'[dep := waiting'[dep] + multiset{name}];
        }
      }
      assert deps[..|deps|] == deps;
    }

    /** The modules of in-degree zero, in whatever order the map yields them. */
    static method Sources(inDegree: map<Name, int>) returns (queue: seq<Name>)
      ensures AreSources(inDegree, queue)
    {
      queue := [];
      var todo := inDegree.Keys;
      while todo != {}
        invariant todo <= inDegree.Keys && Distinct(queue)
        invariant forall n :: n in queue <==> n in inDegree && n !in todo && inDegree[n] == 0
      {
        var name :| name in todo;
        if inDegree[name] == 0 {
          queue := queue + [name];
        }
        todo := todo - {name};
      }
    }

    /** Works off the edges of `current`, queueing every module whose last one this was. */
    static method Release(ghost g: Graph, current: Name, adjacent: seq<Name>, inDegree: map<Name, int>,
                          queue: seq<Name>,
                          ghost lists: map<Name, seq<Name>>, ghost result: seq<Name>, ghost waiting: Waiting)
      returns (inDegree': map<Name, int>, queue': seq<Name>, ghost lists': map<Name, seq<Name>>,
               ghost waiting': Waiting)
      requires KahnInv(g, inDegree, lists, queue, result, waiting)
      requires adjacent == AdjacentTo(lists, current)
      requires forall x :: x in adjacent ==> x in g
      ensures SameButFor(lists, lists', current, [])
      ensures KahnInv(g, inDegree', lists', queue', result, waiting')
    {
      hide KahnInv;
      inDegree', queue', lists', waiting' := inDegree, queue, lists, waiting;
      for i := 0 to |adjacent|
        invariant SameButFor(lists, lists', current, adjacent[i..])
        invariant KahnInv(g, inDegree', lists', queue', result, waiting')
      {
        var dependent := adjacent[i];
        assert adjacent[i..] == [dependent] + adjacent[i + 1..];
        ReleaseStep(g, inDegree', lists', queue', result, waiting', current, dependent, adjacent[i + 1..]);
        inDegree' := inDegree'[dependent := inDegree'[dependent] - 1];
        lists' := lists'[current := adjacent[i + 1..]];
        waiting' := waiting'[dependent := waiting'[dependent] - multiset{current}];
        if inDegree'[dependent] == 0 {
          queue' := queue' + [dependent];
        }
      }
    }

    method ResolveOrderInternal() returns (r: OrderResult)
      ensures IsVerdict(Deps(), r)
    {
      hide *;
      ghost var g := Deps();
      var inDegree, adjList;
      ghost var waiting;
      inDegree, adjList, waiting := BuildTables(g);
      var queue := Sources(inDegree);
      var result;
      ghost var degrees, lists;
      result, degrees, lists, waiting := WorkOff(g, inDegree, adjList, queue, waiting);
      KahnVerdict(g, degrees, lists, result, waiting);
      assert Deps() == g;
      assert |g| == |g.Keys| == |modules|;
      if |result| != |modules| {
        return CircularDependency(|modules| - |result|);
      }
      return Order(result);
    }

    /** The queue loop. */
    static method WorkOff(ghost g: Graph, inDegree0: map<Name, int>, adjList: map<Name, seq<Name>>, queue0: seq<Name>,
                          ghost waiting0: Waiting)
      returns (result: seq<Name>, ghost inDegree': map<Name, int>, ghost lists: map<Name, seq<Name>>,
               ghost waiting: Waiting)
      requires Tables(g, adjList, g.Keys) && WaitingOn(g, waiting0, adjList) && DegreesMatch(g, inDegree0, waiting0)
      requires AreSources(inDegree0, queue0)
      ensures KahnInv(g, inDegree', lists, [], result, waiting)
      ensures Tables(g, lists, g.Keys - Elems(result))
    {
      KahnStart(g, inDegree0, adjList, queue0, waiting0);
      hide *;
      var inDegree, queue := inDegree0, queue0;
      lists, waiting := adjList, waiting0;
      result := [];
      while |queue| > 0
        invariant KahnInv(g, inDegree, lists, queue, result, waiting)
        invariant Tables(g, lists, g.Keys - Elems(result))
        decreases g.Keys - Elems(result)
      {
        var current := queue[0];
        PopKeepsInv(g, inDegree, adjList, lists, queue, result, waiting);
        ghost var lists0, result0 := lists, result;
        result := result + [current];
        inDegree, queue, lists, waiting :=
          Release(g, current, AdjacentTo(adjList, current), inDegree, queue[1..], lists, result, waiting);
        TablesShrink(g, lists0, lists, result0, current);
      }
      inDegree' := inDegree;
    }

    /** Sorts, and on success numbers the modules by their place in the order. */
    method ResolveDebugOrder() returns (r: OrderResult)
      modifies modules.Values`DebugOrder
      ensures Deps() == old(Deps()) && IsVerdict(Deps(), r)
      ensures r.CircularDependency? ==> forall n :: n in modules ==> modules[n].DebugOrder == old(modules[n].DebugOrder)
      ensures r.Order? && Unshared(modules) ==> Numbered(r.names)
    {
      r := ResolveOrderInternal();
      if r.CircularDependency? {
        return;
      }
      ghost var g := Deps();
      label sorted:
      hide IsVerdict, Unshared;
      assert Distinct(r.names) && Elems(r.names) == modules.Keys by { VerdictNames(g, r); }
      for i := 0 to |r.names|
        invariant Deps() == g
        invariant Unshared(modules) ==> NumberedUpTo(r.names, i)
      {
        if r.names[i] in modules {
          SetDebugOrder(r.names, i);
        }
      }
    }

    method SetDebugOrder(names: seq<Name>, i: nat)
      requires Distinct(names) && i < |names| && names[i] in modules
      modifies modules.Values`DebugOrder
      ensures forall m :: m in modules.Values && m != modules[names[i]] ==> m.DebugOrder == old(m.DebugOrder)
      ensures Deps() == old(Deps())
      ensures Unshared(modules) && old(NumberedUpTo(names, i)) ==> NumberedUpTo(names, i + 1)
    {
      NumberingStep(names, i);
      modules[names[i]].DebugOrder := i;
    }

    /** The place of each listed module in the list is its DebugOrder. */
    ghost predicate Numbered(names: seq<Name>)
      reads this, modules.Values
    {
      NumberedUpTo(names, |names|)
    }

    ghost predicate NumberedUpTo(names: seq<Name>, n: nat)
      reads this, modules.Values
    {
      forall j :: 0 <= j < n && j < |names| ==> names[j] in modules && modules[names[j]].DebugOrder == j
    }

    lemma NumberingStep(names: seq<Name>, i: nat)
      requires Distinct(names) && i < |names| && names[i] in modules
      ensures Unshared(modules) ==>
                forall j :: 0 <= j < i && names[j] in modules ==> modules[names[j]] != modules[names[i]]
    {
    }

    /** All direct and transitive dependencies, whether registered or not, without the module itself. */
    method GetModuleDependencies(moduleName: Name) returns (result: seq<Name>)
      ensures Distinct(result)
      ensures forall x :: x in result <==> x != moduleName && ReachesByEdges(Deps(), moduleName, x)
    {
      hide *;
      ghost var g := Deps();
      var c := new Collection();
      CollectDependencies(g, moduleName, c);
      result := c.result;
      assert [] + result == result;
      GatheredIsReachable(g, moduleName, c.visited, result);
      assert Deps() == g;
    }

    method CollectDependencies(ghost g: Graph, moduleName: Name, c: Collection)
      requires g == Deps()
      modifies c
      ensures old(c.result) <= c.result
      ensures moduleName in old(c.visited) ==> c.visited == old(c.visited) && c.result == old(c.result)
      ensures moduleName !in old(c.visited) ==>
                Gathered(g, moduleName, old(c.visited), c.visited, [moduleName] + c.result[|old(c.result)|..])
      decreases g.Keys - c.visited
    {
      hide *;
      if moduleName in c.visited {
        return;
      }
      ghost var before, result0 := c.visited, c.result;
      c.visited := c.visited + {moduleName};
      ghost var added: seq<Name> := [];
      GatheredNothing(g, moduleName, c.visited);
      assert c.result == result0 + added;
      if moduleName !in modules {
        GatheredWhole(g, moduleName, before, c.visited, added);
        assert c.result[|result0|..] == added;
        return;
      }
      var deps := modules[moduleName].DependsOn;
      assert deps == g[moduleName];
      for i := 0 to |deps|
        invariant g == Deps()
        invariant c.result == result0 + added
        invariant Gathered(g, moduleName, before + {moduleName}, c.visited, added)
        invariant before + {moduleName} <= c.visited
        invariant forall j :: 0 <= j < i ==> deps[j] in c.visited
      {
        var dep := deps[i];
        if dep !in c.visited {
          ghost var mid := c.visited;
          c.result := c.result + [dep];
          ghost var result1 := c.result;
          CollectDependencies(g, dep, c);
          ghost var more := [dep] + c.result[|result1|..];
          GatheredStep(g, moduleName, dep, before + {moduleName}, mid, c.visited, added, more);
          assert c.result == result1 + c.result[|result1|..];
          added := added + more;
          assert c.result == result0 + added;
        }
      }
      GatheredWhole(g, moduleName, before, c.visited, added);
      assert c.result[|result0|..] == added;
    }
  }

  /** No two names stand for one module object. */
  ghost predicate Unshared(modules: map<Name, ModuleDebugDependency>) {
    forall m, n :: m in modules && n in modules && modules[m] == modules[n] ==> m == n
  }

  lemma VerdictNames(g: Graph, r: OrderResult)
    requires r.Order? && IsVerdict(g, r)
    ensures Distinct(r.names) && Elems(r.names) == g.Keys
  {
  }

  // ------------------------------------------- the depth-first collection

  /** From `before` to `after`, the names in `added` were visited, each reachable from
      `start`, and everything they depend on has been visited too. */
  ghost predicate Gathered(g: Graph, start: Name, before: set<Name>, after: set<Name>, added: seq<Name>) {
    && before <= after
    && Distinct(added)
    && Elems(added) == after - before
    && (forall x {:trigger Reaches(g, start, x)} :: x in added ==> Reaches(g, start, x))
    && (forall x, y {:trigger Edge(g, x, y)} :: x in added && Edge(g, x, y) ==> y in after)
  }

  lemma GatheredNothing(g: Graph, start: Name, visited: set<Name>)
    ensures Gathered(g, start, visited, visited, [])
  {
  }

  lemma GatheredStep(g: Graph, start: Name, dep: Name, before: set<Name>, mid: set<Name>, after: set<Name>,
                     added: seq<Name>, more: seq<Name>)
    requires Gathered(g, start, before, mid, added) && Gathered(g, dep, mid, after, more)
    requires start in g && dep in g[start] && dep in more
    ensures before + mid <= after && dep in after
    ensures Gathered(g, start, before, after, added + more)
  {
    assert dep in Elems(more);
    var all := added + more;
    forall x ensures x in all <==> x in added || x in more {
    }
    assert Elems(all) == Elems(added) + Elems(more);
    forall x | x in more ensures Reaches(g, start, x) {
      assert Reaches(g, dep, x);
      ReachesFirst(g, start, dep, x);
    }
    forall x, y | x in all && Edge(g, x, y) ensures y in after {
    }
    forall i, j | 0 <= i < j < |all| ensures all[i] != all[j] {
      if i < |added| <= j {
        assert all[i] in Elems(added) && all[j] in Elems(more);
      }
    }
  }

  lemma ReachesFirst(g: Graph, u: Name, v: Name, w: Name)
    requires Edge(g, u, v) && Reaches(g, v, w)
    ensures ReachesByEdges(g, u, w) && Reaches(g, u, w)
  {
    var p :| WalkFromTo(g, p, v, w);
    var q := [u] + p;
    forall i | 0 <= i < |q| - 1 ensures Edge(g, q[i], q[i + 1]) {
      if i > 0 { assert Edge(g, p[i - 1], p[i]); }
    }
    assert WalkFromTo(g, q, u, w);
  }

  lemma GatheredWhole(g: Graph, start: Name, before: set<Name>, after: set<Name>, added: seq<Name>)
    requires start !in before && Gathered(g, start, before + {start}, after, added)
    requires start in g ==> forall j :: 0 <= j < |g[start]| ==> g[start][j] in after
    ensures Gathered(g, start, before, after, [start] + added)
  {
    ReachesSelf(g, start);
    assert start !in Elems(added);
    assert Elems([start] + added) == {start} + Elems(added);
  }

  lemma {:induction false} ClosedUnderWalk(g: Graph, closed: set<Name>, p: seq<Name>)
    requires Walk(g, p) && p[0] in closed
    requires forall x, y {:trigger Edge(g, x, y)} :: x in closed && Edge(g, x, y) ==> y in closed
    ensures p[|p| - 1] in closed
  {
    if |p| <= 1 {
    } else {
      assert Edge(g, p[0], p[1]);
      forall i | 0 <= i < |p[1..]| - 1 ensures Edge(g, p[1..][i], p[1..][i + 1]) {
        assert Edge(g, p[i + 1], p[i + 2]);
      }
      ClosedUnderWalk(g, closed, p[1..]);
    }
  }

  lemma GatheredIsReachable(g: Graph, start: Name, visited: set<Name>, result: seq<Name>)
    requires Gathered(g, start, {}, visited, [start] + result)
    ensures Distinct(result)
    ensures forall x :: x in result <==> x != start && ReachesByEdges(g, start, x)
  {
    var all := [start] + result;
    assert forall i :: 0 <= i < |result| ==> result[i] == all[i + 1];
    assert start == all[0];
    forall x ensures x in result <==> x != start && ReachesByEdges(g, start, x) {
      assert x in all <==> x == start || x in result;
      assert x in visited <==> x in Elems(all);
      if x in result {
        assert Reaches(g, start, x);
        var p :| WalkFromTo(g, p, start, x);
        assert |p| > 1;
      } else if ReachesByEdges(g, start, x) {
        var p :| WalkFromTo(g, p, start, x) && |p| > 1;
        forall u, v | u in visited && Edge(g, u, v) ensures v in visited { assert u in Elems(all); }
        assert start in Elems(all);
        ClosedUnderWalk(g, visited, p);
      }
    }
  }

  lemma KahnStart(g: Graph, inDegree: map<Name, int>, adjList: map<Name, seq<Name>>, queue: seq<Name>, waiting: Waiting)
    requires Tables(g, adjList, g.Keys) && WaitingOn(g, waiting, adjList) && DegreesMatch(g, inDegree, waiting)
    requires AreSources(inDegree, queue)
    ensures KahnInv(g, inDegree, adjList, queue, [], waiting)
    ensures Tables(g, adjList, g.Keys - Elems([]))
  {
    assert [] + queue == queue;
    assert g.Keys - Elems([]) == g.Keys;
  }

  lemma ReleaseStep(g: Graph, inDegree: map<Name, int>, lists: map<Name, seq<Name>>, queue: seq<Name>,
                    result: seq<Name>, waiting: Waiting, current: Name, dependent: Name, tail: seq<Name>)
    requires KahnInv(g, inDegree, lists, queue, result, waiting)
    requires dependent in g && AdjacentTo(lists, current) == [dependent] + tail
    ensures dependent in inDegree && dependent in waiting
    ensures KahnInv(g, inDegree[dependent := inDegree[dependent] - 1], lists[current := tail],
                    if inDegree[dependent] == 1 then queue + [dependent] else queue,
                    result, waiting[dependent := waiting[dependent] - multiset{current}])
  {
    WaitingShrinks(g, waiting, lists, current, dependent, tail);
    DegreeShrinks(g, inDegree, waiting, dependent, current);
    DegreeNames(g, inDegree, waiting);
    QueueStep(g, inDegree, queue, result, dependent);
    hide WaitingOn, DegreesMatch, PredecessorsFirst, Distinct, Elems;
  }

  lemma DegreeNames(g: Graph, inDegree: map<Name, int>, waiting: Waiting)
    requires DegreesMatch(g, inDegree, waiting)
    ensures inDegree.Keys == g.Keys
  {
  }

  /** The queue and the result hold the modules of in-degree zero also after one edge less. */
  lemma QueueStep(g: Graph, inDegree: map<Name, int>, queue: seq<Name>, result: seq<Name>, dependent: Name)
    requires inDegree.Keys == g.Keys && dependent in g && inDegree[dependent] > 0
    requires Distinct(result + queue) && Elems(result + queue) <= g.Keys
    requires forall n :: n in g ==> (n in result + queue <==> inDegree[n] == 0)
    ensures var inDegree' := inDegree[dependent := inDegree[dependent] - 1];
            var queue' := if inDegree[dependent] == 1 then queue + [dependent] else queue;
            && Distinct(result + queue') && Elems(result + queue') <= g.Keys
            && forall n :: n in g ==> (n in result + queue' <==> inDegree'[n] == 0)
  {
    if inDegree[dependent] == 1 {
      assert result + (queue + [dependent]) == (result + queue) + [dependent];
      DistinctExtended(result + queue, dependent);
    }
  }

  lemma DistinctExtended(s: seq<Name>, x: Name)
    requires Distinct(s) && x !in s
    ensures Distinct(s + [x]) && Elems(s + [x]) == Elems(s) + {x}
    ensures forall y :: y in s + [x] <==> y in s || y == x
  {
  }

  /** When the queue is empty, the length of the result tells whether there is a cycle. */
  lemma KahnVerdict(g: Graph, inDegree: map<Name, int>, lists: map<Name, seq<Name>>, result: seq<Name>,
                    waiting: Waiting)
    requires KahnInv(g, inDegree, lists, [], result, waiting)
    requires Tables(g, lists, g.Keys - Elems(result))
    ensures |result| <= |g.Keys|
    ensures IsVerdict(g, if |result| == |g.Keys| then Order(result) else CircularDependency(|g.Keys| - |result|))
  {
    var behind := BehindCycles(g);
    assert result + [] == result;
    LeftoverHasDependents(g, inDegree, lists, result, waiting);
    LeftoverIsBehindCycle(g, result);
    AcyclicMeansNothingBehind(g);
    DistinctLength(result);
    assert |behind| == |g.Keys| - |Elems(result)|;
    assert behind == {} <==> forall u :: u in g ==> !BehindCycle(g, u);
    if |behind| == 0 {
      assert behind == {};
      OrderFromPredecessors(g, result);
    }
  }

  lemma OrderFromPredecessors(g: Graph, s: seq<Name>)
    requires Distinct(s) && PredecessorsFirst(g, s) && Elems(s) == g.Keys
    ensures IsDebugOrder(g, s)
  {
    forall i, j | 0 <= i < |s| && 0 <= j < |s| && Edge(g, s[i], s[j]) ensures i < j {
      assert s[i] in s[..j];
    }
  }

  lemma LeftoverHasDependents(g: Graph, inDegree: map<Name, int>, lists: map<Name, seq<Name>>, result: seq<Name>,
                              waiting: Waiting)
    requires KahnInv(g, inDegree, lists, [], result, waiting)
    requires Tables(g, lists, g.Keys - Elems(result))
    ensures EachHasDependent(g, g.Keys - Elems(result))
  {
    var rest := g.Keys - Elems(result);
    assert result + [] == result;
    forall v | v in rest ensures HasDependent(g, rest, v) {
      NoInDegreeNoEdge(g, waiting, lists, v);
      var u :| v in AdjacentTo(lists, u);
      KnownMembers(g, g[u]);
      assert u in rest && Edge(g, u, v);
    }
  }

  lemma PopKeepsInv(g: Graph, inDegree: map<Name, int>, adjList: map<Name, seq<Name>>, lists: map<Name, seq<Name>>,
                    queue: seq<Name>,
                    result: seq<Name>, waiting: Waiting)
    requires KahnInv(g, inDegree, lists, queue, result, waiting) && |queue| > 0
    requires Tables(g, lists, g.Keys - Elems(result)) && Tables(g, adjList, g.Keys)
    ensures KahnInv(g, inDegree, lists, queue[1..], result + [queue[0]], waiting)
    ensures queue[0] in g && queue[0] !in Elems(result)
    ensures AdjacentTo(lists, queue[0]) == AdjacentTo(adjList, queue[0])
    ensures forall x :: x in AdjacentTo(adjList, queue[0]) ==> x in g
    ensures Elems(result + [queue[0]]) == Elems(result) + {queue[0]}
  {
    var current := queue[0];
    HeadOfQueue(g, queue, result);
    KnownMembers(g, g[current]);
    PredecessorsOfNext(g, inDegree, lists, queue, result, waiting);
    UnworkedList(g, adjList, lists, result, current);
    hide WaitingOn, DegreesMatch, PredecessorsFirst, Distinct, Elems, Tables, Known, AdjacentTo;
  }

  lemma HeadOfQueue(g: Graph, queue: seq<Name>, result: seq<Name>)
    requires Distinct(result + queue) && Elems(result + queue) <= g.Keys && |queue| > 0
    ensures queue[0] in g && queue[0] !in Elems(result)
    ensures Elems(result + [queue[0]]) == Elems(result) + {queue[0]}
    ensures (result + [queue[0]]) + queue[1..] == result + queue
  {
    var current, all := queue[0], result + queue;
    assert all[|result|] == current && current in all && current in Elems(all);
    forall i | 0 <= i < |result| ensures result[i] != current {
      assert all[i] == result[i];
    }
  }

  lemma UnworkedList(g: Graph, adjList: map<Name, seq<Name>>, lists: map<Name, seq<Name>>, result: seq<Name>, u: Name)
    requires Tables(g, lists, g.Keys - Elems(result)) && Tables(g, adjList, g.Keys)
    requires u in g && u !in Elems(result)
    ensures AdjacentTo(lists, u) == AdjacentTo(adjList, u) == Known(g, g[u])
  {
    hide Elems;
  }

  lemma PredecessorsOfNext(g: Graph, inDegree: map<Name, int>, lists: map<Name, seq<Name>>, queue: seq<Name>,
                           result: seq<Name>, waiting: Waiting)
    requires KahnInv(g, inDegree, lists, queue, result, waiting) && |queue| > 0
    requires Tables(g, lists, g.Keys - Elems(result))
    ensures PredecessorsFirst(g, result + [queue[0]])
  {
    var current := queue[0];
    assert (result + queue)[|result|] == current;
    assert current in result + queue;
    NoInDegreeNoEdge(g, waiting, lists, current);
    var next := result + [current];
    forall i, u | 0 <= i < |next| && Edge(g, u, next[i]) ensures u in next[..i] {
      if i < |result| {
        assert u in result[..i] && next[..i] == result[..i];
      } else {
        KnownMembers(g, g[u]);
        assert current !in AdjacentTo(lists, u);
        assert u in result && next[..i] == result;
      }
    }
  }
}

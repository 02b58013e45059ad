/**
 Finite directed graphs as the crate-split planner builds them: a map from a
 module to the set of modules it references. A referenced module need not be a
 key of the map; it then has no successors of its own.
 */
module Graphs {
  type Graph<V> = map<V, set<V>>

  function Elements<T>(s: seq<T>): set<T> {
    set x | x in s
  }

  ghost predicate NoDuplicates<T>(s: seq<T>) {
    forall i, j :: 0 <= i < j < |s| ==> s[i] != s[j]
  }

  function Succ<V>(g: Graph<V>, v: V): set<V> {
    if v in g then g[v] else {}
  }

  // Every module the graph mentions, as a key or as a target.
  function Vertices<V>(g: Graph<V>): set<V> {
    g.Keys + set u, v | u in g && v in g[u] :: v
  }

  ghost predicate IsPath<V>(g: Graph<V>, p: seq<V>) {
    |p| > 0 && (|p| > 1 ==> p[1] in Succ(g, p[0]) && IsPath(g, p[1..]))
  }

  ghost predicate PathBetween<V>(g: Graph<V>, p: seq<V>, a: V, b: V) {
    IsPath(g, p) && p[0] == a && p[|p| - 1] == b
  }

  ghost predicate Reaches<V(!new)>(g: Graph<V>, a: V, b: V) {
    exists p :: PathBetween(g, p, a, b)
  }

  ghost predicate Mutual<V(!new)>(g: Graph<V>, a: V, b: V) {
    Reaches(g, a, b) && Reaches(g, b, a)
  }

  // Some walk of at least one edge leads from a to b.
  ghost predicate StrictlyReaches<V(!new)>(g: Graph<V>, a: V, b: V) {
    exists s :: s in Succ(g, a) && Reaches(g, s, b)
  }

  // A self-loop is a cycle.
  ghost predicate Acyclic<V(!new)>(g: Graph<V>) {
    forall u :: !StrictlyReaches(g, u, u)
  }

  predicate SelfLoopFree<V>(g: Graph<V>) {
    forall u :: u in g ==> u !in g[u]
  }

  lemma ReachesSelf<V(!new)>(g: Graph<V>, a: V)
    ensures Reaches(g, a, a)
  {
    assert PathBetween(g, [a], a, a);
  }

  lemma ReachesCons<V(!new)>(g: Graph<V>, a: V, b: V, c: V)
    requires b in Succ(g, a) && Reaches(g, b, c)
    ensures Reaches(g, a, c)
  {
    var p :| PathBetween(g, p, b, c);
    assert ([a] + p)[1..] == p;
    assert PathBetween(g, [a] + p, a, c);
  }

  lemma ReachesEdge<V(!new)>(g: Graph<V>, a: V, b: V)
    requires b in Succ(g, a)
    ensures Reaches(g, a, b)
  {
    ReachesSelf(g, b);
    ReachesCons(g, a, b, b);
  }

  lemma {:induction false} PathThenReaches<V(!new)>(g: Graph<V>, p: seq<V>, a: V, b: V, c: V)
    requires PathBetween(g, p, a, b) && Reaches(g, b, c)
    ensures Reaches(g, a, c)
    decreases |p|
  {
    if |p| > 1 {
      PathThenReaches(g, p[1..], p[1], b, c);
      ReachesCons(g, a, p[1], c);
    }
  }

  lemma ReachesTrans<V(!new)>(g: Graph<V>, a: V, b: V, c: V)
    requires Reaches(g, a, b) && Reaches(g, b, c)
    ensures Reaches(g, a, c)
  {
    var p :| PathBetween(g, p, a, b);
    PathThenReaches(g, p, a, b, c);
  }

  /** A walk that starts inside S and ends outside crosses S's border along some edge. */
  lemma {:induction false} PathExit<V(!new)>(g: Graph<V>, p: seq<V>, a: V, b: V, S: set<V>)
    returns (x: V, y: V)
    requires PathBetween(g, p, a, b) && a in S && b !in S
    ensures x in S && y !in S && y in Succ(g, x)
    ensures Reaches(g, a, x) && Reaches(g, y, b)
    decreases |p|
  {
    assert |p| > 1;
    if p[1] in S {
      x, y := PathExit(g, p[1..], p[1], b, S);
      ReachesCons(g, a, p[1], x);
    } else {
      x, y := a, p[1];
      ReachesSelf(g, a);
      assert PathBetween(g, p[1..], y, b);
    }
  }

  lemma Exit<V(!new)>(g: Graph<V>, a: V, b: V, S: set<V>)
    returns (x: V, y: V)
    requires Reaches(g, a, b) && a in S && b !in S
    ensures x in S && y !in S && y in Succ(g, x)
    ensures Reaches(g, a, x) && Reaches(g, y, b)
  {
    var p :| PathBetween(g, p, a, b);
    x, y := PathExit(g, p, a, b, S);
  }

  lemma ClosedSetKeepsWalks<V(!new)>(g: Graph<V>, a: V, b: V, S: set<V>)
    requires forall x :: x in S ==> Succ(g, x) <= S
    requires a in S && Reaches(g, a, b)
    ensures b in S
  {
    if b !in S {
      var x, y := Exit(g, a, b, S);
    }
  }

  // Every edge of h can be walked in g, perhaps in several steps.
  ghost predicate EdgesReach<V(!new)>(h: Graph<V>, g: Graph<V>) {
    forall u, v :: v in Succ(h, u) ==> Reaches(g, u, v)
  }

  lemma {:induction false} PathReplayed<V(!new)>(h: Graph<V>, g: Graph<V>, p: seq<V>, a: V, b: V)
    requires EdgesReach(h, g) && PathBetween(h, p, a, b)
    ensures Reaches(g, a, b)
    decreases |p|
  {
    hide Reaches;
    if |p| == 1 {
      ReachesSelf(g, a);
    } else {
      PathReplayed(h, g, p[1..], p[1], b);
      ReachesTrans(g, a, p[1], b);
    }
  }

  lemma ReachesReplayed<V(!new)>(h: Graph<V>, g: Graph<V>, a: V, b: V)
    requires EdgesReach(h, g) && Reaches(h, a, b)
    ensures Reaches(g, a, b)
  {
    var p :| PathBetween(h, p, a, b);
    PathReplayed(h, g, p, a, b);
  }

  lemma MutualIsEquivalence<V(!new)>(g: Graph<V>, a: V, b: V, c: V)
    ensures Mutual(g, a, a)
    ensures Mutual(g, a, b) ==> Mutual(g, b, a)
    ensures Mutual(g, a, b) && Mutual(g, b, c) ==> Mutual(g, a, c)
  {
    ReachesSelf(g, a);
    if Mutual(g, a, b) && Mutual(g, b, c) {
      ReachesTrans(g, a, b, c);
      ReachesTrans(g, c, b, a);
    }
  }

  ghost function Below<V(!new)>(g: Graph<V>, R: set<V>, x: V): set<V> {
    set y | y in R && StrictlyReaches(g, x, y)
  }

  lemma BelowIsPart<V(!new)>(g: Graph<V>, R: set<V>, x: V)
    requires x in R
    ensures Below(g, R, x) <= R
    ensures if StrictlyReaches(g, x, x) then x in Below(g, R, x) else Below(g, R, x) < R
  {
    assert !StrictlyReaches(g, x, x) ==> x !in Below(g, R, x);
  }

  lemma SuccessorStaysBelow<V(!new)>(g: Graph<V>, R: set<V>, x: V, y: V)
    requires Succ(g, y) * R != {} && (y == x || y in Below(g, R, x))
    ensures Succ(g, y) * Below(g, R, x) != {}
  {
    var z :| z in Succ(g, y) * R;
    ReachesSelf(g, z);
    if y != x {
      var s :| s in Succ(g, x) && Reaches(g, s, y);
      ReachesEdge(g, y, z);
      ReachesTrans(g, s, y, z);
    }
    assert StrictlyReaches(g, x, z);
    assert z in Succ(g, y) * Below(g, R, x);
  }

  /** A nonempty set in which every vertex has a successor in the set contains a cycle. */
  lemma {:induction false} NoSinkMakesCycle<V(!new)>(g: Graph<V>, R: set<V>)
    requires R != {}
    requires forall x :: x in R ==> Succ(g, x) * R != {}
    ensures exists u :: u in R && StrictlyReaches(g, u, u)
    decreases R
  {
    hide Reaches, StrictlyReaches, Below;
    var x :| x in R;
    var below := Below(g, R, x);
    BelowIsPart(g, R, x);
    SuccessorStaysBelow(g, R, x, x);
    if !StrictlyReaches(g, x, x) {
      forall y | y in below
        ensures Succ(g, y) * below != {}
      {
        SuccessorStaysBelow(g, R, x, y);
      }
      NoSinkMakesCycle(g, below);
    }
  }

  /** An edge whose ends reach each other lies on a cycle, so a vertex on no cycle is its own class. */
  lemma AcyclicIffSingletonClasses<V(!new)>(g: Graph<V>)
    ensures Acyclic(g) <==> SelfLoopFree(g) && forall a, b :: Mutual(g, a, b) ==> a == b
  {
    if Acyclic(g) {
      forall u | u in g
        ensures u !in g[u]
      {
        ReachesSelf(g, u);
        assert !StrictlyReaches(g, u, u);
      }
      forall a, b | Mutual(g, a, b)
        ensures a == b
      {
        if a != b {
          var x, y := Exit(g, a, b, {a});
          ReachesTrans(g, y, b, a);
          assert StrictlyReaches(g, a, a);
        }
      }
    } else {
      var u :| StrictlyReaches(g, u, u);
      var v :| v in Succ(g, u) && Reaches(g, v, u);
      ReachesEdge(g, u, v);
      assert Mutual(g, u, v);
    }
  }
}

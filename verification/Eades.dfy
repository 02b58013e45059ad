/**
 eades_order of scripts/analyze_root_crate.py: the Eades-Lin-Smyth greedy vertex
 order. A run is described by the sequence of its removals; the theorems are
 about every run the code's rules allow, so they hold for every iteration order
 of the remaining set and every tie-break of the greedy pick.
 */
module Eades {
  import opened Graphs
  import opened Weights

  datatype Removal<V> = Sink(v: V) | Source(v: V) | Pick(v: V)

  predicate IsSink<V(==)>(w: Weighted<V>, R: set<V>, n: V) {
    n in w && forall v :: v in w[n] ==> v !in R
  }

  predicate IsSource<V(==)>(w: Weighted<V>, R: set<V>, n: V) {
    forall u :: u in R && u in w ==> n !in w[u]
  }

  ghost function Score<V>(w: Weighted<V>, R: set<V>, n: V): int {
    Total(w, From(Within(w, R), n)) - Total(w, Into(Within(w, R), n))
  }

  ghost predicate IsBestPick<V(!new)>(w: Weighted<V>, R: set<V>, n: V) {
    forall m :: m in R ==> Score(w, R, m) <= Score(w, R, n)
  }

  ghost predicate NoSinks<V(!new)>(w: Weighted<V>, R: set<V>) {
    forall m {:trigger IsSink(w, R, m)} :: m in R ==> !IsSink(w, R, m)
  }

  ghost predicate NoSources<V(!new)>(w: Weighted<V>, R: set<V>) {
    forall m {:trigger IsSource(w, R, m)} :: m in R ==> !IsSource(w, R, m)
  }

  /** Which removal the code may make while R remains; it picks greedily only when no sink and no source is left. */
  ghost predicate Allowed<V(!new)>(w: Weighted<V>, R: set<V>, x: Removal<V>) {
    && x.v in R
    && match x
       case Sink(n) => IsSink(w, R, n)
       case Source(n) => IsSource(w, R, n)
       case Pick(n) =>
         && IsBestPick(w, R, n)
         && NoSinks(w, R) && NoSources(w, R)
  }

  /** The removals tr take the remaining set from R down to R'. */
  ghost predicate Run<V(!new)>(w: Weighted<V>, R: set<V>, tr: seq<Removal<V>>, R': set<V>) {
    if tr == [] then R == R'
    else Allowed(w, R, tr[0]) && Run(w, R - {tr[0].v}, tr[1..], R')
  }

  lemma {:induction false} RunAppend<V(!new)>(
    w: Weighted<V>, R: set<V>, tr: seq<Removal<V>>, R': set<V>, x: Removal<V>)
    requires Run(w, R, tr, R') && Allowed(w, R', x)
    ensures Run(w, R, tr + [x], R' - {x.v})
    decreases tr
  {
    hide Allowed;
    if tr == [] {
      assert (tr + [x])[1..] == [];
    } else {
      assert (tr + [x])[0] == tr[0];
      RunAppend(w, R - {tr[0].v}, tr[1..], R', x);
      assert (tr + [x])[1..] == tr[1..] + [x];
    }
  }

  // What one removal adds at the end of left, and at the front of right.
  function ToLeft<V>(x: Removal<V>): seq<V> {
    if x.Sink? then [] else [x.v]
  }

  function ToRight<V>(x: Removal<V>): seq<V> {
    if x.Sink? then [x.v] else []
  }

  function Lefts<V>(tr: seq<Removal<V>>): seq<V> {
    if tr == [] then [] else ToLeft(tr[0]) + Lefts(tr[1..])
  }

  function Rights<V>(tr: seq<Removal<V>>): seq<V> {
    if tr == [] then [] else Rights(tr[1..]) + ToRight(tr[0])
  }

  // left + right, as the code returns it.
  function OrderOf<V>(tr: seq<Removal<V>>): seq<V> {
    Lefts(tr) + Rights(tr)
  }

  lemma {:induction false} AppendRemoval<V(!new)>(tr: seq<Removal<V>>, x: Removal<V>)
    ensures Lefts(tr + [x]) == Lefts(tr) + ToLeft(x)
    ensures Rights(tr + [x]) == ToRight(x) + Rights(tr)
    decreases tr
  {
    hide ToLeft, ToRight;
    if tr == [] {
      assert tr + [x] == [x] && [x][1..] == [];
    } else {
      AppendRemoval(tr[1..], x);
      assert (tr + [x])[0] == tr[0] && (tr + [x])[1..] == tr[1..] + [x];
      assert ToLeft(tr[0]) + (Lefts(tr[1..]) + ToLeft(x)) == ToLeft(tr[0]) + Lefts(tr[1..]) + ToLeft(x);
      assert ToRight(x) + Rights(tr[1..]) + ToRight(tr[0]) == ToRight(x) + (Rights(tr[1..]) + ToRight(tr[0]));
    }
  }

  // ---------- the order is a permutation ----------

  ghost predicate Precedes<V(!new)>(o: seq<V>, a: V, b: V) {
    exists i, j :: 0 <= i < j < |o| && o[i] == a && o[j] == b
  }

  /** o lists every node of R exactly once. */
  ghost predicate Lists<V(!new)>(o: seq<V>, R: set<V>) {
    (forall x :: x in R <==> x in o) && NoDuplicates(o)
  }

  lemma {:induction false} OrderListsNodes<V(!new)>(w: Weighted<V>, R: set<V>, tr: seq<Removal<V>>)
    requires Run(w, R, tr, {})
    ensures Lists(OrderOf(tr), R)
    decreases tr
  {
    if tr != [] {
      OrderListsNodes(w, R - {tr[0].v}, tr[1..]);
      OrderIsAround(tr);
      FrontStep(OrderOf(tr), OrderOf(tr[1..]), R, tr[0]);
    }
  }

  // How the order is built around the order of the later removals.
  ghost predicate Around<V>(o: seq<V>, rest: seq<V>, x: Removal<V>) {
    o == ToLeft(x) + rest + ToRight(x)
  }

  lemma OrderIsAround<V(!new)>(tr: seq<Removal<V>>)
    requires tr != []
    ensures Around(OrderOf(tr), OrderOf(tr[1..]), tr[0])
  {
  }

  lemma FrontStep<V(!new)>(o: seq<V>, rest: seq<V>, R: set<V>, x: Removal<V>)
    requires Around(o, rest, x) && x.v in R && Lists(rest, R - {x.v})
    ensures Lists(o, R)
  {
    forall y
      ensures y in R <==> y in o
    {
      assert y in rest <==> y in R - {x.v};
    }
    forall i, j | 0 <= i < j < |o|
      ensures o[i] != o[j]
    {
      assert forall k :: 0 <= k < |rest| ==> rest[k] in R - {x.v};
    }
  }

  lemma PrecedesByPosition<V(!new)>(o: seq<V>, R: set<V>, i: nat, j: nat)
    requires Lists(o, R) && i < |o| && j < |o|
    ensures Precedes(o, o[i], o[j]) <==> i < j
  {
  }

  /** In the order, a removed sink comes after all that remained, any other removal before it. */
  lemma FrontPrecedes<V(!new)>(o: seq<V>, rest: seq<V>, R: set<V>, x: Removal<V>, a: V)
    requires Around(o, rest, x) && x.v in R && Lists(rest, R - {x.v})
    requires a in R && a != x.v
    ensures Precedes(o, x.v, a) <==> !x.Sink?
    ensures Precedes(o, a, x.v) <==> x.Sink?
  {
    hide Precedes;
    FrontStep(o, rest, R, x);
    var i :| 0 <= i < |rest| && rest[i] == a;
    var p, q := if x.Sink? then |rest| else 0, if x.Sink? then i else i + 1;
    assert o[p] == x.v && o[q] == a;
    PrecedesByPosition(o, R, p, q);
    PrecedesByPosition(o, R, q, p);
  }

  lemma RestPrecedes<V(!new)>(o: seq<V>, rest: seq<V>, R: set<V>, x: Removal<V>, a: V, b: V)
    requires Around(o, rest, x) && x.v in R && Lists(rest, R - {x.v})
    requires a in R - {x.v} && b in R - {x.v}
    ensures Precedes(o, a, b) <==> Precedes(rest, a, b)
  {
    hide Precedes;
    FrontStep(o, rest, R, x);
    var i :| 0 <= i < |rest| && rest[i] == a;
    var j :| 0 <= j < |rest| && rest[j] == b;
    var d := |ToLeft(x)|;
    assert o[d + i] == a && o[d + j] == b;
    PrecedesByPosition(o, R, d + i, d + j);
    PrecedesByPosition(rest, R - {x.v}, i, j);
  }

  lemma PrecedesIsTotal<V(!new)>(o: seq<V>, R: set<V>, a: V, b: V)
    requires Lists(o, R) && a in R && b in R && a != b
    ensures Precedes(o, a, b) <==> !Precedes(o, b, a)
  {
    var i :| 0 <= i < |o| && o[i] == a;
    var j :| 0 <= j < |o| && o[j] == b;
  }

  // ---------- which edges point backwards ----------

  ghost function RemainingAt<V>(R: set<V>, tr: seq<Removal<V>>, k: nat): set<V>
    requires k <= |tr|
  {
    R - set i | 0 <= i < k :: tr[i].v
  }

  /** b was taken by the greedy pick while a was still remaining. */
  ghost predicate PickedBefore<V(!new)>(R: set<V>, tr: seq<Removal<V>>, a: V, b: V) {
    exists k :: 0 <= k < |tr| && tr[k] == Pick(b) && a != b && a in RemainingAt(R, tr, k)
  }

  lemma PickedBeforeFromFront<V(!new)>(R: set<V>, tr: seq<Removal<V>>, a: V, b: V)
    requires tr != [] && a in R
    ensures PickedBefore(R, tr, a, b) <==>
            (tr[0] == Pick(b) && a != b) || (a != tr[0].v && PickedBefore(R - {tr[0].v}, tr[1..], a, b))
  {
    var rest, R1 := tr[1..], R - {tr[0].v};
    forall k | 0 <= k < |rest|
      ensures RemainingAt(R, tr, k + 1) == RemainingAt(R1, rest, k)
    {
      assert (set i | 0 <= i < k + 1 :: tr[i].v) == {tr[0].v} + set i | 0 <= i < k :: rest[i].v by {
        forall i | 1 <= i < k + 1
          ensures tr[i].v in set i | 0 <= i < k :: rest[i].v
        {
          assert rest[i - 1] == tr[i];
        }
      }
    }
    if PickedBefore(R, tr, a, b) {
      var k :| 0 <= k < |tr| && tr[k] == Pick(b) && a != b && a in RemainingAt(R, tr, k);
      if k > 0 {
        assert rest[k - 1] == Pick(b) && a in RemainingAt(R1, rest, k - 1);
      }
    }
    if tr[0] == Pick(b) && a != b {
      assert a in RemainingAt(R, tr, 0);
    }
    if a != tr[0].v && PickedBefore(R1, rest, a, b) {
      var k :| 0 <= k < |rest| && rest[k] == Pick(b) && a != b && a in RemainingAt(R1, rest, k);
      assert tr[k + 1] == Pick(b) && a in RemainingAt(R, tr, k + 1);
    }
  }

  lemma EdgeRestrictsRemoval<V(!new)>(w: Weighted<V>, R: set<V>, x: Removal<V>, a: V, b: V)
    requires Allowed(w, R, x) && a in R && b in R && a in w && b in w[a]
    ensures x.v in R && (a == x.v ==> !x.Sink?) && (b == x.v ==> !x.Source?)
  {
  }

  lemma NeverBeforeItself<V(!new)>(o: seq<V>, R: set<V>, tr: seq<Removal<V>>, a: V)
    requires Lists(o, R)
    ensures !Precedes(o, a, a) && !PickedBefore(R, tr, a, a)
  {
  }

  lemma {:induction false} PickedWasRemaining<V(!new)>(w: Weighted<V>, R: set<V>, tr: seq<Removal<V>>, a: V, b: V)
    requires Run(w, R, tr, {}) && a in R && PickedBefore(R, tr, a, b)
    ensures b in R
    decreases tr
  {
    PickedBeforeFromFront(R, tr, a, b);
    if tr[0] != Pick(b) {
      PickedWasRemaining(w, R - {tr[0].v}, tr[1..], a, b);
    }
  }

  /** An edge a -> b goes backwards exactly when b was a greedy pick made while a remained. */
  lemma {:induction false} BackwardIffPickedBefore<V(!new)>(w: Weighted<V>, R: set<V>, tr: seq<Removal<V>>, a: V, b: V)
    requires Run(w, R, tr, {}) && a in R && b in R
    requires a in w && b in w[a]
    ensures Precedes(OrderOf(tr), b, a) <==> PickedBefore(R, tr, a, b)
    decreases tr
  {
    hide Precedes, PickedBefore, OrderOf, Allowed, Lists, Around;
    EdgeRestrictsRemoval(w, R, tr[0], a, b);
    var rest, R1 := tr[1..], R - {tr[0].v};
    PickedBeforeFromFront(R, tr, a, b);
    OrderListsNodes(w, R, tr);
    NeverBeforeItself(OrderOf(tr), R, tr, a);
    OrderListsNodes(w, R1, rest);
    OrderIsAround(tr);
    if a == tr[0].v && a != b {
      FrontPrecedes(OrderOf(tr), OrderOf(rest), R, tr[0], b);
    } else if b == tr[0].v && a != b {
      FrontPrecedes(OrderOf(tr), OrderOf(rest), R, tr[0], a);
      if PickedBefore(R1, rest, a, b) {
        PickedWasRemaining(w, R1, rest, a, b);
      }
    } else if a != b {
      RestPrecedes(OrderOf(tr), OrderOf(rest), R, tr[0], b, a);
      BackwardIffPickedBefore(w, R1, rest, a, b);
    }
  }

  // ---------- the weight of the backward edges ----------

  ghost function Backward<V(!new)>(w: Weighted<V>, R: set<V>, o: seq<V>): set<Arc<V>> {
    set a | a in Within(w, R) && Precedes(o, a.dst, a.src)
  }

  // Arcs between n and the rest of R, without a self-loop.
  function Entering<V(==)>(w: Weighted<V>, R: set<V>, n: V): set<Arc<V>> {
    set a | a in Within(w, R) && a.dst == n && a.src != n
  }

  function Leaving<V(==)>(w: Weighted<V>, R: set<V>, n: V): set<Arc<V>> {
    set a | a in Within(w, R) && a.src == n && a.dst != n
  }

  lemma WithinSplits<V(!new)>(w: Weighted<V>, R: set<V>, n: V)
    requires n in R
    ensures Total(w, Within(w, R - {n})) + Total(w, Entering(w, R, n)) + Total(w, Leaving(w, R, n))
            <= Total(w, Within(w, R))
  {
    var A, B, C := Within(w, R - {n}), Entering(w, R, n), Leaving(w, R, n);
    TotalUnion(w, A, B);
    TotalUnion(w, A + B, C);
    TotalMonotone(w, A + B + C, Within(w, R));
  }

  lemma ScoreIgnoresSelfLoop<V(!new)>(w: Weighted<V>, R: set<V>, n: V)
    ensures Score(w, R, n) == Total(w, Leaving(w, R, n)) - Total(w, Entering(w, R, n))
  {
    hide Total;
    var W := Within(w, R);
    var self := set a | a in W && a.src == n && a.dst == n;
    assert From(W, n) == Leaving(w, R, n) + self;
    assert Into(W, n) == Entering(w, R, n) + self;
    TotalUnion(w, Leaving(w, R, n), self);
    TotalUnion(w, Entering(w, R, n), self);
  }

  /** The best pick's score is not negative, because the scores of all remaining nodes add up to zero. */
  lemma PickTakesInNoMore<V(!new)>(w: Weighted<V>, R: set<V>, n: V)
    requires n in R && IsBestPick(w, R, n)
    ensures Total(w, Entering(w, R, n)) <= Total(w, Leaving(w, R, n))
  {
    hide Total, Within, From, Into;
    SomeNodeHasNoDeficit(w, R);
    var m :| m in R && Total(w, From(Within(w, R), m)) >= Total(w, Into(Within(w, R), m));
    assert 0 <= Score(w, R, m) <= Score(w, R, n);
    ScoreIgnoresSelfLoop(w, R, n);
  }

  lemma BackwardFromFront<V(!new)>(w: Weighted<V>, R: set<V>, tr: seq<Removal<V>>)
    requires tr != [] && Run(w, R, tr, {})
    ensures Backward(w, R, OrderOf(tr)) ==
            Backward(w, R - {tr[0].v}, OrderOf(tr[1..]))
            + if tr[0].Pick? then Entering(w, R, tr[0].v) else {}
  {
    hide Precedes, Lists, OrderOf, Around, Allowed;
    var x, rest := tr[0], tr[1..];
    var o, o1, R1 := OrderOf(tr), OrderOf(rest), R - {x.v};
    OrderListsNodes(w, R, tr);
    OrderListsNodes(w, R1, rest);
    OrderIsAround(tr);
    forall a | a in Within(w, R)
      ensures Precedes(o, a.dst, a.src) <==>
              (a in Within(w, R1) && Precedes(o1, a.dst, a.src)) || (x.Pick? && a in Entering(w, R, x.v))
    {
      EdgeRestrictsRemoval(w, R, x, a.src, a.dst);
      NeverBeforeItself(o, R, tr, a.src);
      if a.src == x.v && a.dst != x.v {
        FrontPrecedes(o, o1, R, x, a.dst);
      } else if a.dst == x.v && a.src != x.v {
        FrontPrecedes(o, o1, R, x, a.src);
      } else if a.src != x.v {
        RestPrecedes(o, o1, R, x, a.dst, a.src);
      }
    }
  }

  /** In every run the edges that point backwards carry at most half of the total weight. */
  lemma {:induction false} BackwardIsAtMostHalf<V(!new)>(w: Weighted<V>, R: set<V>, tr: seq<Removal<V>>)
    requires Run(w, R, tr, {})
    ensures 2 * Total(w, Backward(w, R, OrderOf(tr))) <= Total(w, Within(w, R))
    decreases tr
  {
    hide Total, Backward, OrderOf, Within, IsBestPick, Entering, Allowed;
    if tr == [] {
      NothingBackward(w, OrderOf(tr));
    } else {
      var n, R1 := tr[0].v, R - {tr[0].v};
      AllowedFacts(w, R, tr[0]);
      BackwardIsAtMostHalf(w, R1, tr[1..]);
      BackwardFromFront(w, R, tr);
      WithinSplits(w, R, n);
      if tr[0].Pick? {
        PickTakesInNoMore(w, R, n);
        EnteringIsNew(w, R, n, OrderOf(tr[1..]));
        TotalUnion(w, Backward(w, R1, OrderOf(tr[1..])), Entering(w, R, n));
      } else {
        assert Backward(w, R, OrderOf(tr)) == Backward(w, R1, OrderOf(tr[1..]));
      }
    }
  }

  lemma AllowedFacts<V(!new)>(w: Weighted<V>, R: set<V>, x: Removal<V>)
    requires Allowed(w, R, x)
    ensures x.v in R && (x.Pick? ==> IsBestPick(w, R, x.v))
  {
  }

  lemma NothingBackward<V(!new)>(w: Weighted<V>, o: seq<V>)
    ensures Total(w, Backward(w, {}, o)) == 0
  {
  }

  lemma EnteringIsNew<V(!new)>(w: Weighted<V>, R: set<V>, n: V, o: seq<V>)
    ensures Backward(w, R - {n}, o) !! Entering(w, R, n)
  {
  }

  // ---------- acyclic graphs ----------

  ghost predicate PicksNothing<V>(tr: seq<Removal<V>>) {
    forall i :: 0 <= i < |tr| ==> !tr[i].Pick?
  }

  lemma PickMeansCycle<V(!new)>(w: Weighted<V>, R: set<V>, x: Removal<V>)
    requires R <= w.Keys && Allowed(w, R, x) && x.Pick?
    ensures !Acyclic(Links(w))
  {
    hide IsBestPick, StrictlyReaches;
    forall n | n in R
      ensures Succ(Links(w), n) * R != {}
    {
      assert !IsSink(w, R, n);
      var v :| v in w[n] && v in R;
      assert v in Succ(Links(w), n) * R;
    }
    NoSinkMakesCycle(Links(w), R);
  }

  lemma {:induction false} AcyclicPicksNothing<V(!new)>(w: Weighted<V>, R: set<V>, tr: seq<Removal<V>>)
    requires Acyclic(Links(w)) && R <= w.Keys && Run(w, R, tr, {})
    ensures PicksNothing(tr)
    decreases tr
  {
    hide Acyclic, Allowed;
    if tr != [] {
      AcyclicPicksNothing(w, R - {tr[0].v}, tr[1..]);
      if tr[0].Pick? {
        PickMeansCycle(w, R, tr[0]);
      }
      assert forall i :: 0 < i < |tr| ==> tr[i] == tr[1..][i - 1];
    }
  }

  /** Every edge leads to a later place in the order. */
  ghost predicate Topological<V(!new)>(g: Graph<V>, o: seq<V>) {
    forall u, v :: v in Succ(g, u) ==> Precedes(o, u, v)
  }

  lemma TopologicalMeansAcyclic<V(!new)>(g: Graph<V>, o: seq<V>, R: set<V>)
    requires Lists(o, R) && Topological(g, o)
    ensures Acyclic(g)
  {
    forall u | StrictlyReaches(g, u, u)
      ensures false
    {
      var v :| v in Succ(g, u) && Reaches(g, v, u);
      assert Precedes(o, u, v);
      var i, j :| 0 <= i < j < |o| && o[i] == u && o[j] == v;
      var later := set k | j <= k < |o| :: o[k];
      forall x | x in later
        ensures Succ(g, x) <= later
      {
        LaterIsClosed(g, o, R, j, x);
      }
      ClosedSetKeepsWalks(g, v, u, later);
    }
  }

  lemma LaterIsClosed<V(!new)>(g: Graph<V>, o: seq<V>, R: set<V>, j: nat, x: V)
    requires Lists(o, R) && Topological(g, o) && j < |o|
    requires x in set k | j <= k < |o| :: o[k]
    ensures Succ(g, x) <= set k | j <= k < |o| :: o[k]
  {
    forall y | y in Succ(g, x)
      ensures y in set k | j <= k < |o| :: o[k]
    {
      assert Precedes(o, x, y);
      var p, q :| 0 <= p < q < |o| && o[p] == x && o[q] == y;
      var k :| j <= k < |o| && o[k] == x;
      assert p == k;
    }
  }

  lemma {:induction false} SelfLoopIsPicked<V(!new)>(w: Weighted<V>, R: set<V>, tr: seq<Removal<V>>, a: V)
    requires Run(w, R, tr, {}) && a in R && a in w && a in w[a]
    ensures !PicksNothing(tr)
    decreases tr
  {
    hide Allowed;
    EdgeRestrictsRemoval(w, R, tr[0], a, a);
    if tr[0].v == a {
      assert tr[0].Pick?;
    } else {
      SelfLoopIsPicked(w, R - {tr[0].v}, tr[1..], a);
      var i :| 0 <= i < |tr[1..]| && tr[1..][i].Pick?;
      assert tr[i + 1].Pick?;
    }
  }

  lemma NoPickMeansTopological<V(!new)>(w: Weighted<V>, tr: seq<Removal<V>>)
    requires Closed(w) && Run(w, w.Keys, tr, {}) && PicksNothing(tr)
    ensures Topological(Links(w), OrderOf(tr))
  {
    hide Precedes, Run, OrderOf, Lists;
    OrderListsNodes(w, w.Keys, tr);
    forall u, v | v in Succ(Links(w), u)
      ensures Precedes(OrderOf(tr), u, v)
    {
      if u == v {
        SelfLoopIsPicked(w, w.Keys, tr, u);
      } else {
        BackwardIffPickedBefore(w, w.Keys, tr, u, v);
        PrecedesIsTotal(OrderOf(tr), w.Keys, u, v);
      }
    }
  }

  /** The greedy pick is reached exactly when the graph has a cycle; without it the order is topological. */
  lemma PicksExactlyOnCycles<V(!new)>(w: Weighted<V>, tr: seq<Removal<V>>)
    requires Closed(w) && Run(w, w.Keys, tr, {})
    ensures PicksNothing(tr) <==> Acyclic(Links(w))
    ensures PicksNothing(tr) <==> Topological(Links(w), OrderOf(tr))
  {
    hide Run, Lists, PicksNothing, Acyclic, Topological, OrderOf;
    OrderListsNodes(w, w.Keys, tr);
    if PicksNothing(tr) {
      NoPickMeansTopological(w, tr);
    }
    if Topological(Links(w), OrderOf(tr)) {
      TopologicalMeansAcyclic(Links(w), OrderOf(tr), w.Keys);
    }
    if Acyclic(Links(w)) {
      AcyclicPicksNothing(w, w.Keys, tr);
    }
  }

  // The links left when the backward ones are cut.
  ghost function ForwardLinks<V(!new)>(w: Weighted<V>, o: seq<V>): Graph<V> {
    map u | u in w :: set v | v in w[u] && !Precedes(o, v, u)
  }

  /** Cutting the backward edges of any order leaves no cycle, unless some node links to itself. */
  lemma CutLeavesNoCycle<V(!new)>(w: Weighted<V>, o: seq<V>)
    requires Closed(w) && Lists(o, w.Keys)
    ensures Acyclic(ForwardLinks(w, o)) <==> SelfLoopFree(Links(w))
  {
    var g := ForwardLinks(w, o);
    if SelfLoopFree(Links(w)) {
      forall u, v | v in Succ(g, u)
        ensures Precedes(o, u, v)
      {
        assert u in Links(w) && v in Links(w)[u];
        PrecedesIsTotal(o, w.Keys, u, v);
      }
      TopologicalMeansAcyclic(g, o, w.Keys);
    } else {
      var u :| u in Links(w) && u in Links(w)[u];
      assert !Precedes(o, u, u);
      ReachesSelf(g, u);
      assert u in Succ(g, u) && StrictlyReaches(g, u, u);
    }
  }

  // ---------- the code ----------

  lemma TotalWithNew<V(!new)>(w: Weighted<V>, A: set<Arc<V>>, a: Arc<V>)
    requires a !in A
    ensures Total(w, A + {a}) == Total(w, A) + WeightOf(w, a)
  {
    TotalRemove(w, A + {a}, a);
    assert A + {a} - {a} == A;
  }

  // The arcs score has added up once the targets in S are behind it.
  function OutSoFar<V(==)>(w: Weighted<V>, R: set<V>, n: V, S: set<V>): set<Arc<V>> {
    set a | a in Within(w, R) && a.src == n && a.dst in S
  }

  function InSoFar<V(==)>(w: Weighted<V>, R: set<V>, n: V, S: set<V>): set<Arc<V>> {
    set a | a in Within(w, R) && a.dst == n && a.src in S
  }

  method OutWeight<V(==, !new)>(w: Weighted<V>, R: set<V>, n: V) returns (o: nat)
    requires n in R && n in w
    ensures o == Total(w, From(Within(w, R), n))
  {
    hide Total;
    o := 0;
    var todo, all := w[n].Keys, w[n].Keys;
    assert OutSoFar(w, R, n, {}) == {};
    assert Total(w, OutSoFar(w, R, n, all - todo)) == 0 by {
      assert all - todo == {};
      TotalOfNone(w);
    }
    while todo != {}
      invariant todo <= all
      invariant o == Total(w, OutSoFar(w, R, n, all - todo))
    {
      var v :| v in todo;
      ghost var A := OutSoFar(w, R, n, all - todo);
      todo := todo - {v};
      if v in R {
        o := o + w[n][v];
        TotalWithNew(w, A, Arc(n, v));
        assert OutSoFar(w, R, n, all - todo) == A + {Arc(n, v)};
      } else {
        assert OutSoFar(w, R, n, all - todo) == A;
      }
    }
    assert OutSoFar(w, R, n, all - todo) == From(Within(w, R), n);
  }

  lemma TotalOfNone<V(!new)>(w: Weighted<V>)
    ensures Total(w, {}) == 0
  {
  }

  method InWeight<V(==, !new)>(w: Weighted<V>, R: set<V>, n: V) returns (i: nat)
    requires n in R && R <= w.Keys
    ensures i == Total(w, Into(Within(w, R), n))
  {
    hide Total;
    i := 0;
    var todo := R;
    assert InSoFar(w, R, n, {}) == {};
    assert Total(w, InSoFar(w, R, n, R - todo)) == 0 by {
      assert R - todo == {};
      TotalOfNone(w);
    }
    while todo != {}
      invariant todo <= R
      invariant i == Total(w, InSoFar(w, R, n, R - todo))
    {
      var u :| u in todo;
      ghost var A := InSoFar(w, R, n, R - todo);
      todo := todo - {u};
      if n in w[u] {
        i := i + w[u][n];
        TotalWithNew(w, A, Arc(u, n));
        assert InSoFar(w, R, n, R - todo) == A + {Arc(u, n)};
      } else {
        assert InSoFar(w, R, n, R - todo) == A;
      }
    }
    assert InSoFar(w, R, n, R - todo) == Into(Within(w, R), n);
  }

  /** max(remaining, key=score), with ties broken by an arbitrary iteration order. */
  method BestPick<V(==, !new)>(w: Weighted<V>, R: set<V>) returns (pick: V)
    requires R != {} && R <= w.Keys
    ensures pick in R && IsBestPick(w, R, pick)
  {
    hide Total, Within, From, Into;
    pick :| pick in R;
    var best := ScoreOf(w, R, pick);
    var todo := R - {pick};
    while todo != {}
      invariant todo <= R && pick in R && best == Score(w, R, pick)
      invariant forall m :: m in R - todo ==> Score(w, R, m) <= best
    {
      var m :| m in todo;
      var s := ScoreOf(w, R, m);
      if s > best {
        pick, best := m, s;
      }
      todo := todo - {m};
    }
  }

  method ScoreOf<V(==, !new)>(w: Weighted<V>, R: set<V>, n: V) returns (s: int)
    requires n in R && R <= w.Keys
    ensures s == Score(w, R, n)
  {
    var o: int := OutWeight(w, R, n);
    var i: int := InWeight(w, R, n);
    s := o - i;
  }

  /** left and right hold what the removals so far put there. */
  ghost predicate Progress<V(!new)>(
    w: Weighted<V>, left: seq<V>, right: seq<V>, remaining: set<V>, tr: seq<Removal<V>>)
  {
    && remaining <= w.Keys
    && Run(w, w.Keys, tr, remaining)
    && left == Lefts(tr) && right == Rights(tr)
  }

  lemma ProgressStep<V(!new)>(
    w: Weighted<V>, left: seq<V>, right: seq<V>, remaining: set<V>, tr: seq<Removal<V>>, x: Removal<V>)
    requires Progress(w, left, right, remaining, tr) && Allowed(w, remaining, x)
    ensures Progress(w, left + ToLeft(x), ToRight(x) + right, remaining - {x.v}, tr + [x])
  {
    hide Run, Allowed;
    RunAppend(w, w.Keys, tr, remaining, x);
    AppendRemoval(tr, x);
  }

  /** One pass of the inner loop that moves sinks to the right. */
  method MoveSinks<V(==, !new)>(w: Weighted<V>, left: seq<V>, right: seq<V>, remaining: set<V>,
                            ghost tr: seq<Removal<V>>)
    returns (right': seq<V>, remaining': set<V>, changed: bool, ghost tr': seq<Removal<V>>)
    requires Progress(w, left, right, remaining, tr)
    ensures Progress(w, left, right', remaining', tr')
    ensures if changed then remaining' < remaining else remaining' == remaining
    ensures !changed ==> NoSinks(w, remaining)
  {
    hide Progress, ToLeft, ToRight;
    right', remaining', changed, tr' := right, remaining, false, tr;
    var todo := remaining;
    while todo != {}
      invariant todo <= remaining' <= remaining
      invariant Progress(w, left, right', remaining', tr')
      invariant if changed then remaining' < remaining else remaining' == remaining
      invariant !changed ==> forall m :: m in remaining - todo ==> !IsSink(w, remaining, m)
    {
      var n :| n in todo;
      todo := todo - {n};
      if IsSink(w, remaining', n) {
        ProgressStep(w, left, right', remaining', tr', Sink(n));
        SidesOf(left, right', Sink(n));
        right', remaining', changed, tr' := [n] + right', remaining' - {n}, true, tr' + [Sink(n)];
      }
    }
  }

  lemma SidesOf<V>(left: seq<V>, right: seq<V>, x: Removal<V>)
    ensures left + ToLeft(x) == if x.Sink? then left else left + [x.v]
    ensures ToRight(x) + right == if x.Sink? then [x.v] + right else right
  {
  }

  /** One pass of the inner loop that moves sources to the left. */
  method MoveSources<V(==, !new)>(w: Weighted<V>, left: seq<V>, right: seq<V>, remaining: set<V>,
                              ghost tr: seq<Removal<V>>)
    returns (left': seq<V>, remaining': set<V>, changed: bool, ghost tr': seq<Removal<V>>)
    requires Progress(w, left, right, remaining, tr)
    ensures Progress(w, left', right, remaining', tr')
    ensures if changed then remaining' < remaining else remaining' == remaining
    ensures !changed ==> NoSources(w, remaining)
  {
    hide Progress, ToLeft, ToRight;
    left', remaining', changed, tr' := left, remaining, false, tr;
    var todo := remaining;
    while todo != {}
      invariant todo <= remaining' <= remaining
      invariant Progress(w, left', right, remaining', tr')
      invariant if changed then remaining' < remaining else remaining' == remaining
      invariant !changed ==> forall m :: m in remaining - todo ==> !IsSource(w, remaining, m)
    {
      var n :| n in todo;
      todo := todo - {n};
      if IsSource(w, remaining', n) {
        ProgressStep(w, left', right, remaining', tr', Source(n));
        SidesOf(left', right, Source(n));
        left', remaining', changed, tr' := left' + [n], remaining' - {n}, true, tr' + [Source(n)];
      }
    }
  }

  /** eades_order: a permutation, at most half the weight backwards, and topological if anything is. */
  method EadesOrder<V(==, !new)>(w: Weighted<V>) returns (order: seq<V>, ghost tr: seq<Removal<V>>)
    requires Closed(w)
    ensures Run(w, w.Keys, tr, {}) && order == OrderOf(tr)
    ensures Lists(order, w.Keys)
    ensures 2 * Total(w, Backward(w, w.Keys, order)) <= Total(w, ArcsOf(w))
    ensures Topological(Links(w), order) <==> Acyclic(Links(w))
  {
    hide Run, OrderOf, Lists, Backward, Total, Topological, Acyclic;
    order, tr := GreedyOrder(w);
    OrderListsNodes(w, w.Keys, tr);
    BackwardIsAtMostHalf(w, w.Keys, tr);
    assert Within(w, w.Keys) == ArcsOf(w);
    PicksExactlyOnCycles(w, tr);
  }

  /** The loops of eades_order. */
  method GreedyOrder<V(==, !new)>(w: Weighted<V>) returns (order: seq<V>, ghost tr: seq<Removal<V>>)
    ensures Run(w, w.Keys, tr, {}) && order == OrderOf(tr)
  {
    var remaining, left, right := w.Keys, [], [];
    tr := [];
    while remaining != {}
      invariant Progress(w, left, right, remaining, tr)
      decreases remaining
    {
      hide Progress, ToLeft, ToRight, IsBestPick, NoSinks, NoSources;
      ghost var before := remaining;
      var changed := true;
      while changed
        invariant Progress(w, left, right, remaining, tr) && remaining <= before
        invariant !changed ==> NoSinks(w, remaining) && NoSources(w, remaining)
        decreases remaining, changed
      {
        var sinksMoved, sourcesMoved;
        right, remaining, sinksMoved, tr := MoveSinks(w, left, right, remaining, tr);
        left, remaining, sourcesMoved, tr := MoveSources(w, left, right, remaining, tr);
        changed := sinksMoved || sourcesMoved;
      }
      if remaining == {} {
        break;
      }
      ProgressInKeys(w, left, right, remaining, tr);
      var pick := BestPick(w, remaining);
      ProgressStep(w, left, right, remaining, tr, Pick(pick));
      SidesOf(left, right, Pick(pick));
      left, remaining, tr := left + [pick], remaining - {pick}, tr + [Pick(pick)];
    }
    order := left + right;
  }

  lemma ProgressInKeys<V(!new)>(
    w: Weighted<V>, left: seq<V>, right: seq<V>, remaining: set<V>, tr: seq<Removal<V>>)
    requires Progress(w, left, right, remaining, tr)
    ensures remaining <= w.Keys
  {
  }
}

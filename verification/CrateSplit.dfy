/**
 The cycle report in main of scripts/analyze_root_crate.py: which modules form
 dependency cycles, which edges to cut, and what evicting one module costs.
 */
module CrateSplit {
  import opened Graphs
  import opened Tarjan
  import opened Weights
  import opened Eades

  /** What the scan of src/ found out about one module. */
  datatype ModuleInfo<V> = ModuleInfo(loc: nat, fullyFacade: bool, outbound: set<V>, refCounts: map<V, nat>)

  type Modules<V> = map<V, ModuleInfo<V>>

  predicate IsNode<V(==)>(info: Modules<V>, n: V) {
    n in info && !info[n].fullyFacade
  }

  // Only modules that still hold code of their own are nodes, and references to oneself are no edges.
  function ModuleGraph<V(==)>(info: Modules<V>): Graph<V> {
    map n | n in info && !info[n].fullyFacade :: set d | d in info[n].outbound && IsNode(info, d) && d != n
  }

  function RefCount<V(==)>(m: ModuleInfo<V>, d: V): nat {
    if d in m.refCounts then m.refCounts[d] else 1
  }

  // out_edges: the weighted edges between the members of one cycle.
  function CycleEdges<V(==)>(info: Modules<V>, big: seq<V>): Weighted<V>
    requires forall n :: n in big ==> IsNode(info, n)
  {
    map n | n in big ::
      assert IsNode(info, n);
      map d | d in info[n].outbound && d in big && d != n :: RefCount(info[n], d)
  }

  // ---------- "the in-root module graph is already a DAG" ----------

  // n shares its class with no other module.
  ghost predicate Alone<V(!new)>(g: Graph<V>, n: V) {
    forall z :: Mutual(g, n, z) ==> z == n
  }

  lemma SingletonListIffAlone<V(!new)>(g: Graph<V>, c: seq<V>, n: V)
    requires IsClass(g, c) && n in c
    ensures c == [n] <==> Alone(g, n)
    ensures |c| == 1 <==> Alone(g, n)
  {
    hide Mutual;
    if Alone(g, n) {
      forall i | 0 <= i < |c|
        ensures c[i] == n
      {
        assert c[i] in c && Mutual(g, n, c[i]);
      }
      assert c[0] == c[|c| - 1];
    }
  }

  lemma ListOf<V(!new)>(g: Graph<V>, r: seq<seq<V>>, n: V) returns (i: nat)
    requires IsCondensation(g, r) && n in Vertices(g)
    ensures i < |r| && n in r[i] && IsClass(g, r[i])
  {
    hide IsClass, LeadsBack;
    assert ListedBy(r, |r| - 1, n);
    i :| 0 <= i < |r| && n in r[i];
  }

  lemma NoVertexIsAlone<V(!new)>(g: Graph<V>, n: V)
    requires n !in Vertices(g)
    ensures Alone(g, n)
  {
    forall z | Mutual(g, n, z)
      ensures z == n
    {
      if z != n {
        var x, y := Exit(g, n, z, {n});
      }
    }
  }

  /** No list of a condensation has a second member exactly when a graph without self-loops has no cycle. */
  lemma NoCyclesReportedIffDag<V(!new)>(g: Graph<V>, r: seq<seq<V>>)
    requires IsCondensation(g, r) && SelfLoopFree(g)
    ensures Acyclic(g) <==> forall i :: 0 <= i < |r| ==> |r[i]| == 1
  {
    hide Mutual, Acyclic, SelfLoopFree, IsClass, LeadsBack, Covers;
    AcyclicIffSingletonClasses(g);
    AllAlone(g);
    if forall n :: Alone(g, n) {
      forall i | 0 <= i < |r|
        ensures |r[i]| == 1
      {
        ListHasHead(g, r[i]);
        SingletonListIffAlone(g, r[i], r[i][0]);
      }
    }
    if forall i :: 0 <= i < |r| ==> |r[i]| == 1 {
      forall n
        ensures Alone(g, n)
      {
        if n in Vertices(g) {
          var i := ListOf(g, r, n);
          SingletonListIffAlone(g, r[i], n);
        } else {
          NoVertexIsAlone(g, n);
        }
      }
    }
  }

  lemma AllAlone<V(!new)>(g: Graph<V>)
    ensures (forall a, b :: Mutual(g, a, b) ==> a == b) <==> forall n :: Alone(g, n)
  {
    hide Mutual;
    if forall n :: Alone(g, n) {
      forall a, b | Mutual(g, a, b)
        ensures a == b
      {
        assert Alone(g, a);
      }
    }
  }

  lemma ListHasHead<V(!new)>(g: Graph<V>, c: seq<V>)
    requires IsClass(g, c)
    ensures c != []
  {
  }

  // ---------- inverting or cutting edges ----------

  /** g after the arcs in cuts have been taken out, and those of them in inverted put back the other way round. */
  ghost function Rework<V(!new)>(g: Graph<V>, cuts: set<Arc<V>>, inverted: set<Arc<V>>): Graph<V> {
    map u | u in g.Keys + (set a | a in inverted :: a.dst) ::
      (set v | v in Succ(g, u) && Arc(u, v) !in cuts) + (set a | a in inverted && a.dst == u :: a.src)
  }

  lemma ReworkEdge<V(!new)>(g: Graph<V>, cuts: set<Arc<V>>, inverted: set<Arc<V>>, u: V, v: V)
    ensures v in Succ(Rework(g, cuts, inverted), u) <==>
            (v in Succ(g, u) && Arc(u, v) !in cuts) || Arc(v, u) in inverted
  {
    var h := Rework(g, cuts, inverted);
    if Arc(v, u) in inverted {
      assert u in h && v in h[u];
    }
    if v in Succ(h, u) && !(v in Succ(g, u) && Arc(u, v) !in cuts) {
      var a :| a in inverted && a.dst == u && a.src == v;
      assert a == Arc(v, u);
    }
  }

  // The inverted arcs join modules that reach each other, so they open no new way.
  ghost predicate WithinClasses<V(!new)>(g: Graph<V>, arcs: set<Arc<V>>) {
    forall a :: a in arcs ==> Reaches(g, a.dst, a.src)
  }

  lemma ReworkOpensNoWay<V(!new)>(g: Graph<V>, cuts: set<Arc<V>>, inverted: set<Arc<V>>)
    requires WithinClasses(g, inverted)
    ensures EdgesReach(Rework(g, cuts, inverted), g)
  {
    hide Reaches, Rework;
    forall u, v | v in Succ(Rework(g, cuts, inverted), u)
      ensures Reaches(g, u, v)
    {
      ReworkEdge(g, cuts, inverted, u, v);
      if Arc(v, u) !in inverted {
        ReachesEdge(g, u, v);
      } else {
        assert Reaches(g, Arc(v, u).dst, Arc(v, u).src);
      }
    }
  }

  // w holds the edges of g between the members of c.
  ghost predicate RestrictsTo<V(!new)>(g: Graph<V>, c: seq<V>, w: Weighted<V>) {
    && w.Keys == Elements(c)
    && forall u, v :: u in w ==> (v in w[u] <==> v in Succ(g, u) && v in c)
  }

  lemma RestrictionFacts<V(!new)>(g: Graph<V>, c: seq<V>, w: Weighted<V>)
    requires RestrictsTo(g, c, w)
    ensures Closed(w)
  {
  }

  lemma BackwardWithinClass<V(!new)>(g: Graph<V>, c: seq<V>, w: Weighted<V>, o: seq<V>, inverted: set<Arc<V>>)
    requires IsClass(g, c) && RestrictsTo(g, c, w) && inverted <= Backward(w, w.Keys, o)
    ensures WithinClasses(g, inverted)
    ensures forall a :: a in inverted ==> a.src in c && a.dst in c
  {
    hide Precedes, Reaches;
    forall a | a in inverted
      ensures Reaches(g, a.dst, a.src)
    {
      assert a.dst in c && a.src in c && Mutual(g, a.dst, a.src);
    }
  }

  // The edges of h between the members of c.
  ghost function InnerLinks<V(!new)>(h: Graph<V>, c: seq<V>): Graph<V> {
    map u | u in c :: set v | v in Succ(h, u) && v in c
  }

  lemma StaysInClass<V(!new)>(g: Graph<V>, h: Graph<V>, c: seq<V>, x: V, z: V, y: V)
    requires IsClass(g, c) && x in c && y in c
    requires EdgesReach(h, g) && z in Succ(h, x) && Reaches(h, z, y)
    ensures z in c
  {
    hide Reaches;
    ReachesReplayed(h, g, z, y);
    assert Reaches(g, x, z);
    assert Mutual(g, x, y);
    ReachesTrans(g, z, y, x);
    assert Mutual(g, x, z);
  }

  /** A walk between two members of a class stays in the class, so it only uses edges between members. */
  lemma {:induction false} ClassWalkIsInner<V(!new)>(g: Graph<V>, h: Graph<V>, c: seq<V>, p: seq<V>, x: V, y: V)
    requires IsClass(g, c) && x in c && y in c && EdgesReach(h, g)
    requires PathBetween(h, p, x, y)
    ensures Reaches(InnerLinks(h, c), x, y)
    decreases |p|
  {
    hide IsClass, EdgesReach, Reaches;
    var inner := InnerLinks(h, c);
    if |p| == 1 {
      ReachesSelf(inner, x);
    } else {
      var z := p[1];
      PathReaches(h, p[1..], z, y);
      StaysInClass(g, h, c, x, z, y);
      assert z in Succ(inner, x);
      ClassWalkIsInner(g, h, c, p[1..], z, y);
      ReachesCons(inner, x, z, y);
    }
  }

  lemma PathReaches<V(!new)>(g: Graph<V>, p: seq<V>, a: V, b: V)
    requires PathBetween(g, p, a, b)
    ensures Reaches(g, a, b)
  {
  }

  lemma ClassCycleIsInner<V(!new)>(g: Graph<V>, h: Graph<V>, c: seq<V>, u: V)
    requires IsClass(g, c) && u in c && EdgesReach(h, g) && StrictlyReaches(h, u, u)
    ensures StrictlyReaches(InnerLinks(h, c), u, u)
  {
    hide IsClass, EdgesReach, Reaches;
    var v :| v in Succ(h, u) && Reaches(h, v, u);
    StaysInClass(g, h, c, u, v, u);
    var p := ReachesPath(h, v, u);
    ClassWalkIsInner(g, h, c, p, v, u);
    assert v in Succ(InnerLinks(h, c), u);
  }

  lemma ReachesPath<V(!new)>(g: Graph<V>, a: V, b: V) returns (p: seq<V>)
    requires Reaches(g, a, b)
    ensures PathBetween(g, p, a, b)
  {
    p :| PathBetween(g, p, a, b);
  }

  /** With the backward edges inverted or cut, every edge between members leads forward in the order. */
  lemma ReworkedRunsForward<V(!new)>(g: Graph<V>, c: seq<V>, w: Weighted<V>, o: seq<V>, inverted: set<Arc<V>>)
    requires SelfLoopFree(g) && RestrictsTo(g, c, w) && Lists(o, w.Keys) && inverted <= Backward(w, w.Keys, o)
    ensures Topological(InnerLinks(Rework(g, Backward(w, w.Keys, o), inverted), c), o)
  {
    hide Precedes, Lists, Rework;
    var cuts := Backward(w, w.Keys, o);
    var h := Rework(g, cuts, inverted);
    forall u, v | v in Succ(InnerLinks(h, c), u)
      ensures Precedes(o, u, v)
    {
      ReworkEdge(g, cuts, inverted, u, v);
      if Arc(v, u) !in inverted {
        assert Arc(u, v) in Within(w, w.Keys) && Arc(u, v) !in cuts;
        assert u != v;
        PrecedesIsTotal(o, w.Keys, u, v);
      }
    }
  }

  /**
   Inverting or cutting the reported edges, each as one likes, takes every member of the cycle off all cycles of the
   whole module graph.
   */
  lemma CutsClearTheClass<V(!new)>(g: Graph<V>, c: seq<V>, w: Weighted<V>, o: seq<V>, inverted: set<Arc<V>>, u: V)
    requires SelfLoopFree(g) && IsClass(g, c) && RestrictsTo(g, c, w) && Lists(o, w.Keys)
    requires inverted <= Backward(w, w.Keys, o) && u in c
    ensures !StrictlyReaches(Rework(g, Backward(w, w.Keys, o), inverted), u, u)
  {
    hide IsClass, RestrictsTo, Lists, Backward, Topological, StrictlyReaches, EdgesReach, Rework, InnerLinks;
    var h := Rework(g, Backward(w, w.Keys, o), inverted);
    BackwardWithinClass(g, c, w, o, inverted);
    ReworkOpensNoWay(g, Backward(w, w.Keys, o), inverted);
    ReworkedRunsForward(g, c, w, o, inverted);
    TopologicalMeansAcyclic(InnerLinks(h, c), o, w.Keys);
    if StrictlyReaches(h, u, u) {
      ClassCycleIsInner(g, h, c, u);
    }
  }

  lemma AloneHasNoWayBack<V(!new)>(g: Graph<V>, u: V, v: V)
    requires Alone(g, u) && Reaches(g, u, v) && v != u
    ensures !Reaches(g, v, u)
  {
    hide Reaches;
    assert !Mutual(g, u, v);
  }

  // A module alone in its class, with none of its own edges inverted, is on no cycle.
  lemma AloneIsOnNoCycle<V(!new)>(g: Graph<V>, cuts: set<Arc<V>>, inverted: set<Arc<V>>, u: V)
    requires SelfLoopFree(g) && Alone(g, u) && WithinClasses(g, inverted) && Arc(u, u) !in inverted
    ensures !StrictlyReaches(Rework(g, cuts, inverted), u, u)
  {
    hide Reaches, Rework, WithinClasses, Alone;
    var h := Rework(g, cuts, inverted);
    ReworkOpensNoWay(g, cuts, inverted);
    forall v | v in Succ(h, u)
      ensures !Reaches(h, v, u)
    {
      ReworkEdge(g, cuts, inverted, u, v);
      AloneHasNoWayBack(g, u, v);
      if Reaches(h, v, u) {
        ReachesReplayed(h, g, v, u);
      }
    }
  }

  // A class none of whose edges are cut keeps its cycle.
  lemma UncutClassKeepsCycle<V(!new)>(g: Graph<V>, c: seq<V>, cuts: set<Arc<V>>, inverted: set<Arc<V>>)
    requires IsClass(g, c) && |c| > 1 && forall a :: a in cuts ==> a.src !in c
    ensures !Acyclic(Rework(g, cuts, inverted))
  {
    hide Reaches, Rework, StrictlyReaches;
    var h := Rework(g, cuts, inverted);
    forall x | x in Elements(c)
      ensures Succ(h, x) * Elements(c) != {}
    {
      var z := SuccessorInClass(g, c, x);
      ReworkEdge(g, cuts, inverted, x, z);
      assert z in Succ(h, x) * Elements(c);
    }
    assert c[0] in Elements(c);
    NoSinkMakesCycle(h, Elements(c));
  }

  lemma SuccessorInClass<V(!new)>(g: Graph<V>, c: seq<V>, x: V) returns (z: V)
    requires IsClass(g, c) && |c| > 1 && x in c
    ensures z in Succ(g, x) && z in c
  {
    hide Reaches;
    var y := if c[0] == x then c[1] else c[0];
    assert y in c && y != x && Mutual(g, x, y);
    var a, b := Exit(g, x, y, {x});
    ReachesTrans(g, b, y, x);
    ReachesEdge(g, x, b);
    assert Mutual(g, x, b);
    z := b;
  }

  /** What is left is a DAG exactly when the cycle worked on was the only one. */
  lemma CutsMakeDagIff<V(!new)>(g: Graph<V>, r: seq<seq<V>>, k: nat, w: Weighted<V>, o: seq<V>, inverted: set<Arc<V>>)
    requires SelfLoopFree(g) && IsCondensation(g, r) && k < |r|
    requires RestrictsTo(g, r[k], w) && Lists(o, w.Keys) && inverted <= Backward(w, w.Keys, o)
    ensures Acyclic(Rework(g, Backward(w, w.Keys, o), inverted)) <==>
            forall i :: 0 <= i < |r| && i != k ==> |r[i]| == 1
  {
    hide RestrictsTo, Lists, Backward, IsClass, LeadsBack, Covers, Reaches, Rework, Mutual, StrictlyReaches;
    hide WithinClasses, Alone;
    var cuts := Backward(w, w.Keys, o);
    ListsAreNotEmpty(g, r);
    BackwardWithinClass(g, r[k], w, o, cuts);
    BackwardWithinClass(g, r[k], w, o, inverted);
    if i :| 0 <= i < |r| && i != k && |r[i]| != 1 {
      assert forall a :: a in cuts ==> a.src !in r[i];
      UncutClassKeepsCycle(g, r[i], cuts, inverted);
    } else {
      forall u
        ensures !StrictlyReaches(Rework(g, cuts, inverted), u, u)
      {
        if u in r[k] {
          CutsClearTheClass(g, r[k], w, o, inverted, u);
        } else {
          AloneOutside(g, r, k, u);
          AloneIsOnNoCycle(g, cuts, inverted, u);
        }
      }
    }
  }

  lemma AloneOutside<V(!new)>(g: Graph<V>, r: seq<seq<V>>, k: nat, u: V)
    requires IsCondensation(g, r) && k < |r| && u !in r[k]
    requires forall i :: 0 <= i < |r| && i != k ==> |r[i]| == 1
    ensures Alone(g, u)
  {
    hide IsClass, LeadsBack, Covers, Alone, Disjoint;
    if u in Vertices(g) {
      var i := ListOf(g, r, u);
      SingletonListIffAlone(g, r[i], u);
    } else {
      NoVertexIsAlone(g, u);
    }
  }

  // ---------- evicting one module ----------

  // The edges from n to modules in D.
  ghost function OutArcs<V(!new)>(n: V, D: set<V>): set<Arc<V>> {
    set d | d in D :: Arc(n, d)
  }

  /** g after n's edges into D are taken out, those to modules in turned being inverted and the others cut. */
  ghost function Evict<V(!new)>(g: Graph<V>, n: V, D: set<V>, turned: set<V>): Graph<V> {
    Rework(g, OutArcs(n, D), OutArcs(n, turned))
  }

  // Only edges to other members of n's cycle are inverted.
  ghost predicate MayTurn<V(!new)>(g: Graph<V>, n: V, D: set<V>, turned: set<V>) {
    turned <= D && forall d :: d in turned ==> d in Succ(g, n) && Mutual(g, n, d)
  }

  lemma EvictEdge<V(!new)>(g: Graph<V>, n: V, D: set<V>, turned: set<V>, u: V, v: V)
    ensures v in Succ(Evict(g, n, D, turned), u) <==>
            (v in Succ(g, u) && !(u == n && v in D)) || (v == n && u in turned)
  {
    hide Rework;
    ReworkEdge(g, OutArcs(n, D), OutArcs(n, turned), u, v);
  }

  lemma EvictOpensNoWay<V(!new)>(g: Graph<V>, n: V, D: set<V>, turned: set<V>)
    requires MayTurn(g, n, D, turned)
    ensures EdgesReach(Evict(g, n, D, turned), g)
  {
    hide Rework, Reaches;
    ReworkOpensNoWay(g, OutArcs(n, D), OutArcs(n, turned));
  }

  /** To get back to n, a walk needs none of n's own out-edges. */
  lemma {:induction false} WalksToNSurvive<V(!new)>(g: Graph<V>, n: V, D: set<V>, turned: set<V>, p: seq<V>, d: V)
    requires PathBetween(g, p, d, n)
    ensures Reaches(Evict(g, n, D, turned), d, n)
    decreases |p|
  {
    hide Reaches, Evict;
    var h := Evict(g, n, D, turned);
    if d == n {
      ReachesSelf(h, n);
    } else {
      assert PathBetween(g, p[1..], p[1], n);
      WalksToNSurvive(g, n, D, turned, p[1..], p[1]);
      EvictEdge(g, n, D, turned, d, p[1]);
      ReachesCons(h, d, p[1], n);
    }
  }

  lemma KeptEdgeKeepsCompany<V(!new)>(g: Graph<V>, n: V, D: set<V>, turned: set<V>, d: V)
    requires d in Succ(g, n) && Mutual(g, n, d) && d != n && d !in D
    ensures !Alone(Evict(g, n, D, turned), n)
  {
    hide Evict, Reaches;
    var h := Evict(g, n, D, turned);
    var p := ReachesPath(g, d, n);
    WalksToNSurvive(g, n, D, turned, p, d);
    EvictEdge(g, n, D, turned, n, d);
    ReachesEdge(h, n, d);
    assert Mutual(h, n, d);
  }

  lemma NoWayBack<V(!new)>(g: Graph<V>, n: V, D: set<V>, turned: set<V>, z: V)
    requires MayTurn(g, n, D, turned)
    requires forall d :: d in Succ(g, n) && Mutual(g, n, d) && d != n ==> d in D
    requires Mutual(Evict(g, n, D, turned), n, z)
    ensures z == n
  {
    hide Evict, Reaches;
    var h := Evict(g, n, D, turned);
    EvictOpensNoWay(g, n, D, turned);
    if z != n {
      var x, y := Exit(h, n, z, {n});
      EvictEdge(g, n, D, turned, n, y);
      ReachesTrans(h, y, z, n);
      ReachesReplayed(h, g, y, n);
      ReachesEdge(g, n, y);
    }
  }

  lemma AloneByMembers<V(!new)>(g: Graph<V>, n: V)
    requires forall z :: Mutual(g, n, z) ==> z == n
    ensures Alone(g, n)
  {
  }

  /**
   Inverting or cutting out-edges of n takes it out of every multi-module class exactly when all its edges to other
   members of its class are among them. Walks that leave the class cannot bring it back, nor can inverted edges.
   */
  lemma EvictedIffAllCycleEdgesCut<V(!new)>(g: Graph<V>, n: V, D: set<V>, turned: set<V>)
    requires MayTurn(g, n, D, turned)
    ensures Alone(Evict(g, n, D, turned), n) <==>
            forall d :: d in Succ(g, n) && Mutual(g, n, d) && d != n ==> d in D
  {
    hide Alone, Evict, MayTurn, Mutual;
    var h := Evict(g, n, D, turned);
    if d :| d in Succ(g, n) && Mutual(g, n, d) && d != n && d !in D {
      KeptEdgeKeepsCompany(g, n, D, turned, d);
    } else {
      forall z | Mutual(h, n, z)
        ensures z == n
      {
        NoWayBack(g, n, D, turned, z);
      }
      AloneByMembers(h, n);
    }
  }

  /** The next report lists the module alone exactly when all its edges to other members were inverted or cut. */
  lemma EvictionShowsInNextReport<V(!new)>(g: Graph<V>, n: V, D: set<V>, turned: set<V>, r: seq<seq<V>>)
    requires n in g && MayTurn(g, n, D, turned) && IsCondensation(Evict(g, n, D, turned), r)
    ensures (exists i :: 0 <= i < |r| && r[i] == [n]) <==>
            forall d :: d in Succ(g, n) && Mutual(g, n, d) && d != n ==> d in D
  {
    hide Mutual, IsClass, LeadsBack, Covers, Disjoint, Alone;
    var h := Evict(g, n, D, turned);
    EvictedIffAllCycleEdgesCut(g, n, D, turned);
    assert n in h.Keys;
    var k := ListOf(h, r, n);
    SingletonListIffAlone(h, r[k], n);
    if i :| 0 <= i < |r| && r[i] == [n] {
      assert n in r[i];
      SingletonListIffAlone(h, r[i], n);
    }
  }

  /** The edges listed for a member of the cycle are the ones that must all go before it leaves, and no others. */
  lemma EvictionListIsExact<V(!new)>(g: Graph<V>, c: seq<V>, w: Weighted<V>, n: V, D: set<V>, turned: set<V>)
    requires SelfLoopFree(g) && IsClass(g, c) && RestrictsTo(g, c, w) && n in c
    requires turned <= D && turned <= w[n].Keys
    ensures Alone(Evict(g, n, D, turned), n) <==> w[n].Keys <= D
  {
    hide Mutual, Alone, Evict;
    assert MayTurn(g, n, D, turned) by {
      assert forall d :: d in turned ==> d in w[n] && d in c && Mutual(g, n, d);
    }
    EvictedIffAllCycleEdgesCut(g, n, D, turned);
    assert n !in Succ(g, n);
    forall d
      ensures d in w[n] <==> d in Succ(g, n) && Mutual(g, n, d)
    {
      assert d in c <==> Mutual(g, n, d);
    }
  }

  // ---------- the report ----------

  lemma ModuleGraphFacts<V(!new)>(info: Modules<V>)
    ensures SelfLoopFree(ModuleGraph(info)) && Vertices(ModuleGraph(info)) <= info.Keys
  {
  }

  /** Exactly which modules and references the graph has: none of re-exporting modules, none to oneself. */
  lemma ModuleGraphIff<V(!new)>(info: Modules<V>, u: V, v: V)
    ensures u in ModuleGraph(info) <==> u in info && !info[u].fullyFacade
    ensures v in Succ(ModuleGraph(info), u) <==>
            && u in info && !info[u].fullyFacade && v in info && !info[v].fullyFacade
            && v in info[u].outbound && v != u
  {
  }

  // The references between the members of a cycle.
  ghost function CycleArcs<V(!new)>(info: Modules<V>, c: seq<V>): set<Arc<V>> {
    set u, v | u in c && u in info && v in info[u].outbound && v in c && v != u :: Arc(u, v)
  }

  /** How often the modules refer to each other along the arcs, a reference without a count taken as one. */
  ghost function RefTotal<V(!new)>(info: Modules<V>, A: set<Arc<V>>): nat {
    if A == {} then 0
    else
      var a :| a in A;
      var counted := a.src in info && a.dst in info[a.src].refCounts;
      (if counted then info[a.src].refCounts[a.dst] else 1) + RefTotal(info, A - {a})
  }

  lemma CycleEdgesWeigh<V(!new)>(info: Modules<V>, c: seq<V>, u: V, v: V)
    requires forall n :: n in c ==> IsNode(info, n)
    ensures var w := CycleEdges(info, c);
            && (Arc(u, v) in ArcsOf(w) <==> Arc(u, v) in CycleArcs(info, c))
            && (Arc(u, v) in ArcsOf(w) ==>
                  WeightOf(w, Arc(u, v)) == if v in info[u].refCounts then info[u].refCounts[v] else 1)
  {
    var w := CycleEdges(info, c);
    assert u in c ==> IsNode(info, u);
  }

  /** The weights of the cycle's edges are the reference counts. */
  lemma {:induction false} WeightsAreRefs<V(!new)>(info: Modules<V>, c: seq<V>, A: set<Arc<V>>)
    requires (forall n :: n in c ==> IsNode(info, n)) && A <= CycleArcs(info, c)
    ensures A <= ArcsOf(CycleEdges(info, c)) && Total(CycleEdges(info, c), A) == RefTotal(info, A)
    decreases A
  {
    hide CycleEdges, CycleArcs, ArcsOf, WeightOf;
    var w := CycleEdges(info, c);
    forall a | a in A
      ensures a in ArcsOf(w)
    {
      CycleEdgesWeigh(info, c, a.src, a.dst);
    }
    if A != {} {
      var a :| a in A && RefTotal(info, A) ==
        (if a.src in info && a.dst in info[a.src].refCounts then info[a.src].refCounts[a.dst] else 1)
        + RefTotal(info, A - {a});
      CycleEdgesWeigh(info, c, a.src, a.dst);
      ArcInCycle(info, c, a);
      TotalRemove(w, A, a);
      WeightsAreRefs(info, c, A - {a});
    }
  }

  lemma ArcInCycle<V(!new)>(info: Modules<V>, c: seq<V>, a: Arc<V>)
    requires a in CycleArcs(info, c)
    ensures a.src in info && a == Arc(a.src, a.dst)
  {
  }

  lemma ArcsAreReferences<V(!new)>(info: Modules<V>, c: seq<V>)
    requires forall n :: n in c ==> IsNode(info, n)
    ensures ArcsOf(CycleEdges(info, c)) == CycleArcs(info, c)
  {
    hide CycleEdges, CycleArcs, ArcsOf;
    forall a: Arc<V>
      ensures a in ArcsOf(CycleEdges(info, c)) <==> a in CycleArcs(info, c)
    {
      CycleEdgesWeigh(info, c, a.src, a.dst);
    }
  }

  /** In terms of the scan: references inside the cycle, with at most half of all the references there. */
  ghost predicate CheapCuts<V(!new)>(info: Modules<V>, c: seq<V>, cuts: set<Arc<V>>, total: nat) {
    && cuts <= CycleArcs(info, c)
    && total == RefTotal(info, cuts)
    && 2 * total <= RefTotal(info, CycleArcs(info, c))
  }

  lemma GoodCutsAreCheap<V(!new)>(info: Modules<V>, c: seq<V>, cuts: set<Arc<V>>)
    requires forall n :: n in c ==> IsNode(info, n)
    requires GoodCuts(ModuleGraph(info), c, CycleEdges(info, c), cuts)
    ensures CheapCuts(info, c, cuts, Total(CycleEdges(info, c), cuts))
  {
    hide Total, RefTotal, CycleEdges, CycleArcs, ArcsOf, Rework, StrictlyReaches;
    ArcsAreReferences(info, c);
    WeightsAreRefs(info, c, cuts);
    WeightsAreRefs(info, c, CycleArcs(info, c));
  }

  lemma TwoModulesReferToEachOther<V(!new)>(info: Modules<V>, c: seq<V>, a: V, b: V)
    requires IsClass(ModuleGraph(info), c) && Elements(c) == {a, b} && a != b
    ensures b in Succ(ModuleGraph(info), a) && Arc(a, b) in CycleArcs(info, c)
  {
    hide IsClass;
    assert forall x :: x in c <==> x in Elements(c);
    TwoMembers(c, a, b);
    var z := SuccessorInClass(ModuleGraph(info), c, a);
    ModuleGraphIff(info, a, z);
  }

  lemma TwoMembers<V(!new)>(c: seq<V>, a: V, b: V)
    requires a in c && b in c && a != b
    ensures |c| > 1
  {
  }

  lemma WayAndBackIsCycle<V(!new)>(g: Graph<V>, a: V, b: V)
    requires b in Succ(g, a) && a in Succ(g, b)
    ensures StrictlyReaches(g, a, a)
  {
    hide Reaches;
    ReachesEdge(g, b, a);
  }

  lemma NothingCutKeepsCycle<V(!new)>(g: Graph<V>, a: V, b: V)
    requires b in Succ(g, a) && a in Succ(g, b)
    ensures StrictlyReaches(Rework(g, {}, {}), a, a)
  {
    hide Rework;
    ReworkEdge(g, {}, {}, a, b);
    ReworkEdge(g, {}, {}, b, a);
    WayAndBackIsCycle(Rework(g, {}, {}), a, b);
  }

  lemma RefTotalOfOne<V(!new)>(info: Modules<V>, a: V, b: V)
    requires a in info && b in info[a].refCounts
    ensures RefTotal(info, {Arc(a, b)}) == info[a].refCounts[b]
  {
    assert {Arc(a, b)} - {Arc(a, b)} == {};
  }

  lemma RefTotalOfTwo<V(!new)>(info: Modules<V>, a: V, b: V)
    requires a != b && a in info && b in info[a].refCounts && b in info && a in info[b].refCounts
    ensures RefTotal(info, {Arc(a, b), Arc(b, a)}) == info[a].refCounts[b] + info[b].refCounts[a]
  {
    hide RefTotal;
    RefTotalOfOne(info, a, b);
    RefTotalOfOne(info, b, a);
    assert {Arc(a, b), Arc(b, a)} - {Arc(a, b)} == {Arc(b, a)};
    assert {Arc(a, b), Arc(b, a)} - {Arc(b, a)} == {Arc(a, b)};
    RefTotalOfPair(info, Arc(a, b), Arc(b, a));
  }

  lemma RefTotalOfPair<V(!new)>(info: Modules<V>, a: Arc<V>, b: Arc<V>)
    requires a != b
    ensures RefTotal(info, {a, b}) == RefTotal(info, {a}) + RefTotal(info, {b})
  {
    assert {a, b} - {a} == {b} && {a, b} - {b} == {a} && {a} - {a} == {} && {b} - {b} == {};
  }

  /** Two modules that refer m and n times to each other: the report proposes the cheaper direction. */
  lemma TwoModuleCycle<V(!new)>(info: Modules<V>, c: seq<V>, cuts: set<Arc<V>>, total: nat, a: V, b: V)
    requires IsClass(ModuleGraph(info), c) && Elements(c) == {a, b} && a != b
    requires (forall n :: n in c ==> IsNode(info, n)) && a in info && b in info
    requires GoodCuts(ModuleGraph(info), c, CycleEdges(info, c), cuts) && CheapCuts(info, c, cuts, total)
    requires b in info[a].refCounts && a in info[b].refCounts
    ensures var m, n := info[a].refCounts[b], info[b].refCounts[a]; total == if m <= n then m else n
  {
    hide IsClass, RefTotal, CycleEdges, StrictlyReaches, Rework, ModuleGraph, Total;
    var ab, ba := Arc(a, b), Arc(b, a);
    TwoModulesReferToEachOther(info, c, a, b);
    TwoModulesReferToEachOther(info, c, b, a);
    NothingCutKeepsCycle(ModuleGraph(info), a, b);
    TwoArcs(info, c, a, b);
    RefTotalOfOne(info, a, b);
    RefTotalOfOne(info, b, a);
    RefTotalOfTwo(info, a, b);
    assert a in Elements(c);
    assert cuts != {};
    assert cuts == {ab} || cuts == {ba} || cuts == {ab, ba};
  }

  lemma TwoArcs<V(!new)>(info: Modules<V>, c: seq<V>, a: V, b: V)
    requires Elements(c) == {a, b} && Arc(a, b) in CycleArcs(info, c) && Arc(b, a) in CycleArcs(info, c)
    ensures CycleArcs(info, c) == {Arc(a, b), Arc(b, a)}
  {
    assert forall x :: x in c <==> x in Elements(c);
  }

  lemma CycleEdgesRestrict<V(!new)>(info: Modules<V>, c: seq<V>)
    requires forall n :: n in c ==> IsNode(info, n)
    ensures RestrictsTo(ModuleGraph(info), c, CycleEdges(info, c))
  {
    var g, w := ModuleGraph(info), CycleEdges(info, c);
    assert w.Keys == Elements(c);
    forall u, v | u in w
      ensures v in w[u] <==> v in Succ(g, u) && v in c
    {
      assert IsNode(info, u) && (v in c ==> IsNode(info, v));
    }
  }

  function LocOf<V(==)>(info: Modules<V>, c: seq<V>): nat {
    if c == [] then 0 else (if c[0] in info then info[c[0]].loc else 0) + LocOf(info, c[1..])
  }

  /** The lines of a cycle are those of its members, all together. */
  lemma {:induction false} LocAddsUp<V(!new)>(info: Modules<V>, c: seq<V>, d: seq<V>)
    ensures LocOf(info, []) == 0
    ensures forall n :: n in info ==> LocOf(info, [n]) == info[n].loc
    ensures LocOf(info, c + d) == LocOf(info, c) + LocOf(info, d)
    decreases |c|
  {
    if c == [] {
      assert c + d == d;
    } else {
      LocAddsUp(info, c[1..], d);
      assert (c + d)[0] == c[0] && (c + d)[1..] == c[1..] + d;
    }
  }

  /** big: the cycle with the most lines; k is negative when there is no cycle to report. */
  method LargestCycle<V(==, !new)>(info: Modules<V>, sccs: seq<seq<V>>) returns (k: int)
    ensures k < |sccs|
    ensures k < 0 <==> forall i :: 0 <= i < |sccs| ==> |sccs[i]| <= 1
    ensures k >= 0 ==> |sccs[k]| > 1
    ensures forall i :: 0 <= i < |sccs| && |sccs[i]| > 1 ==> LocOf(info, sccs[i]) <= LocOf(info, sccs[k])
  {
    k := -1;
    for j := 0 to |sccs|
      invariant k < j
      invariant k < 0 <==> forall i :: 0 <= i < j ==> |sccs[i]| <= 1
      invariant k >= 0 ==> |sccs[k]| > 1
      invariant forall i :: 0 <= i < j && |sccs[i]| > 1 ==> LocOf(info, sccs[i]) <= LocOf(info, sccs[k])
    {
      if |sccs[j]| > 1 && (k < 0 || LocOf(info, sccs[j]) > LocOf(info, sccs[k])) {
        k := j;
      }
    }
  }

  ghost predicate PositionsOf<V(!new)>(o: seq<V>, pos: map<V, nat>) {
    forall i :: 0 <= i < |o| ==> o[i] in pos && pos[o[i]] == i
  }

  lemma PositionsCompare<V(!new)>(o: seq<V>, R: set<V>, pos: map<V, nat>, a: V, b: V)
    requires Lists(o, R) && PositionsOf(o, pos) && a in R && b in R
    ensures a in pos && b in pos && (pos[a] < pos[b] <==> Precedes(o, a, b))
  {
    var i :| 0 <= i < |o| && o[i] == a;
    var j :| 0 <= j < |o| && o[j] == b;
    PrecedesByPosition(o, R, i, j);
  }

  method Positions<V(==, !new)>(o: seq<V>, ghost R: set<V>) returns (pos: map<V, nat>)
    requires Lists(o, R)
    ensures PositionsOf(o, pos)
  {
    pos := map[];
    for n := 0 to |o|
      invariant forall i :: 0 <= i < n ==> o[i] in pos && pos[o[i]] == i
    {
      pos := pos[o[n] := n];
    }
  }

  /** back_edges and total_back: every edge whose target comes first, once, and their weight. */
  method BackEdges<V(==, !new)>(w: Weighted<V>, order: seq<V>) returns (cuts: set<Arc<V>>, total: nat)
    requires Closed(w) && Lists(order, w.Keys)
    ensures cuts == Backward(w, w.Keys, order) && total == Total(w, cuts)
  {
    hide Total, Precedes;
    var pos := Positions(order, w.Keys);
    cuts, total := {}, 0;
    TotalOfNone(w);
    var todo := ArcsOf(w);
    while todo != {}
      invariant todo <= ArcsOf(w)
      invariant cuts == set a | a in ArcsOf(w) - todo && Precedes(order, a.dst, a.src)
      invariant total == Total(w, cuts)
    {
      var a :| a in todo;
      todo := todo - {a};
      PositionsCompare(order, w.Keys, pos, a.dst, a.src);
      if pos[a.dst] < pos[a.src] {
        TotalWithNew(w, cuts, a);
        cuts, total := cuts + {a}, total + w[a.src][a.dst];
      }
    }
    assert Within(w, w.Keys) == ArcsOf(w);
  }

  /** What the report says about the edges to invert or cut in one cycle is true of the whole module graph. */
  ghost predicate GoodCuts<V(!new)>(g: Graph<V>, c: seq<V>, w: Weighted<V>, cuts: set<Arc<V>>) {
    && cuts <= ArcsOf(w)
    && 2 * Total(w, cuts) <= Total(w, ArcsOf(w))
    && forall inverted, u :: inverted <= cuts && u in c ==> !StrictlyReaches(Rework(g, cuts, inverted), u, u)
  }

  method CutsFor<V(==, !new)>(info: Modules<V>, c: seq<V>) returns (cuts: set<Arc<V>>, total: nat)
    requires IsClass(ModuleGraph(info), c) && forall n :: n in c ==> IsNode(info, n)
    ensures GoodCuts(ModuleGraph(info), c, CycleEdges(info, c), cuts) && CheapCuts(info, c, cuts, total)
    ensures total == Total(CycleEdges(info, c), cuts)
    ensures exists o :: Lists(o, Elements(c)) && cuts == Backward(CycleEdges(info, c), Elements(c), o)
  {
    hide Total, StrictlyReaches, Lists, Run, OrderOf, Backward, Topological, IsClass;
    hide RestrictsTo, ModuleGraph, CycleEdges;
    ghost var g := ModuleGraph(info);
    var w := CycleEdges(info, c);
    ModuleGraphFacts(info);
    CycleEdgesRestrict(info, c);
    RestrictionFacts(g, c, w);
    RestrictionKeys(g, c, w);
    ghost var tr;
    var order;
    order, tr := EadesOrder(w);
    cuts, total := BackEdges(w, order);
    BackwardAreArcs(w, order);
    forall inverted, u | inverted <= cuts && u in c
      ensures !StrictlyReaches(Rework(g, cuts, inverted), u, u)
    {
      CutsClearTheClass(g, c, w, order, inverted, u);
    }
    GoodCutsAreCheap(info, c, cuts);
  }

  lemma RestrictionKeys<V(!new)>(g: Graph<V>, c: seq<V>, w: Weighted<V>)
    requires RestrictsTo(g, c, w)
    ensures w.Keys == Elements(c)
  {
  }

  lemma BackwardAreArcs<V(!new)>(w: Weighted<V>, o: seq<V>)
    ensures Backward(w, w.Keys, o) <= ArcsOf(w)
  {
  }

  /**
   The cycle analysis of main: the components, the largest cycle if there is one, and the edges to invert or cut in
   it. Without a cycle the graph is a DAG; working on the edges reported makes it one exactly when there is only one.
   */
  method AnalyzeCycles<V(==, !new)>(info: Modules<V>)
    returns (sccs: seq<seq<V>>, k: int, cuts: set<Arc<V>>, total: nat)
    ensures IsCondensation(ModuleGraph(info), sccs) && k < |sccs|
    ensures k < 0 <==> Acyclic(ModuleGraph(info))
    ensures forall i :: 0 <= i < |sccs| && |sccs[i]| > 1 ==>
              k >= 0 && LocOf(info, sccs[i]) <= LocOf(info, sccs[k])
    ensures k >= 0 ==> (forall n :: n in sccs[k] ==> IsNode(info, n))
                       && GoodCuts(ModuleGraph(info), sccs[k], CycleEdges(info, sccs[k]), cuts)
                       && total == Total(CycleEdges(info, sccs[k]), cuts)
    ensures k >= 0 ==> CheapCuts(info, sccs[k], cuts, total)
    ensures k >= 0 ==> forall inverted :: inverted <= cuts ==>
              (Acyclic(Rework(ModuleGraph(info), cuts, inverted)) <==>
               forall i :: 0 <= i < |sccs| && i != k ==> |sccs[i]| == 1)
  {
    hide Acyclic, Total, GoodCuts, CheapCuts, Covers, LeadsBack, Disjoint, Backward, CycleEdges, Lists, RestrictsTo;
    var graph := ModuleGraph(info);
    ModuleGraphFacts(info);
    sccs := StronglyConnectedComponents(graph);
    NoCyclesReportedIffDag(graph, sccs);
    k := LargestCycle(info, sccs);
    ListsAreNotEmpty(graph, sccs);
    cuts, total := {}, 0;
    if k >= 0 {
      MembersAreNodes(info, sccs, k);
      CycleEdgesRestrict(info, sccs[k]);
      cuts, total := CutsFor(info, sccs[k]);
      ghost var o :| Lists(o, Elements(sccs[k])) && cuts == Backward(CycleEdges(info, sccs[k]), Elements(sccs[k]), o);
      RestrictionKeys(graph, sccs[k], CycleEdges(info, sccs[k]));
      forall inverted | inverted <= cuts
        ensures Acyclic(Rework(graph, cuts, inverted)) <==> forall i :: 0 <= i < |sccs| && i != k ==> |sccs[i]| == 1
      {
        CutsMakeDagIff(graph, sccs, k, CycleEdges(info, sccs[k]), o, inverted);
      }
    }
  }

  lemma ListsAreNotEmpty<V(!new)>(g: Graph<V>, r: seq<seq<V>>)
    requires IsCondensation(g, r)
    ensures forall i :: 0 <= i < |r| ==> |r[i]| >= 1 && IsClass(g, r[i])
  {
    hide LeadsBack, Covers, Disjoint, Mutual;
  }

  lemma MembersAreNodes<V(!new)>(info: Modules<V>, r: seq<seq<V>>, k: nat)
    requires IsCondensation(ModuleGraph(info), r) && k < |r|
    ensures forall n :: n in r[k] ==> IsNode(info, n)
  {
    hide LeadsBack, Disjoint, IsClass;
    forall n | n in r[k]
      ensures IsNode(info, n)
    {
      assert ListedBy(r, |r| - 1, n);
      assert n in Vertices(ModuleGraph(info));
    }
  }

  /** For the table of a cycle those are the references to other members and their counts. */
  lemma EvictionCostIsRefs<V(!new)>(info: Modules<V>, c: seq<V>, n: V)
    requires (forall m :: m in c ==> IsNode(info, m)) && n in c && n in info
    ensures var w := CycleEdges(info, c);
            && n in w && w[n].Keys == (set d | d in info[n].outbound && d in c && d != n)
            && Total(w, From(ArcsOf(w), n)) ==
               RefTotal(info, set d | d in info[n].outbound && d in c && d != n :: Arc(n, d))
  {
    var w := CycleEdges(info, c);
    var out := set d | d in info[n].outbound && d in c && d != n :: Arc(n, d);
    assert out == From(CycleArcs(info, c), n);
    hide Total, RefTotal;
    ArcsAreReferences(info, c);
    WeightsAreRefs(info, c, out);
  }

  /** The eviction table's line for n: how many edges and references must go. */
  method EvictionCost<V(==, !new)>(w: Weighted<V>, n: V) returns (edges: nat, refs: nat)
    requires Closed(w) && n in w
    ensures edges == |w[n].Keys| && refs == Total(w, From(ArcsOf(w), n))
  {
    edges := |w[n]|;
    refs := OutWeight(w, w.Keys, n);
    assert Within(w, w.Keys) == ArcsOf(w);
  }
}

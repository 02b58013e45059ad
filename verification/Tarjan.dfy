/**
 strongly_connected_components of scripts/analyze_root_crate.py: Tarjan's
 recursive search. The invariant is stated over a snapshot of the closure's
 shared variables, and each kind of step is one lemma about snapshots.
 */
module Tarjan {
  import opened Graphs

  /** Grey modules are those whose strongconnect call has not returned; done ones sit in an emitted component. */
  datatype State<V> = State(
    index: map<V, nat>,
    counter: nat,
    stack: seq<V>,
    grey: set<V>,
    done: set<V>)

  // Some list up to and including the i-th holds y.
  ghost predicate ListedBy<V>(r: seq<seq<V>>, i: int, y: V) {
    exists j :: 0 <= j <= i && j < |r| && y in r[j]
  }

  ghost predicate IsClass<V(!new)>(g: Graph<V>, c: seq<V>) {
    && c != [] && NoDuplicates(c)
    && forall x, y :: x in c ==> (y in c <==> Mutual(g, x, y))
  }

  ghost predicate LeadsBack<V(!new)>(g: Graph<V>, r: seq<seq<V>>, i: int)
    requires 0 <= i < |r|
  {
    forall x, y :: x in r[i] && y in Succ(g, x) ==> ListedBy(r, i, y)
  }

  ghost predicate Disjoint<V(!new)>(r: seq<seq<V>>) {
    forall i, j, x :: 0 <= i < j < |r| && x in r[i] ==> x !in r[j]
  }

  /** Each list is one whole class of mutually reachable modules, and edges only lead to the same or an earlier list. */
  ghost predicate ClassesLeavesFirst<V(!new)>(g: Graph<V>, r: seq<seq<V>>) {
    && (forall i :: 0 <= i < |r| ==> IsClass(g, r[i]))
    && (forall i :: 0 <= i < |r| ==> LeadsBack(g, r, i))
    && Disjoint(r)
  }

  ghost predicate Covers<V(!new)>(r: seq<seq<V>>, S: set<V>) {
    forall x :: x in S <==> ListedBy(r, |r| - 1, x)
  }

  /** What the caller gets: the classes above, over every module the graph mentions. */
  ghost predicate IsCondensation<V(!new)>(g: Graph<V>, r: seq<seq<V>>) {
    ClassesLeavesFirst(g, r) && Covers(r, Vertices(g))
  }

  // ---------- the invariant ----------

  ghost predicate StackOk<V>(s: State<V>) {
    && (forall i :: 0 <= i < |s.stack| ==> s.stack[i] in s.index)
    && (forall i, j :: 0 <= i < j < |s.stack| ==> s.index[s.stack[i]] < s.index[s.stack[j]])
    && (forall x :: x in s.index ==> s.index[x] < s.counter)
    && s.grey <= Elements(s.stack)
  }

  ghost predicate ColoursOk<V>(g: Graph<V>, s: State<V>) {
    && s.index.Keys <= Vertices(g)
    && s.index.Keys == Elements(s.stack) + s.done
    && Elements(s.stack) !! s.done
    && (forall x {:trigger Succ(g, x)} :: x in s.index && x !in s.grey ==> Succ(g, x) <= s.index.Keys)
    && (forall x {:trigger Succ(g, x)} :: x in s.done ==> Succ(g, x) <= s.done)
  }

  ghost predicate GreyReaches<V(!new)>(g: Graph<V>, s: State<V>, x: V)
    requires StackOk(s) && x in s.index
  {
    forall y :: y in s.stack && s.index[x] <= s.index[y] ==> Reaches(g, x, y)
  }

  ghost predicate HasAnchor<V(!new)>(g: Graph<V>, s: State<V>, y: V)
    requires StackOk(s) && y in s.index
  {
    exists x :: x in s.grey && s.index[x] <= s.index[y] && Reaches(g, y, x)
  }

  ghost predicate ReachOk<V(!new)>(g: Graph<V>, s: State<V>)
    requires StackOk(s)
  {
    && (forall x {:trigger GreyReaches(g, s, x)} :: x in s.grey ==> GreyReaches(g, s, x))
    && (forall y {:trigger HasAnchor(g, s, y)} :: y in s.stack ==> HasAnchor(g, s, y))
  }

  ghost predicate Inv<V(!new)>(g: Graph<V>, s: State<V>) {
    StackOk(s) && ColoursOk(g, s) && ReachOk(g, s)
  }

  // ---------- entering a module ----------

  function Push<V>(s: State<V>, v: V): State<V> {
    State(s.index[v := s.counter], s.counter + 1, s.stack + [v], s.grey + {v}, s.done)
  }

  lemma PushKeepsColours<V(!new)>(g: Graph<V>, s: State<V>, v: V)
    requires StackOk(s) && ColoursOk(g, s) && v in Vertices(g) && v !in s.index
    ensures StackOk(Push(s, v)) && ColoursOk(g, Push(s, v))
  {
    var t := Push(s, v);
    assert Elements(t.stack) == Elements(s.stack) + {v};
  }

  lemma PushEntersStack<V(!new)>(g: Graph<V>, s: State<V>, v: V)
    requires StackOk(s) && ColoursOk(g, s) && v !in s.index
    ensures v !in s.grey
    ensures forall x :: x in s.index && x in s.stack + [v] ==> x in s.stack
  {
  }

  lemma PushKeepsInv<V(!new)>(g: Graph<V>, s: State<V>, v: V)
    requires Inv(g, s) && v in Vertices(g) && v !in s.index
    requires forall x :: x in s.grey ==> Reaches(g, x, v)
    ensures Inv(g, Push(s, v))
  {
    PushKeepsColours(g, s, v);
    ReachesSelf(g, v);
    var t := Push(s, v);
    forall x | x in t.grey
      ensures GreyReaches(g, t, x)
    {
      if x != v {
        assert x in s.stack && GreyReaches(g, s, x);
      }
    }
    forall y | y in t.stack
      ensures HasAnchor(g, t, y)
    {
      if y != v {
        assert HasAnchor(g, s, y);
        var x :| x in s.grey && s.index[x] <= s.index[y] && Reaches(g, y, x);
        assert x in s.stack;
      }
    }
  }

  // ---------- leaving a module ----------

  ghost predicate LowIsReached<V(!new)>(g: Graph<V>, s: State<V>, v: V, low: nat)
    requires StackOk(s)
  {
    exists y :: y in s.stack && s.index[y] == low && Reaches(g, v, y)
  }

  /** v sits at position k of the stack, everything above it is finished, and low is an index v can reach. */
  ghost predicate Frame<V(!new)>(g: Graph<V>, s: State<V>, k: nat, v: V, low: nat)
    requires StackOk(s)
  {
    && k < |s.stack| && s.stack[k] == v && v in s.grey
    && (forall i :: k < i < |s.stack| ==> s.stack[i] !in s.grey)
    && low <= s.index[v]
    && LowIsReached(g, s, v, low)
  }

  // No edge from x to the part of the stack below position k goes lower than low.
  ghost predicate Bounds<V>(g: Graph<V>, s: State<V>, k: nat, low: nat, x: V)
    requires StackOk(s) && k <= |s.stack|
  {
    forall j :: 0 <= j < k && s.stack[j] in Succ(g, x) ==> low <= s.index[s.stack[j]]
  }

  ghost predicate TailBounded<V>(g: Graph<V>, s: State<V>, k: nat, low: nat)
    requires StackOk(s) && k <= |s.stack|
  {
    forall i :: k <= i < |s.stack| ==> Bounds(g, s, k, low, s.stack[i])
  }

  function Finish<V>(s: State<V>, v: V): State<V> {
    s.(grey := s.grey - {v})
  }

  lemma LowHasAnchor<V(!new)>(g: Graph<V>, s: State<V>, v: V, low: nat) returns (anchor: V)
    requires Inv(g, s) && v in s.index && low < s.index[v] && LowIsReached(g, s, v, low)
    ensures anchor in s.grey && anchor in s.index && s.index[anchor] < s.index[v] && Reaches(g, v, anchor)
  {
    var y :| y in s.stack && s.index[y] == low && Reaches(g, v, y);
    assert HasAnchor(g, s, y);
    anchor :| anchor in s.grey && s.index[anchor] <= s.index[y] && Reaches(g, y, anchor);
    ReachesTrans(g, v, y, anchor);
  }

  lemma AnchorMoves<V(!new)>(g: Graph<V>, s: State<V>, v: V, anchor: V, z: V)
    requires StackOk(s) && v in s.index && z in s.index && HasAnchor(g, s, z)
    requires anchor in s.grey && anchor in s.index && s.index[anchor] < s.index[v] && Reaches(g, v, anchor)
    requires StackOk(Finish(s, v))
    ensures HasAnchor(g, Finish(s, v), z)
  {
    var x :| x in s.grey && s.index[x] <= s.index[z] && Reaches(g, z, x);
    if x == v {
      ReachesTrans(g, z, v, anchor);
      assert anchor in Finish(s, v).grey;
    } else {
      assert x in Finish(s, v).grey;
    }
  }

  lemma FinishKeepsColours<V(!new)>(g: Graph<V>, s: State<V>, v: V)
    requires StackOk(s) && ColoursOk(g, s) && Succ(g, v) <= s.index.Keys
    ensures StackOk(Finish(s, v)) && ColoursOk(g, Finish(s, v))
  {
  }

  lemma FinishKeepsGreyReaches<V(!new)>(g: Graph<V>, s: State<V>, v: V, x: V)
    requires StackOk(s) && StackOk(Finish(s, v)) && x in s.index && GreyReaches(g, s, x)
    ensures GreyReaches(g, Finish(s, v), x)
  {
  }

  /** A call that leaves its module on the stack hands its role as anchor to a grey module below it. */
  lemma FinishKeepsInv<V(!new)>(g: Graph<V>, s: State<V>, k: nat, v: V, low: nat)
    requires Inv(g, s) && Frame(g, s, k, v, low) && low < s.index[v]
    requires Succ(g, v) <= s.index.Keys
    ensures Inv(g, Finish(s, v))
  {
    hide ColoursOk, Reaches, GreyReaches, HasAnchor, LowIsReached;
    FinishKeepsColours(g, s, v);
    var t := Finish(s, v);
    var anchor := LowHasAnchor(g, s, v, low);
    forall z | z in t.stack
      ensures HasAnchor(g, t, z)
    {
      assert HasAnchor(g, s, z);
      AnchorMoves(g, s, v, anchor, z);
    }
    forall x | x in t.grey
      ensures GreyReaches(g, t, x)
    {
      FinishKeepsGreyReaches(g, s, v, x);
    }
  }

  /** The situation in which strongconnect pops: the low-link of v is still its own index. */
  ghost predicate AtRoot<V(!new)>(g: Graph<V>, s: State<V>, k: nat, v: V) {
    && Inv(g, s) && v in s.index && Frame(g, s, k, v, s.index[v])
    && TailBounded(g, s, k, s.index[v])
    && Succ(g, v) <= s.index.Keys
  }

  /** Edges leave the part of the stack to be popped only into earlier components. */
  lemma TailLeadsToDone<V(!new)>(g: Graph<V>, s: State<V>, k: nat, v: V, x: V, y: V)
    requires AtRoot(g, s, k, v)
    requires x in s.stack[k..] && y in Succ(g, x) && y !in s.stack[k..]
    ensures y in s.done
  {
    var i :| k <= i < |s.stack| && s.stack[i] == x;
    assert x !in s.grey || x == v;
    assert y in s.index;
    assert Bounds(g, s, k, s.index[v], s.stack[i]);
    forall j | 0 <= j < |s.stack|
      ensures s.stack[j] != y
    {
      assert j < k ==> s.index[s.stack[j]] < s.index[s.stack[k]];
      assert j >= k ==> s.stack[k..][j - k] == s.stack[j];
    }
  }

  lemma TailReachesRoot<V(!new)>(g: Graph<V>, s: State<V>, k: nat, v: V, z: V)
    requires AtRoot(g, s, k, v) && z in s.stack[k..]
    ensures Reaches(g, z, v)
  {
    assert HasAnchor(g, s, z);
    var x :| x in s.grey && s.index[x] <= s.index[z] && Reaches(g, z, x);
    if x != v {
      var j :| 0 <= j < |s.stack| && s.stack[j] == x;
      assert j < k;
      forall i | k <= i < |s.stack|
        ensures s.stack[i] != x
      {
        assert s.index[s.stack[j]] < s.index[s.stack[i]];
      }
      var a, b := Exit(g, z, x, Elements(s.stack[k..]));
      TailLeadsToDone(g, s, k, v, a, b);
      ClosedSetKeepsWalks(g, b, x, s.done);
      assert false;
    }
  }

  lemma ClassStaysInTail<V(!new)>(g: Graph<V>, s: State<V>, k: nat, v: V, z: V)
    requires AtRoot(g, s, k, v) && Mutual(g, v, z)
    ensures z in s.stack[k..]
  {
    assert v == s.stack[k..][0];
    if z !in s.stack[k..] {
      var a, b := Exit(g, v, z, Elements(s.stack[k..]));
      TailLeadsToDone(g, s, k, v, a, b);
      ReachesTrans(g, b, z, v);
      ClosedSetKeepsWalks(g, b, v, s.done);
      assert false;
    }
  }

  lemma TailIsRootsClass<V(!new)>(g: Graph<V>, s: State<V>, k: nat, v: V, z: V)
    requires AtRoot(g, s, k, v)
    ensures z in s.stack[k..] <==> Mutual(g, v, z)
  {
    if z in s.stack[k..] {
      var i :| k <= i < |s.stack| && s.stack[i] == z;
      assert i == k || s.index[s.stack[k]] < s.index[s.stack[i]];
      assert GreyReaches(g, s, v);
      TailReachesRoot(g, s, k, v, z);
    } else if Mutual(g, v, z) {
      ClassStaysInTail(g, s, k, v, z);
    }
  }

  function Pop<V>(s: State<V>, k: nat, v: V): State<V>
    requires k <= |s.stack|
  {
    State(s.index, s.counter, s.stack[..k], s.grey - {v}, s.done + Elements(s.stack[k..]))
  }

  lemma SplitStack<V>(s: State<V>, k: nat)
    requires StackOk(s) && k <= |s.stack|
    ensures Elements(s.stack) == Elements(s.stack[..k]) + Elements(s.stack[k..])
    ensures Elements(s.stack[..k]) !! Elements(s.stack[k..])
  {
    assert s.stack == s.stack[..k] + s.stack[k..];
    forall x | x in s.stack[..k]
      ensures x !in s.stack[k..]
    {
      var j :| 0 <= j < k && s.stack[j] == x;
      forall i | k <= i < |s.stack|
        ensures s.stack[i] != x
      {
        assert s.index[s.stack[j]] < s.index[s.stack[i]];
      }
    }
  }

  lemma PopKeepsDoneClosed<V(!new)>(g: Graph<V>, s: State<V>, k: nat, v: V, x: V)
    requires AtRoot(g, s, k, v) && x in s.done + Elements(s.stack[k..])
    ensures Succ(g, x) <= s.done + Elements(s.stack[k..])
  {
    forall y | y in Succ(g, x)
      ensures y in s.done + Elements(s.stack[k..])
    {
      if x !in s.done && y !in s.stack[k..] {
        TailLeadsToDone(g, s, k, v, x, y);
      }
    }
  }

  lemma GreyBelowRoot<V(!new)>(g: Graph<V>, s: State<V>, k: nat, v: V)
    requires StackOk(s) && v in s.index && Frame(g, s, k, v, s.index[v])
    ensures s.grey - {v} <= Elements(s.stack[..k])
  {
    forall x | x in s.grey - {v}
      ensures x in s.stack[..k]
    {
      var j :| 0 <= j < |s.stack| && s.stack[j] == x;
      assert s.stack[..k][j] == x;
    }
  }

  lemma PopKeepsColours<V(!new)>(g: Graph<V>, s: State<V>, k: nat, v: V)
    requires AtRoot(g, s, k, v)
    ensures StackOk(Pop(s, k, v)) && ColoursOk(g, Pop(s, k, v))
  {
    SplitStack(s, k);
    GreyBelowRoot(g, s, k, v);
    forall x | x in s.done + Elements(s.stack[k..])
      ensures Succ(g, x) <= s.done + Elements(s.stack[k..])
    {
      PopKeepsDoneClosed(g, s, k, v, x);
    }
  }

  lemma PopKeepsAnchor<V(!new)>(g: Graph<V>, s: State<V>, k: nat, v: V, y: V)
    requires AtRoot(g, s, k, v) && StackOk(Pop(s, k, v)) && y in s.stack[..k]
    ensures HasAnchor(g, Pop(s, k, v), y)
  {
    hide Reaches;
    var j :| 0 <= j < k && s.stack[j] == y;
    assert s.index[y] < s.index[v];
    assert HasAnchor(g, s, y);
    var x :| x in s.grey && s.index[x] <= s.index[y] && Reaches(g, y, x);
    assert x in Pop(s, k, v).grey;
  }

  /** A call that finds its module's low-link unchanged pops exactly that module's class. */
  lemma PopKeepsInv<V(!new)>(g: Graph<V>, s: State<V>, k: nat, v: V)
    requires AtRoot(g, s, k, v)
    ensures Inv(g, Pop(s, k, v))
  {
    PopKeepsColours(g, s, k, v);
    var t := Pop(s, k, v);
    forall x | x in t.grey
      ensures GreyReaches(g, t, x)
    {
      assert GreyReaches(g, s, x);
    }
    forall y | y in t.stack
      ensures HasAnchor(g, t, y)
    {
      PopKeepsAnchor(g, s, k, v, y);
    }
  }

  // ---------- the list of components ----------

  lemma AppendClass<V(!new)>(g: Graph<V>, r: seq<seq<V>>, S: set<V>, c: seq<V>, v: V)
    requires ClassesLeavesFirst(g, r) && Covers(r, S)
    requires NoDuplicates(c) && v in c
    requires forall x :: x in c ==> x !in S
    requires forall z :: z in c <==> Mutual(g, v, z)
    requires forall x :: x in c ==> Succ(g, x) <= S + Elements(c)
    ensures ClassesLeavesFirst(g, r + [c]) && Covers(r + [c], S + Elements(c))
  {
    var r' := r + [c];
    forall x, y | x in c
      ensures y in c <==> Mutual(g, x, y)
    {
      MutualIsEquivalence(g, v, x, y);
      MutualIsEquivalence(g, x, v, y);
      MutualIsEquivalence(g, v, x, x);
    }
    assert IsClass(g, c);
    forall x
      ensures x in S + Elements(c) <==> ListedBy(r', |r'| - 1, x)
    {
      ListedInAppended(r, c, x);
    }
    forall i | 0 <= i < |r'|
      ensures LeadsBack(g, r', i)
    {
      forall x, y | x in r'[i] && y in Succ(g, x)
        ensures ListedBy(r', i, y)
      {
        if i < |r| {
          assert LeadsBack(g, r, i) && x in r[i];
          assert ListedBy(r, i, y);
          var j :| 0 <= j <= i && j < |r| && y in r[j];
          assert y in r'[j];
        } else {
          assert y in S + Elements(c);
          ListedInAppended(r, c, y);
        }
      }
    }
    forall i, j, x | 0 <= i < j < |r'| && x in r'[i]
      ensures x !in r'[j]
    {
      if j == |r| {
        assert ListedBy(r, |r| - 1, x);
      }
    }
  }

  lemma ListedInAppended<V>(r: seq<seq<V>>, c: seq<V>, x: V)
    ensures ListedBy(r + [c], |r|, x) <==> ListedBy(r, |r| - 1, x) || x in c
  {
    var r' := r + [c];
    if ListedBy(r, |r| - 1, x) {
      var j :| 0 <= j <= |r| - 1 && j < |r| && x in r[j];
      assert x in r'[j];
    }
    if x in c {
      assert x in r'[|r|];
    }
  }

  // ---------- one strongconnect call, seen from its caller ----------

  ghost predicate Extends<V>(s: State<V>, t: State<V>) {
    && s.index.Keys <= t.index.Keys
    && (forall x {:trigger t.index[x]} :: x in s.index ==> t.index[x] == s.index[x])
    && |s.stack| <= |t.stack| && t.stack[..|s.stack|] == s.stack
    && t.grey == s.grey
  }

  /** What a call for v promises: v is indexed, and low is its index exactly when its component has been emitted. */
  ghost predicate Returned<V(!new)>(g: Graph<V>, s: State<V>, t: State<V>, v: V, low: nat)
    requires StackOk(s) && StackOk(t)
  {
    && Extends(s, t)
    && v in t.index && t.index[v] == s.counter
    && (|t.stack| == |s.stack| ==> low == t.index[v])
    && (|t.stack| > |s.stack| ==> low < t.index[v] && LowIsReached(g, s, v, low))
    && TailBounded(g, t, |s.stack|, low)
  }

  function Min(a: nat, b: nat): nat {
    if a <= b then a else b
  }

  // The loop over v's successors has lowered v's low-link far enough for w.
  ghost predicate Checked<V>(s: State<V>, k: nat, low: nat, w: V)
    requires StackOk(s) && k <= |s.stack|
  {
    w in s.index && forall j :: 0 <= j < k && s.stack[j] == w ==> low <= s.index[w]
  }

  /** Loop invariant of a call for v: the frame, and a low-link that bounds all that was found so far. */
  ghost predicate Scanning<V(!new)>(g: Graph<V>, s: State<V>, k: nat, v: V, low: nat, todo: set<V>)
    requires StackOk(s)
  {
    && Frame(g, s, k, v, low)
    && (forall i :: k < i < |s.stack| ==> Bounds(g, s, k, low, s.stack[i]))
    && (forall w {:trigger Checked(s, k, low, w)} :: w in Succ(g, v) - todo ==> Checked(s, k, low, w))
  }

  lemma LowAfterCall<V(!new)>(g: Graph<V>, s: State<V>, t: State<V>, v: V, low: nat, w: V, lowW: nat)
    requires StackOk(s) && StackOk(t) && Returned(g, s, t, w, lowW)
    requires w in Succ(g, v) && v in s.index && low <= s.index[v] && LowIsReached(g, s, v, low)
    ensures LowIsReached(g, t, v, Min(low, lowW))
  {
    if low <= lowW {
      var y :| y in s.stack && s.index[y] == low && Reaches(g, v, y);
      assert y in t.stack[..|s.stack|];
    } else {
      var y :| y in s.stack && s.index[y] == lowW && Reaches(g, w, y);
      assert y in t.stack[..|s.stack|];
      ReachesCons(g, v, w, y);
    }
  }

  lemma BoundsAfterCall<V(!new)>(g: Graph<V>, s: State<V>, t: State<V>, k: nat, low: nat, w: V, lowW: nat, i: nat)
    requires StackOk(s) && StackOk(t) && Returned(g, s, t, w, lowW)
    requires k < i < |t.stack| && k < |s.stack|
    requires i < |s.stack| ==> Bounds(g, s, k, low, s.stack[i])
    ensures Bounds(g, t, k, Min(low, lowW), t.stack[i])
  {
    forall j | 0 <= j < k && t.stack[j] in Succ(g, t.stack[i])
      ensures Min(low, lowW) <= t.index[t.stack[j]]
    {
      assert s.stack[j] == t.stack[..|s.stack|][j];
      if i < |s.stack| {
        assert s.stack[i] == t.stack[..|s.stack|][i];
      } else {
        assert Bounds(g, t, |s.stack|, lowW, t.stack[i]);
      }
    }
  }

  lemma FrameAfterCall<V(!new)>(g: Graph<V>, s: State<V>, t: State<V>, k: nat, v: V, low: nat, w: V, lowW: nat)
    requires StackOk(s) && StackOk(t) && Returned(g, s, t, w, lowW)
    requires Frame(g, s, k, v, low) && w in Succ(g, v)
    ensures Frame(g, t, k, v, Min(low, lowW))
  {
    LowAfterCall(g, s, t, v, low, w, lowW);
    assert t.stack[..|s.stack|][k] == s.stack[k];
    forall i | k < i < |t.stack|
      ensures t.stack[i] !in t.grey
    {
      if i < |s.stack| {
        assert t.stack[..|s.stack|][i] == s.stack[i];
      }
    }
  }

  lemma CheckedAfterCall<V(!new)>(g: Graph<V>, s: State<V>, t: State<V>, k: nat, low: nat, w: V, lowW: nat, u: V)
    requires StackOk(s) && StackOk(t) && Returned(g, s, t, w, lowW) && k < |s.stack| && w !in s.index
    requires u == w || Checked(s, k, low, u)
    ensures Checked(t, k, Min(low, lowW), u)
  {
    forall j | 0 <= j < k && t.stack[j] == u
      ensures Min(low, lowW) <= t.index[u]
    {
      assert s.stack[j] == t.stack[..|s.stack|][j];
    }
  }

  lemma ScanningAfterCall<V(!new)>(
    g: Graph<V>, s: State<V>, t: State<V>, k: nat, v: V, low: nat, todo: set<V>, w: V, lowW: nat)
    requires StackOk(s) && StackOk(t) && Returned(g, s, t, w, lowW)
    requires w in Succ(g, v) && w !in s.index && Scanning(g, s, k, v, low, todo)
    ensures Scanning(g, t, k, v, Min(low, lowW), todo - {w})
  {
    FrameAfterCall(g, s, t, k, v, low, w, lowW);
    forall i | k < i < |t.stack|
      ensures Bounds(g, t, k, Min(low, lowW), t.stack[i])
    {
      BoundsAfterCall(g, s, t, k, low, w, lowW, i);
    }
    forall u | u in Succ(g, v) - (todo - {w})
      ensures Checked(t, k, Min(low, lowW), u)
    {
      if u != w {
        assert Checked(s, k, low, u);
      }
      CheckedAfterCall(g, s, t, k, low, w, lowW, u);
    }
  }

  /** A successor that is already indexed: only one still on the stack may lower the low-link. */
  lemma ScanningAfterLook<V(!new)>(g: Graph<V>, s: State<V>, k: nat, v: V, low: nat, todo: set<V>, w: V)
    requires Inv(g, s) && Scanning(g, s, k, v, low, todo) && w in Succ(g, v) && w in s.index
    ensures Scanning(g, s, k, v, if w in s.stack then Min(low, s.index[w]) else low, todo - {w})
  {
    var low' := if w in s.stack then Min(low, s.index[w]) else low;
    ReachesEdge(g, v, w);
    assert LowIsReached(g, s, v, low');
    forall i | k < i < |s.stack|
      ensures Bounds(g, s, k, low', s.stack[i])
    {
      assert Bounds(g, s, k, low, s.stack[i]);
    }
    forall u | u in Succ(g, v) - (todo - {w})
      ensures Checked(s, k, low', u)
    {
      if u != w {
        assert Checked(s, k, low, u);
      }
    }
  }

  /** At the end of the loop the low-link bounds v's own edges too. */
  lemma ScanningDone<V(!new)>(g: Graph<V>, s: State<V>, k: nat, v: V, low: nat)
    requires StackOk(s) && Scanning(g, s, k, v, low, {})
    ensures Frame(g, s, k, v, low) && v in s.index && low <= s.index[v]
    ensures TailBounded(g, s, k, low) && Succ(g, v) <= s.index.Keys
  {
    forall j | 0 <= j < k && s.stack[j] in Succ(g, v)
      ensures low <= s.index[s.stack[j]]
    {
      assert Checked(s, k, low, s.stack[j]);
    }
    assert Bounds(g, s, k, low, s.stack[k]);
    forall w | w in Succ(g, v)
      ensures w in s.index
    {
      assert Checked(s, k, low, w);
    }
  }

  lemma ScanningStarts<V(!new)>(g: Graph<V>, s: State<V>, v: V)
    requires StackOk(s) && StackOk(Push(s, v)) && v !in s.index
    ensures Scanning(g, Push(s, v), |s.stack|, v, s.counter, Succ(g, v))
  {
    ReachesSelf(g, v);
    assert v in Push(s, v).stack && LowIsReached(g, Push(s, v), v, s.counter);
  }

  lemma Descend<V(!new)>(g: Graph<V>, s: State<V>, k: nat, v: V, low: nat, w: V)
    requires Inv(g, s) && Frame(g, s, k, v, low) && w in Succ(g, v)
    ensures forall x :: x in s.grey ==> Reaches(g, x, w)
    ensures w in Vertices(g)
  {
    ReachesEdge(g, v, w);
    forall x | x in s.grey
      ensures Reaches(g, x, w)
    {
      var j :| 0 <= j < |s.stack| && s.stack[j] == x;
      assert j <= k && s.index[x] <= s.index[v];
      assert GreyReaches(g, s, x);
      ReachesTrans(g, x, v, w);
    }
  }

  lemma ExtendsPushed<V>(s: State<V>, m: State<V>, v: V)
    requires v !in s.index && Extends(Push(s, v), m)
    ensures v in m.index && m.index[v] == s.counter
    ensures |m.stack| > |s.stack| && m.stack[..|s.stack|] == s.stack
    ensures forall x :: x in s.index ==> x in m.index && m.index[x] == s.index[x]
  {
    var p := Push(s, v);
    assert p.index[v] == s.counter;
    assert m.stack[..|s.stack| + 1][..|s.stack|] == m.stack[..|s.stack|];
    forall x | x in s.index
      ensures m.index[x] == s.index[x]
    {
      assert p.index[x] == s.index[x];
    }
  }

  lemma LowIsBelowFrame<V(!new)>(g: Graph<V>, s: State<V>, m: State<V>, v: V, low: nat)
    requires StackOk(s) && StackOk(m) && v !in s.index && Extends(Push(s, v), m)
    requires LowIsReached(g, m, v, low) && |s.stack| < |m.stack| && m.stack[|s.stack|] == v && low < m.index[v]
    ensures LowIsReached(g, s, v, low)
  {
    hide Reaches;
    ExtendsPushed(s, m, v);
    var y :| y in m.stack && m.index[y] == low && Reaches(g, v, y);
    var j :| 0 <= j < |m.stack| && m.stack[j] == y;
    assert j < |s.stack| && m.stack[..|s.stack|][j] == y;
  }

  lemma FinishKeepsBounds<V(!new)>(g: Graph<V>, m: State<V>, k: nat, v: V, low: nat)
    requires StackOk(m) && StackOk(Finish(m, v)) && k <= |m.stack| && TailBounded(g, m, k, low)
    ensures TailBounded(g, Finish(m, v), k, low)
  {
    forall i | k <= i < |m.stack|
      ensures Bounds(g, Finish(m, v), k, low, m.stack[i])
    {
      assert Bounds(g, m, k, low, m.stack[i]);
    }
  }

  /** Leaving strongconnect with the module still on the stack, seen from the caller's snapshot s. */
  lemma ReturnsUnfinished<V(!new)>(g: Graph<V>, s: State<V>, m: State<V>, v: V, low: nat)
    requires StackOk(s) && StackOk(m) && StackOk(Finish(m, v)) && v !in s.index && v !in s.grey
    requires Extends(Push(s, v), m) && Frame(g, m, |s.stack|, v, low) && TailBounded(g, m, |s.stack|, low)
    requires low < m.index[v]
    ensures Returned(g, s, Finish(m, v), v, low)
  {
    hide LowIsReached, TailBounded;
    ExtendsPushed(s, m, v);
    LowIsBelowFrame(g, s, m, v, low);
    FinishKeepsBounds(g, m, |s.stack|, v, low);
  }

  /** Leaving strongconnect with the component emitted. */
  lemma ReturnsEmitted<V(!new)>(g: Graph<V>, s: State<V>, m: State<V>, v: V)
    requires StackOk(s) && StackOk(m) && v !in s.index && v !in s.grey
    requires Extends(Push(s, v), m) && StackOk(Pop(m, |s.stack|, v))
    ensures Returned(g, s, Pop(m, |s.stack|, v), v, m.index[v])
  {
    ExtendsPushed(s, m, v);
  }

  function Reversed<T>(s: seq<T>): seq<T> {
    seq(|s|, i requires 0 <= i < |s| => s[|s| - 1 - i])
  }

  // Popping the top entry takes that module, and no other, off the stack.
  lemma PopOne<V>(s: State<V>, n: nat)
    requires StackOk(s) && 0 < n <= |s.stack|
    ensures forall i :: 0 <= i < n ==> (s.stack[i] in s.stack[..n - 1] <==> i < n - 1)
    ensures s.stack[n - 1] in s.index
    ensures forall i :: 0 <= i < n - 1 ==> s.stack[i] != s.stack[n - 1]
    ensures forall x :: x in s.stack[..n] && x != s.stack[n - 1] ==> x in s.stack[..n - 1]
    ensures forall x :: x in s.stack[..n - 1] ==> x in s.stack[..n]
    ensures Reversed(s.stack[n - 1..]) == Reversed(s.stack[n..]) + [s.stack[n - 1]]
  {
    forall i | 0 <= i < n && s.stack[i] in s.stack[..n - 1]
      ensures i < n - 1
    {
      var j :| 0 <= j < n - 1 && s.stack[j] == s.stack[i];
    }
    assert s.stack[..n] == s.stack[..n - 1] + [s.stack[n - 1]];
  }

  lemma ReversedTailIsClass<V(!new)>(g: Graph<V>, s: State<V>, k: nat, v: V, z: V)
    requires AtRoot(g, s, k, v) && k <= |s.stack|
    ensures z in Reversed(s.stack[k..]) <==> z in s.stack[k..]
    ensures z in Reversed(s.stack[k..]) <==> Mutual(g, v, z)
  {
    hide Inv, Frame, TailBounded, Mutual;
    var c := Reversed(s.stack[k..]);
    if z in s.stack[k..] {
      var i :| 0 <= i < |s.stack[k..]| && s.stack[k..][i] == z;
      assert c[|c| - 1 - i] == z;
    }
    TailIsRootsClass(g, s, k, v, z);
  }

  lemma ReversedKeepsDistinct<V>(s: State<V>, k: nat)
    requires StackOk(s) && k <= |s.stack|
    ensures NoDuplicates(Reversed(s.stack[k..]))
  {
    var c := Reversed(s.stack[k..]);
    forall i, j | 0 <= i < j < |c|
      ensures c[i] != c[j]
    {
      assert c[i] == s.stack[|s.stack| - 1 - i] && c[j] == s.stack[|s.stack| - 1 - j];
    }
  }

  lemma TailBecomesClass<V(!new)>(g: Graph<V>, s: State<V>, k: nat, v: V, r: seq<seq<V>>)
    requires AtRoot(g, s, k, v) && ClassesLeavesFirst(g, r) && Covers(r, s.done)
    ensures ClassesLeavesFirst(g, r + [Reversed(s.stack[k..])])
    ensures Covers(r + [Reversed(s.stack[k..])], s.done + Elements(s.stack[k..]))
  {
    var c := Reversed(s.stack[k..]);
    forall z
      ensures z in c <==> z in s.stack[k..]
      ensures z in c <==> Mutual(g, v, z)
    {
      ReversedTailIsClass(g, s, k, v, z);
    }
    assert v == s.stack[k..][0];
    assert Elements(c) == Elements(s.stack[k..]);
    ReversedKeepsDistinct(s, k);
    SplitStack(s, k);
    forall x | x in c
      ensures Succ(g, x) <= s.done + Elements(c)
    {
      PopKeepsDoneClosed(g, s, k, v, x);
    }
    AppendClass(g, r, s.done, c, v);
  }

  /** With no call in progress there is no grey module, so no module can be waiting on the stack. */
  lemma NothingLeftOnStack<V(!new)>(g: Graph<V>, s: State<V>)
    requires Inv(g, s) && s.grey == {} && g.Keys <= s.index.Keys
    ensures s.done == Vertices(g)
  {
    assert s.stack != [] ==> HasAnchor(g, s, s.stack[0]);
    forall u, v | u in g && v in g[u]
      ensures v in s.done
    {
      assert v in Succ(g, u);
    }
  }

  // ---------- the search itself ----------

  ghost predicate KeepsLow<V>(a: map<V, nat>, b: map<V, nat>) {
    forall x {:trigger b[x]} {:trigger a[x]} :: x in a ==> x in b && b[x] == a[x]
  }

  lemma KeepsLowReflexive<V>(a: map<V, nat>, v: V)
    ensures KeepsLow(a - {v}, a)
  {
  }

  lemma KeepsLowTransitive<V>(a: map<V, nat>, b: map<V, nat>, c: map<V, nat>, v: V)
    requires KeepsLow(a - {v}, b) && KeepsLow(b - {v}, c)
    ensures KeepsLow(a - {v}, c)
  {
    forall x | x in a - {v}
      ensures x in c && c[x] == (a - {v})[x]
    {
      assert (a - {v})[x] == a[x] && b[x] == (b - {v})[x];
    }
  }

  lemma KeepsLowPushed<V>(a: map<V, nat>, v: V, n: nat, b: map<V, nat>)
    requires v !in a && KeepsLow(a[v := n] - {v}, b)
    ensures KeepsLow(a, b)
  {
    assert a[v := n] - {v} == a;
  }

  lemma ExtendsReflexive<V>(s: State<V>)
    ensures Extends(s, s)
  {
  }

  lemma ExtendsTransitive<V>(s: State<V>, t: State<V>, u: State<V>)
    requires Extends(s, t) && Extends(t, u)
    ensures Extends(s, u) && s.index.Keys <= u.index.Keys
  {
    assert u.stack[..|t.stack|][..|s.stack|] == u.stack[..|s.stack|];
    forall x | x in s.index
      ensures u.index[x] == s.index[x]
    {
      assert t.index[x] == s.index[x];
    }
  }

  /** The variables strongconnect shares with its enclosing function. */
  class Search<V(==, !new)> {
    const graph: Graph<V>
    var counter: nat
    var stack: seq<V>
    var onStack: map<V, bool>
    var index: map<V, nat>
    var lowlink: map<V, nat>
    var result: seq<seq<V>>
    ghost var grey: set<V>
    ghost var done: set<V>

    ghost function Now(): State<V>
      reads this
    {
      State(index, counter, stack, grey, done)
    }

    ghost predicate Tables()
      reads this
    {
      && lowlink.Keys == index.Keys
      && onStack.Keys == index.Keys
      && (forall x :: x in index ==> (onStack[x] <==> x in stack))
    }

    ghost predicate ResultOk()
      reads this
    {
      ClassesLeavesFirst(graph, result) && Covers(result, done)
    }

    ghost predicate Valid()
      reads this
    {
      Inv(graph, Now()) && Tables() && ResultOk()
    }

    constructor (graph: Graph<V>)
      ensures this.graph == graph && Valid()
      ensures index == map[] && stack == [] && grey == {} && result == []
    {
      this.graph := graph;
      counter, stack, onStack, index, lowlink, result := 0, [], map[], map[], map[], [];
      grey, done := {}, {};
    }

    method Enter(v: V)
      requires Valid()
      requires v in Vertices(graph) && v !in index
      requires forall x :: x in grey ==> Reaches(graph, x, v)
      modifies `index, `lowlink, `counter, `stack, `onStack, `grey
      ensures Valid() && Now() == Push(old(Now()), v)
      ensures lowlink == old(lowlink)[v := old(counter)] && v !in old(grey)
      ensures Scanning(graph, Now(), |old(stack)|, v, lowlink[v], Succ(graph, v))
    {
      hide ClassesLeavesFirst, Covers, StackOk, ColoursOk, ReachOk, Scanning;
      PushEntersStack(graph, Now(), v);
      PushKeepsInv(graph, Now(), v);
      ScanningStarts(graph, Now(), v);
      index := index[v := counter];
      lowlink := lowlink[v := counter];
      counter := counter + 1;
      stack := stack + [v];
      onStack := onStack[v := true];
      grey := grey + {v};
    }

    /** strongconnect: on return v is indexed and its component, if v was the last of it, has been emitted. */
    method StrongConnect(v: V)
      requires Valid()
      requires v in Vertices(graph) && v !in index
      requires forall x :: x in grey ==> Reaches(graph, x, v)
      modifies this
      ensures Valid()
      ensures v in index && Returned(graph, old(Now()), Now(), v, lowlink[v])
      ensures KeepsLow(old(lowlink), lowlink)
      decreases Vertices(graph) - index.Keys, 0
    {
      hide ClassesLeavesFirst, Covers, StackOk, ColoursOk, ReachOk, Frame, TailBounded, LowIsReached, Reaches;
      hide Returned, Extends, KeepsLow, Scanning;
      ghost var start, low0 := Now(), lowlink;
      ghost var k := |stack|;
      Enter(v);
      ScanSuccessors(v, k);
      ghost var m := Now();
      KeepsLowPushed(low0, v, start.counter, lowlink);
      ExtendsPushed(start, m, v);
      if lowlink[v] == index[v] {
        EmitComponent(v, k);
        ReturnsEmitted(graph, start, m, v);
      } else {
        FinishKeepsInv(graph, m, k, v, lowlink[v]);
        ReturnsUnfinished(graph, start, m, v, lowlink[v]);
        grey := grey - {v};
      }
    }

    method ScanSuccessors(v: V, ghost k: nat)
      requires Valid() && v in index
      requires Scanning(graph, Now(), k, v, lowlink[v], Succ(graph, v))
      modifies this
      ensures Valid() && Extends(old(Now()), Now())
      ensures v in index && lowlink[v] <= index[v] && Frame(graph, Now(), k, v, lowlink[v])
      ensures TailBounded(graph, Now(), k, lowlink[v]) && Succ(graph, v) <= index.Keys
      ensures KeepsLow(old(lowlink) - {v}, lowlink)
      decreases Vertices(graph) - index.Keys, 2
    {
      hide ClassesLeavesFirst, Covers, StackOk, ColoursOk, ReachOk, Scanning, Extends, KeepsLow;
      ghost var s0, low0 := Now(), lowlink;
      ExtendsReflexive(s0);
      KeepsLowReflexive(low0, v);
      var todo := Succ(graph, v);
      while todo != {}
        invariant todo <= Succ(graph, v)
        invariant Valid() && Extends(s0, Now()) && s0.index.Keys <= index.Keys
        invariant v in index && Scanning(graph, Now(), k, v, lowlink[v], todo)
        invariant KeepsLow(low0 - {v}, lowlink)
      {
        var w :| w in todo;
        ghost var s, low := Now(), lowlink;
        VisitSuccessor(v, w, k, todo);
        ExtendsTransitive(s0, s, Now());
        KeepsLowTransitive(low0, low, lowlink, v);
        todo := todo - {w};
      }
      ScanningDone(graph, Now(), k, v, lowlink[v]);
    }

    method VisitSuccessor(v: V, w: V, ghost k: nat, ghost todo: set<V>)
      requires Valid() && v in index && w in Succ(graph, v)
      requires Scanning(graph, Now(), k, v, lowlink[v], todo)
      modifies this
      ensures Valid() && Extends(old(Now()), Now())
      ensures v in index && Scanning(graph, Now(), k, v, lowlink[v], todo - {w})
      ensures KeepsLow(old(lowlink) - {v}, lowlink)
      decreases Vertices(graph) - index.Keys, 1
    {
      hide ClassesLeavesFirst, Covers, ColoursOk, ReachOk, TailBounded, LowIsReached, Bounds, Checked;
      ghost var s := Now();
      ghost var low := lowlink[v];
      if w !in index {
        Descend(graph, s, k, v, low, w);
        StrongConnect(w);
        ScanningAfterCall(graph, s, Now(), k, v, low, todo, w, lowlink[w]);
        lowlink := lowlink[v := Min(lowlink[v], lowlink[w])];
      } else {
        ScanningAfterLook(graph, s, k, v, low, todo, w);
        if onStack[w] {
          lowlink := lowlink[v := Min(lowlink[v], index[w])];
        }
      }
    }

    /** The pop loop: takes everything from v upwards off the stack, newest first. */
    method EmitComponent(v: V, ghost k: nat)
      requires Valid() && AtRoot(graph, Now(), k, v)
      modifies `stack, `onStack, `result, `grey, `done
      ensures Valid() && Now() == Pop(old(Now()), k, v)
      ensures result == old(result) + [Reversed(old(stack)[k..])]
    {
      hide ClassesLeavesFirst, Covers, StackOk, ColoursOk, ReachOk, LowIsReached, TailBounded, Reversed;
      ghost var s := Now();
      TailBecomesClass(graph, s, k, v, result);
      PopKeepsInv(graph, s, k, v);
      var comp := PopUntil(v, k);
      result := result + [comp];
      grey := grey - {v};
      done := done + Elements(s.stack[k..]);
    }

    method PopUntil(v: V, ghost k: nat) returns (comp: seq<V>)
      requires StackOk(Now()) && Tables() && k < |stack| && stack[k] == v
      modifies `stack, `onStack
      ensures comp == Reversed(old(stack)[k..]) && stack == old(stack)[..k]
      ensures Tables()
    {
      hide StackOk;
      ghost var s := Now();
      assert s.stack[..|s.stack|] == s.stack;
      comp := [];
      while true
        invariant k < |stack| <= |s.stack| && stack == s.stack[..|stack|]
        invariant comp == Reversed(s.stack[|stack|..])
        invariant Tables()
        decreases |stack|
      {
        var w := stack[|stack| - 1];
        PopOne(s, |stack|);
        stack := stack[..|stack| - 1];
        onStack := onStack[w := false];
        comp := comp + [w];
        if w == v {
          break;
        }
      }
    }
  }

  /** strongly_connected_components: every module not reached yet starts a search, in any order. */
  method StronglyConnectedComponents<V(==, !new)>(graph: Graph<V>) returns (result: seq<seq<V>>)
    ensures IsCondensation(graph, result)
  {
    var search := new Search(graph);
    var todo := graph.Keys;
    while todo != {}
      invariant todo <= graph.Keys
      invariant search.graph == graph && search.Valid() && fresh(search)
      invariant search.grey == {} && graph.Keys - todo <= search.index.Keys
    {
      var v :| v in todo;
      if v !in search.index {
        search.StrongConnect(v);
      }
      todo := todo - {v};
    }
    result := search.result;
    NothingLeftOnStack(graph, search.Now());
  }
}

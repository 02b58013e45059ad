/**
 The weighted arcs of a dependency cycle: out_edges of scripts/analyze_root_crate.py,
 a map from a module to its targets and their reference counts, seen as a finite
 set of arcs whose weights can be summed.
 */
module Weights {
  import opened Graphs

  type Weighted<V> = map<V, map<V, nat>>

  datatype Arc<V> = Arc(src: V, dst: V)

  function Links<V>(w: Weighted<V>): Graph<V> {
    map u | u in w :: w[u].Keys
  }

  // in_w[v] is a key error for a target that is not a node.
  ghost predicate Closed<V(!new)>(w: Weighted<V>) {
    forall u, v :: u in w && v in w[u] ==> v in w
  }

  function ArcsOf<V>(w: Weighted<V>): set<Arc<V>> {
    set u, v | u in w && v in w[u] :: Arc(u, v)
  }

  // The arcs with both ends in R.
  function Within<V>(w: Weighted<V>, R: set<V>): set<Arc<V>> {
    set a | a in ArcsOf(w) && a.src in R && a.dst in R
  }

  function WeightOf<V>(w: Weighted<V>, a: Arc<V>): nat {
    if a.src in w && a.dst in w[a.src] then w[a.src][a.dst] else 0
  }

  ghost function Total<V>(w: Weighted<V>, A: set<Arc<V>>): nat {
    if A == {} then 0 else var a :| a in A; WeightOf(w, a) + Total(w, A - {a})
  }

  /** Total does not depend on the order of summation. */
  lemma {:induction false} TotalRemove<V(!new)>(w: Weighted<V>, A: set<Arc<V>>, a: Arc<V>)
    requires a in A
    ensures Total(w, A) == WeightOf(w, a) + Total(w, A - {a})
    decreases A
  {
    var b :| b in A && Total(w, A) == WeightOf(w, b) + Total(w, A - {b});
    if a != b {
      TotalRemove(w, A - {b}, a);
      TotalRemove(w, A - {a}, b);
      assert A - {b} - {a} == A - {a} - {b};
    }
  }

  lemma {:induction false} TotalUnion<V(!new)>(w: Weighted<V>, A: set<Arc<V>>, B: set<Arc<V>>)
    requires A !! B
    ensures Total(w, A + B) == Total(w, A) + Total(w, B)
    decreases A
  {
    if A == {} {
      assert A + B == B;
    } else {
      var a :| a in A;
      TotalUnion(w, A - {a}, B);
      TotalRemove(w, A, a);
      TotalRemove(w, A + B, a);
      assert A + B - {a} == (A - {a}) + B;
    }
  }

  lemma TotalMonotone<V(!new)>(w: Weighted<V>, A: set<Arc<V>>, B: set<Arc<V>>)
    requires A <= B
    ensures Total(w, A) <= Total(w, B)
  {
    TotalUnion(w, A, B - A);
    assert A + (B - A) == B;
  }

  function From<V(==)>(A: set<Arc<V>>, n: V): set<Arc<V>> {
    set a | a in A && a.src == n
  }

  function Into<V(==)>(A: set<Arc<V>>, n: V): set<Arc<V>> {
    set a | a in A && a.dst == n
  }

  function FromAny<V>(A: set<Arc<V>>, S: set<V>): set<Arc<V>> {
    set a | a in A && a.src in S
  }

  function IntoAny<V>(A: set<Arc<V>>, S: set<V>): set<Arc<V>> {
    set a | a in A && a.dst in S
  }

  lemma PeelFrom<V(!new)>(w: Weighted<V>, A: set<Arc<V>>, S: set<V>, n: V)
    requires n in S
    ensures Total(w, FromAny(A, S)) == Total(w, From(A, n)) + Total(w, FromAny(A, S - {n}))
  {
    TotalUnion(w, From(A, n), FromAny(A, S - {n}));
    assert FromAny(A, S) == From(A, n) + FromAny(A, S - {n});
  }

  lemma PeelInto<V(!new)>(w: Weighted<V>, A: set<Arc<V>>, S: set<V>, n: V)
    requires n in S
    ensures Total(w, IntoAny(A, S)) == Total(w, Into(A, n)) + Total(w, IntoAny(A, S - {n}))
  {
    TotalUnion(w, Into(A, n), IntoAny(A, S - {n}));
    assert IntoAny(A, S) == Into(A, n) + IntoAny(A, S - {n});
  }

  /** Nodes that all take in more than they give out take in more together, by at least one each. */
  lemma {:induction false} DeficitsAddUp<V(!new)>(w: Weighted<V>, A: set<Arc<V>>, S: set<V>)
    requires forall n :: n in S ==> Total(w, From(A, n)) < Total(w, Into(A, n))
    ensures Total(w, FromAny(A, S)) + |S| <= Total(w, IntoAny(A, S))
    decreases S
  {
    if S == {} {
      assert FromAny(A, S) == {} && IntoAny(A, S) == {};
    } else {
      var n :| n in S;
      PeelFrom(w, A, S, n);
      PeelInto(w, A, S, n);
      DeficitsAddUp(w, A, S - {n});
    }
  }

  lemma WithinIsClosed<V(!new)>(w: Weighted<V>, R: set<V>)
    ensures FromAny(Within(w, R), R) == IntoAny(Within(w, R), R) == Within(w, R)
  {
  }

  /** Within a closed set what goes out equals what comes in, so some node gives out at least what it takes in. */
  lemma SomeNodeHasNoDeficit<V(!new)>(w: Weighted<V>, R: set<V>)
    requires R != {}
    ensures exists n :: n in R && Total(w, From(Within(w, R), n)) >= Total(w, Into(Within(w, R), n))
  {
    hide Total, Within;
    var A := Within(w, R);
    WithinIsClosed(w, R);
    if forall n :: n in R ==> Total(w, From(A, n)) < Total(w, Into(A, n)) {
      DeficitsAddUp(w, A, R);
    }
  }
}

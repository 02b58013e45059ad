/** collect_descendants of scripts/bench_memory_cli.py: the process tree behind the memory totals. */
module ProcessTree {
  import opened Graphs

  datatype Pid = Pid(number: int)

  /** /proc as read once: a process and its parent's pid. A table read while pids are reused may have cycles. */
  type ProcessTable = map<Pid, Pid>

  ghost predicate ClosedUnderChildren(ppidOf: ProcessTable, S: set<Pid>) {
    forall pid :: pid in ppidOf && ppidOf[pid] in S ==> pid in S
  }

  /** S is the least set that has the roots and, with a process, all its children. */
  ghost predicate IsDescendantClosure(ppidOf: ProcessTable, roots: seq<Pid>, S: set<Pid>) {
    && (forall r :: r in roots ==> r in S)
    && ClosedUnderChildren(ppidOf, S)
    && forall T :: (forall r :: r in roots ==> r in T) && ClosedUnderChildren(ppidOf, T) ==> S <= T
  }

  ghost predicate ChildLists(ppidOf: ProcessTable, children: map<Pid, seq<Pid>>) {
    && (forall p, c :: p in children && c in children[p] ==> c in ppidOf && ppidOf[c] == p)
    && (forall c :: c in ppidOf ==> ppidOf[c] in children && c in children[ppidOf[c]])
  }

  method ChildrenOf(ppidOf: ProcessTable) returns (children: map<Pid, seq<Pid>>)
    ensures ChildLists(ppidOf, children)
  {
    children := map[];
    var todo := ppidOf.Keys;
    while todo != {}
      invariant todo <= ppidOf.Keys
      invariant forall p, c :: p in children && c in children[p] ==> c in ppidOf && ppidOf[c] == p
      invariant forall c :: c in ppidOf && c !in todo ==> ppidOf[c] in children && c in children[ppidOf[c]]
    {
      var pid :| pid in todo;
      todo := todo - {pid};
      var ppid := ppidOf[pid];
      var siblings := if ppid in children then children[ppid] else [];
      children := children[ppid := siblings + [pid]];
    }
  }

  /** The stack holds duplicates and already seen processes; the result is the closure all the same. */
  method CollectDescendants(ppidOf: ProcessTable, roots: seq<Pid>) returns (seen: set<Pid>)
    ensures IsDescendantClosure(ppidOf, roots, seen)
  {
    var children := ChildrenOf(ppidOf);
    seen := {};
    var stack := roots;
    ghost var universe := (set r | r in roots) + ppidOf.Keys;
    while stack != []
      invariant seen <= universe && forall p :: p in stack ==> p in universe
      invariant forall r :: r in roots ==> r in seen || r in stack
      invariant forall c :: c in ppidOf && ppidOf[c] in seen ==> c in seen || c in stack
      invariant forall T :: (forall r :: r in roots ==> r in T) && ClosedUnderChildren(ppidOf, T)
                  ==> seen <= T && forall p :: p in stack ==> p in T
      decreases universe - seen, |stack|
    {
      var pid := stack[|stack| - 1];
      ghost var before := stack;
      stack := stack[..|stack| - 1];
      assert forall p :: p in before ==> p == pid || p in stack;
      if pid !in seen {
        seen := seen + {pid};
        var own := if pid in children then children[pid] else [];
        assert forall c :: c in ppidOf && ppidOf[c] == pid ==> c in own;
        stack := stack + own;
      }
    }
  }

  // From a process to its children.
  ghost function ChildGraph(ppidOf: ProcessTable): Graph<Pid> {
    map p | p in ppidOf.Values :: set c | c in ppidOf && ppidOf[c] == p
  }

  ghost predicate FromSomeRoot(ppidOf: ProcessTable, roots: seq<Pid>, x: Pid) {
    exists r :: r in roots && Reaches(ChildGraph(ppidOf), r, x)
  }

  lemma ChildIsSuccessor(ppidOf: ProcessTable, p: Pid, c: Pid)
    ensures c in Succ(ChildGraph(ppidOf), p) <==> c in ppidOf && ppidOf[c] == p
  {
  }

  lemma ReachableIsClosed(ppidOf: ProcessTable, roots: seq<Pid>, S: set<Pid>)
    requires ClosedUnderChildren(ppidOf, S)
    ensures ClosedUnderChildren(ppidOf, set x | x in S && FromSomeRoot(ppidOf, roots, x))
  {
    hide Reaches, ChildGraph;
    forall c | c in ppidOf && ppidOf[c] in S && FromSomeRoot(ppidOf, roots, ppidOf[c])
      ensures c in S && FromSomeRoot(ppidOf, roots, c)
    {
      var g, p := ChildGraph(ppidOf), ppidOf[c];
      var r :| r in roots && Reaches(g, r, p);
      ChildIsSuccessor(ppidOf, p, c);
      ReachesEdge(g, p, c);
      ReachesTrans(g, r, p, c);
    }
  }

  /** The closure is the set of processes that some root reaches from parent to child, cycles or not. */
  lemma ClosureIsWhatRootsReach(ppidOf: ProcessTable, roots: seq<Pid>, S: set<Pid>, x: Pid)
    requires IsDescendantClosure(ppidOf, roots, S)
    ensures x in S <==> FromSomeRoot(ppidOf, roots, x)
  {
    hide Reaches, ChildGraph;
    var g := ChildGraph(ppidOf);
    var T := set y | y in S && FromSomeRoot(ppidOf, roots, y);
    ReachableIsClosed(ppidOf, roots, S);
    forall r | r in roots
      ensures r in T
    {
      ReachesSelf(g, r);
    }
    if FromSomeRoot(ppidOf, roots, x) {
      var r :| r in roots && Reaches(g, r, x);
      forall p | p in S
        ensures Succ(g, p) <= S
      {
        forall c | c in Succ(g, p)
          ensures c in S
        {
          ChildIsSuccessor(ppidOf, p, c);
        }
      }
      ClosedSetKeepsWalks(g, r, x, S);
    }
  }
}

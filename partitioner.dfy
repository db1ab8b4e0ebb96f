/** The partitioner (SCCDAGPartitioner): the policy layer over the partition
    graph. It numbers the tracked SCCs in program order, answers ancestry
    queries and drives the merge passes. */
module SccDagPartitioner {
  import opened Wrappers
  import opened SetGraph
  import opened SccDagPartition
  import opened LoopCfg

  /** The sum of `Pow(base, rank[q[i]])` over the queue: the measure under which
      the ancestor search shrinks on an acyclic graph. */
  ghost function RankWeight(q: seq<Handle>, rank: map<Handle, nat>, base: nat): nat
    requires forall x :: x in q ==> x in rank
  {
    if q == [] then 0 else Pow(base, rank[q[0]]) + RankWeight(q[1..], rank, base)
  }

  function Pow(b: nat, k: nat): (r: nat)
    ensures b > 0 ==> r > 0
  {
    if k == 0 then 1 else b * Pow(b, k - 1)
  }

  lemma {:induction false} PowMono(b: nat, j: nat, k: nat)
    requires b > 0 && j <= k
    ensures Pow(b, j) <= Pow(b, k)
    decreases k
  {
    if j < k {
      PowMono(b, j, k - 1);
      assert Pow(b, k) == b * Pow(b, k - 1);
    }
  }

  lemma {:induction false} RankWeightAppend(q: seq<Handle>, x: Handle, rank: map<Handle, nat>, base: nat)
    requires forall y :: y in q ==> y in rank
    requires x in rank
    ensures RankWeight(q + [x], rank, base) == RankWeight(q, rank, base) + Pow(base, rank[x])
  {
    if q == [] {
      assert [] + [x] == [x];
    } else {
      assert (q + [x])[1..] == q[1..] + [x];
      RankWeightAppend(q[1..], x, rank, base);
    }
  }

  /** `k * unit`, by repeated addition. */
  function Times(k: nat, unit: nat): (r: nat)
    ensures unit > 0 ==> r >= k
  {
    if k == 0 then 0 else Times(k - 1, unit) + unit
  }

  /** Fewer than `base` units of `Pow(base, top - 1)` weigh less than `Pow(base, top)`. */
  lemma {:induction false} TimesBelow(j: nat, base: nat, unit: nat)
    requires j < base && unit > 0
    ensures Times(j, unit) < Times(base, unit)
    decreases base
  {
    if j < base - 1 {
      TimesBelow(j, base - 1, unit);
    }
  }

  lemma {:induction false} TimesIsPow(base: nat, top: nat)
    requires top > 0
    ensures Times(base, Pow(base, top - 1)) == Pow(base, top)
  {
    TimesIsProduct(base, Pow(base, top - 1));
  }

  lemma {:induction false} TimesIsProduct(k: nat, unit: nat)
    ensures Times(k, unit) == k * unit
  {
    if k > 0 {
      TimesIsProduct(k - 1, unit);
      assert k * unit == (k - 1) * unit + unit;
    }
  }

  /** A proper ancestor of `y` is a parent of `y` or a proper ancestor of one. */
  lemma AncestorOfParent(es: seq<Edge>, a: Handle, y: Handle)
    ensures ProperAncestor(es, a, y) ==> (a, y) in es || exists z :: (z, y) in es && ProperAncestor(es, a, z)
  {
    if ProperAncestor(es, a, y) {
      var c :| (a, c) in es && Reaches(es, c, y);
      if c != y {
        ReachesLastStep(es, c, y);
        var z :| (z, y) in es && Reaches(es, c, z);
        assert ProperAncestor(es, a, z);
      }
    }
  }

  /** A parent of a node from which `target` is reachable is a proper ancestor of `target`. */
  lemma ParentIsAncestor(es: seq<Edge>, p: Handle, x: Handle, target: Handle)
    requires (p, x) in es && Reaches(es, x, target)
    ensures ProperAncestor(es, p, target)
  {
  }

  /** The search of `isMergeIntroducingCycle`: walk incoming edges back from
      `target`, breadth first, until `parentTarget` is met. */
  method IsAncestor(es: seq<Edge>, parentTarget: Handle, target: Handle, ghost rank: map<Handle, nat>) returns (found: bool)
    requires IsTopologicalRank(es, rank) && target in rank
    ensures found <==> ProperAncestor(es, parentTarget, target)
  {
    ghost var base := |es| + 1;
    ReachesRefl(es, target);
    var setToCheck := [target];
    while setToCheck != []
      invariant forall x :: x in setToCheck ==> x in rank && Reaches(es, x, target)
      invariant ProperAncestor(es, parentTarget, target) ==> exists y :: y in setToCheck && ProperAncestor(es, parentTarget, y)
      decreases RankWeight(setToCheck, rank, base)
    {
      ghost var before := setToCheck;
      var current := setToCheck[0];
      setToCheck := setToCheck[1..];
      AncestorOfParent(es, parentTarget, current);
      var parents := IncomingOf(es, current);
      if |parents| == 0 {
        continue;
      }
      found, setToCheck := EnqueueParents(es, parents, parentTarget, setToCheck, current, target, rank, base);
      if found {
        return true;
      }
      assert RankWeight(before, rank, base) == Pow(base, rank[current]) + RankWeight(before[1..], rank, base);
    }
    return false;
  }

  /** A parent of `current` can reach `target`, and weighs at most a unit
      of the level below `current`. */
  lemma EnqueuedParent(es: seq<Edge>, p: Handle, current: Handle, target: Handle, rank: map<Handle, nat>, base: nat)
    requires IsTopologicalRank(es, rank) && base == |es| + 1
    requires (p, current) in es && Reaches(es, current, target)
    ensures p in rank && current in rank && rank[current] > 0 && Reaches(es, p, target)
    ensures Pow(base, rank[p]) <= Pow(base, rank[current] - 1)
  {
    ReachesRefl(es, p);
    ReachesStep(es, p, p, current);
    ReachesTrans(es, p, current, target);
    PowMono(base, rank[p], rank[current] - 1);
  }

  /** The inner loop of the search: compare each parent of `current` with
      `parentTarget` and enqueue it. */
  method EnqueueParents(es: seq<Edge>, parents: seq<Handle>, parentTarget: Handle, queue0: seq<Handle>,
                        current: Handle, target: Handle, ghost rank: map<Handle, nat>, ghost base: nat)
      returns (found: bool, queue: seq<Handle>)
    requires IsTopologicalRank(es, rank) && base == |es| + 1
    requires (forall p :: p in parents ==> (p, current) in es) && 0 < |parents| <= |es|
    requires Reaches(es, current, target)
    requires forall x :: x in queue0 ==> x in rank && Reaches(es, x, target)
    ensures found <==> parentTarget in parents
    ensures found ==> ProperAncestor(es, parentTarget, target)
    ensures !found ==> queue == queue0 + parents
    ensures !found ==> forall x :: x in queue ==> x in rank && Reaches(es, x, target)
    ensures !found ==> current in rank && RankWeight(queue, rank, base) < RankWeight(queue0, rank, base) + Pow(base, rank[current])
  {
    assert parents[0] in parents;
    ghost var top := rank[current];
    ghost var unit := Pow(base, top - 1);
    queue := queue0;
    var j := 0;
    while j < |parents|
      invariant 0 <= j <= |parents|
      invariant parentTarget !in parents[..j]
      invariant queue == queue0 + parents[..j]
      invariant forall x :: x in queue ==> x in rank && Reaches(es, x, target)
      invariant RankWeight(queue, rank, base) <= RankWeight(queue0, rank, base) + Times(j, unit)
    {
      var parentSet := parents[j];
      assert parentSet in parents;
      if parentSet == parentTarget {
        ParentIsAncestor(es, parentSet, current, target);
        return true, queue;
      }
      EnqueuedParent(es, parentSet, current, target, rank, base);
      RankWeightAppend(queue, parentSet, rank, base);
      assert parents[..j + 1] == parents[..j] + [parentSet];
      queue := queue + [parentSet];
      j := j + 1;
    }
    assert parents[..j] == parents;
    TimesBelow(j, base, unit);
    TimesIsPow(base, top);
    found := false;
  }

  /** The state of the numbering after `recorded` has been numbered from
      position 0 on, over the slots `base` and the earlier index `idx0`;
      `encountered` holds the SCCs numbered so far and `count` their number. */
  ghost predicate IsNumbering(order: seq<Option<Scc>>, index: map<Scc, nat>, tracked: set<Scc>,
                              count: nat, recorded: seq<Scc>, encountered: set<Scc>,
                              base: seq<Option<Scc>>, idx0: map<Scc, nat>)
  {
    && |order| == |base| == |tracked|
    && count == |recorded| == |encountered| && NoDuplicates(recorded)
    && (forall s :: s in encountered <==> s in recorded)
    && encountered <= tracked
    && (forall i :: 0 <= i < |base| ==> order[i] == if i < count then Some(recorded[i]) else base[i])
    && index == IndexMap(idx0, recorded)
  }

  /** Numbering one more tracked SCC stays within the slots and keeps the state. */
  lemma NumberingRecord(order: seq<Option<Scc>>, index: map<Scc, nat>, tracked: set<Scc>,
                        count: nat, recorded: seq<Scc>, encountered: set<Scc>,
                        base: seq<Option<Scc>>, idx0: map<Scc, nat>, s: Scc)
    requires IsNumbering(order, index, tracked, count, recorded, encountered, base, idx0)
    requires s in tracked && s !in encountered
    ensures count < |order|
    ensures IsNumbering(order[count := Some(s)], index[s := count], tracked,
                        count + 1, recorded + [s], encountered + {s}, base, idx0)
  {
    SubsetNoLarger(encountered + {s}, tracked);
    assert (recorded + [s])[..|recorded|] == recorded;
  }

  /** `visit` is in program-forward order from `header`: the header comes
      first, and every later block is a successor of a block visited before it. */
  ghost predicate InForwardOrder(cfg: Cfg, header: Block, visit: seq<Block>) {
    && (visit != [] ==> visit[0] == header)
    && forall i :: 0 < i < |visit| ==> exists j :: 0 <= j < i && visit[i] in Successors(cfg, visit[j])
  }

  /** Every block on the stack is the header or a successor of a visited block. */
  ghost predicate StackFromVisit(cfg: Cfg, header: Block, visit: seq<Block>, todos: seq<Block>) {
    forall b :: b in todos ==> b == header || exists j :: 0 <= j < |visit| && b in Successors(cfg, visit[j])
  }

  /** The state of the depth-first walk of `resetPartitioner` over the blocks
      of a loop from its header: the blocks are visited in program-forward
      order, every block on the stack is the header or a successor of a
      visited block, and the walk covers what it has reached so far. */
  ghost predicate WalkState(cfg: Cfg, blocks: set<Block>, header: Block,
                            visited: set<Block>, visit: seq<Block>, todos: seq<Block>)
  {
    && InForwardOrder(cfg, header, visit)
    && StackFromVisit(cfg, header, visit, todos)
    && WalkCover(cfg, blocks, header, visited, visit, todos)
  }

  /** `visited` (the blocks of `visit`, each once) and the stack `todos` hold
      only reached blocks, and every successor in the loop of a visited block
      is visited or still on the stack. */
  ghost predicate WalkCover(cfg: Cfg, blocks: set<Block>, header: Block,
                            visited: set<Block>, visit: seq<Block>, todos: seq<Block>)
  {
    && visited <= blocks
    && (forall b :: b in visited <==> b in visit)
    && NoDuplicates(visit)
    && (forall b :: b in visit ==> ReachedFrom(cfg, blocks, header, b))
    && (forall b :: b in todos ==> ReachedFrom(cfg, blocks, header, b))
    && (forall a, s :: a in visited && s in Successors(cfg, a) && s in blocks ==> s in visited || s in todos)
    && (header in blocks ==> header in visited || header in todos)
  }

  lemma WalkStart(cfg: Cfg, blocks: set<Block>, header: Block)
    ensures WalkState(cfg, blocks, header, {}, [], [header])
  {
    ReachedFromStart(cfg, blocks, header);
  }

  /** The stack seen as its rest with the top block appended. */
  lemma WalkPop(cfg: Cfg, blocks: set<Block>, header: Block,
                visited: set<Block>, visit: seq<Block>, todos: seq<Block>)
    requires WalkState(cfg, blocks, header, visited, visit, todos) && todos != []
    ensures WalkState(cfg, blocks, header, visited, visit, todos[..|todos| - 1] + [todos[|todos| - 1]])
  {
    assert todos[..|todos| - 1] + [todos[|todos| - 1]] == todos;
  }

  /** Popping a block outside the loop or already visited keeps the state. */
  lemma WalkSkip(cfg: Cfg, blocks: set<Block>, header: Block,
                 visited: set<Block>, visit: seq<Block>, todos: seq<Block>, bb: Block)
    requires WalkState(cfg, blocks, header, visited, visit, todos + [bb])
    requires bb !in blocks || bb in visited
    ensures WalkState(cfg, blocks, header, visited, visit, todos)
  {
    WalkSkipCover(cfg, blocks, header, visited, visit, todos, bb);
    forall b | b in todos
      ensures b == header || exists j :: 0 <= j < |visit| && b in Successors(cfg, visit[j])
    {
      assert b in todos + [bb];
    }
  }

  lemma WalkSkipCover(cfg: Cfg, blocks: set<Block>, header: Block,
                      visited: set<Block>, visit: seq<Block>, todos: seq<Block>, bb: Block)
    requires WalkCover(cfg, blocks, header, visited, visit, todos + [bb])
    requires bb !in blocks || bb in visited
    ensures WalkCover(cfg, blocks, header, visited, visit, todos)
  {
  }

  /** Visiting a popped block of the loop and pushing its unvisited successors
      keeps the state. */
  lemma WalkVisit(cfg: Cfg, blocks: set<Block>, header: Block,
                  visited: set<Block>, visit: seq<Block>, todos: seq<Block>, bb: Block, pushed: seq<Block>)
    requires WalkState(cfg, blocks, header, visited, visit, todos + [bb])
    requires bb in blocks && bb !in visited
    requires forall b :: b in pushed <==> b in todos || (b in Successors(cfg, bb) && b !in visited + {bb})
    ensures WalkState(cfg, blocks, header, visited + {bb}, visit + [bb], pushed)
  {
    WalkVisitOrder(cfg, header, visit, todos, bb, pushed);
    WalkVisitCover(cfg, blocks, header, visited, visit, todos, bb, pushed);
  }

  lemma WalkVisitCover(cfg: Cfg, blocks: set<Block>, header: Block,
                       visited: set<Block>, visit: seq<Block>, todos: seq<Block>, bb: Block, pushed: seq<Block>)
    requires WalkCover(cfg, blocks, header, visited, visit, todos + [bb])
    requires bb in blocks && bb !in visited
    requires forall b :: b in pushed <==> b in todos || (b in Successors(cfg, bb) && b !in visited + {bb})
    ensures WalkCover(cfg, blocks, header, visited + {bb}, visit + [bb], pushed)
  {
    assert bb in todos + [bb];
    forall s | s in Successors(cfg, bb)
      ensures ReachedFrom(cfg, blocks, header, s)
    {
      ReachedFromStep(cfg, blocks, header, bb, s);
    }
  }

  /** Visiting the block popped from the stack and pushing its successors keeps
      the visit in program-forward order: the first block visited is the
      header, and every later one was pushed as a successor of a visited block. */
  lemma WalkVisitOrder(cfg: Cfg, header: Block, visit0: seq<Block>, todos0: seq<Block>, bb: Block, pushed: seq<Block>)
    requires InForwardOrder(cfg, header, visit0) && StackFromVisit(cfg, header, visit0, todos0 + [bb])
    requires bb !in visit0
    requires forall b :: b in pushed ==> b in todos0 || b in Successors(cfg, bb)
    ensures InForwardOrder(cfg, header, visit0 + [bb])
    ensures StackFromVisit(cfg, header, visit0 + [bb], pushed)
  {
    VisitAfterPredecessor(cfg, header, visit0, todos0, bb);
    var visit := visit0 + [bb];
    forall b | b in pushed
      ensures b == header || exists j :: 0 <= j < |visit| && b in Successors(cfg, visit[j])
    {
      if b in todos0 && b != header {
        assert b in todos0 + [bb];
        var j :| 0 <= j < |visit0| && b in Successors(cfg, visit0[j]);
        assert visit[j] == visit0[j];
      } else if b != header {
        assert visit[|visit0|] == bb;
      }
    }
  }

  /** The block popped from the stack is the header when nothing has been
      visited yet, and a successor of a visited block otherwise. */
  lemma VisitAfterPredecessor(cfg: Cfg, header: Block, visit0: seq<Block>, todos0: seq<Block>, bb: Block)
    requires InForwardOrder(cfg, header, visit0) && StackFromVisit(cfg, header, visit0, todos0 + [bb])
    requires bb !in visit0
    ensures InForwardOrder(cfg, header, visit0 + [bb])
  {
    var visit := visit0 + [bb];
    assert bb in todos0 + [bb];
    assert visit[|visit0|] == bb;
    forall i | 0 < i < |visit|
      ensures exists j :: 0 <= j < i && visit[i] in Successors(cfg, visit[j])
    {
      if i < |visit0| {
        var j :| 0 <= j < i && visit0[i] in Successors(cfg, visit0[j]);
        assert visit[i] == visit0[i] && visit[j] == visit0[j];
      } else {
        assert visit0 != [] && visit0[0] == header;
        assert bb != header;
        var j :| 0 <= j < |visit0| && bb in Successors(cfg, visit0[j]);
        assert visit[j] == visit0[j];
      }
    }
  }

  /** When the stack is empty, the walk has visited exactly the blocks of the
      loop reached from the header. */
  lemma WalkDone(cfg: Cfg, blocks: set<Block>, header: Block, visited: set<Block>, visit: seq<Block>)
    requires WalkState(cfg, blocks, header, visited, visit, [])
    ensures forall b :: b in visit <==> b in blocks && ReachedFrom(cfg, blocks, header, b)
  {
    forall b
      ensures b in blocks && ReachedFrom(cfg, blocks, header, b) ==> b in visit
    {
      ClosedSetHoldsReached(cfg, blocks, header, visited, b);
    }
  }

  lemma TrackedSccsSnoc(trace: seq<Scc>, values: seq<Value>, k: nat, sccOfValue: map<Value, Scc>, tracked: set<Scc>)
    requires k < |values|
    ensures trace + TrackedSccs(values[..k + 1], sccOfValue, tracked)
         == (trace + TrackedSccs(values[..k], sccOfValue, tracked)) + TrackedSccs([values[k]], sccOfValue, tracked)
  {
    assert values[..k + 1][..k] == values[..k];
    assert [values[k]][..0] == [];
  }

  /** What a numbering state says about the slots and the index. */
  lemma NumberingFinal(order: seq<Option<Scc>>, index: map<Scc, nat>, tracked: set<Scc>,
                       count: nat, recorded: seq<Scc>, encountered: set<Scc>,
                       base: seq<Option<Scc>>, idx0: map<Scc, nat>)
    requires IsNumbering(order, index, tracked, count, recorded, encountered, base, idx0)
    ensures |recorded| <= |tracked| == |order|
    ensures index == IndexMap(idx0, recorded)
    ensures forall i :: 0 <= i < |order| ==> order[i] == if i < |recorded| then Some(recorded[i]) else base[i]
  {
    SubsetNoLarger(encountered, tracked);
  }

  /** Pushes, in order, each of `succs` that has not been visited. */
  method PushUnvisited(todos0: seq<Block>, succs: seq<Block>, visited: set<Block>) returns (todos: seq<Block>)
    ensures todos == todos0 + Unencountered(succs, visited)
    ensures forall b :: b in todos <==> b in todos0 || (b in succs && b !in visited)
  {
    todos := todos0;
    var j := 0;
    while j < |succs|
      invariant 0 <= j <= |succs|
      invariant todos == todos0 + Unencountered(succs[..j], visited)
    {
      assert succs[..j + 1] == succs[..j] + [succs[j]];
      assert succs[..j + 1][..j] == succs[..j];
      if succs[j] !in visited {
        todos := todos + [succs[j]];
      }
      j := j + 1;
    }
    assert succs[..j] == succs;
  }

  /** The SCCs that the walk over the reached blocks of `loop` numbers are
      exactly the tracked SCCs that occur in the loop, each once. */
  lemma RecordedInLoop(cfg: Cfg, loop: Loop, sccOfValue: map<Value, Scc>, tracked: set<Scc>,
                       visit: seq<Block>, recorded: seq<Scc>)
    requires forall b :: b in visit <==> b in loop.blocks && ReachedFrom(cfg, loop.blocks, loop.header, b)
    requires recorded == Dedup(Trace(cfg, visit, sccOfValue, tracked))
    ensures NoDuplicates(recorded)
    ensures forall s :: s in recorded <==> s in tracked && OccursInLoop(cfg, loop, sccOfValue, s)
  {
    DedupDistinct(Trace(cfg, visit, sccOfValue, tracked));
    forall s
      ensures s in recorded <==> s in tracked && OccursInLoop(cfg, loop, sccOfValue, s)
    {
      RecordedSccs(cfg, loop, sccOfValue, tracked, visit, s);
    }
  }

  /** Numbering distinct SCCs into empty slots from an empty index: each index
      names the slot holding its SCC and each filled slot is indexed. */
  lemma FreshSlots(recorded: seq<Scc>, order: seq<Option<Scc>>, index: map<Scc, nat>)
    requires NoDuplicates(recorded) && index == IndexMap(map[], recorded) && |recorded| <= |order|
    requires forall i :: 0 <= i < |order| ==> order[i] == if i < |recorded| then Some(recorded[i]) else None
    ensures forall s :: s in index <==> s in recorded
    ensures forall s :: s in index ==> index[s] < |order| && order[index[s]] == Some(s)
    ensures forall i :: 0 <= i < |order| && order[i].Some? ==> order[i].value in index && index[order[i].value] == i
  {
    IndexMapFresh(recorded);
    forall s | s in index
      ensures index[s] < |order| && order[index[s]] == Some(s)
    {
      var i :| 0 <= i < |recorded| && recorded[i] == s;
    }
  }

  /** What numbering from an empty order and index gives: exactly the tracked
      SCCs that occur in the loop are indexed, each index names the slot that
      holds its SCC, the other slots are empty, and the count matches exactly
      when every tracked SCC occurs in the loop. */
  lemma FreshNumbering(cfg: Cfg, loop: Loop, sccOfValue: map<Value, Scc>, tracked: set<Scc>,
                       visit: seq<Block>, recorded: seq<Scc>, order0: seq<Option<Scc>>, index0: map<Scc, nat>,
                       order: seq<Option<Scc>>, index: map<Scc, nat>)
    requires order0 == [] && index0 == map[]
    requires forall b :: b in visit <==> b in loop.blocks && ReachedFrom(cfg, loop.blocks, loop.header, b)
    requires recorded == Dedup(Trace(cfg, visit, sccOfValue, tracked))
    requires index == IndexMap(index0, recorded)
    requires |order| == |tracked|
    requires forall i :: 0 <= i < |order| ==> order[i] == if i < |recorded| then Some(recorded[i]) else Resize(order0, |tracked|)[i]
    ensures forall s :: s in index <==> s in tracked && OccursInLoop(cfg, loop, sccOfValue, s)
    ensures forall s :: s in index ==> index[s] < |order| && order[index[s]] == Some(s)
    ensures forall i :: 0 <= i < |order| && order[i].Some? ==> order[i].value in index && index[order[i].value] == i
    ensures |index| == |tracked| <==> forall s :: s in tracked ==> OccursInLoop(cfg, loop, sccOfValue, s)
  {
    RecordedInLoop(cfg, loop, sccOfValue, tracked, visit, recorded);
    DistinctElements(recorded);
    SubsetNoLarger(Elements(recorded), tracked);
    FreshSlots(recorded, order, index);
    IndexMapFresh(recorded);
    CountMatches(recorded, tracked);
  }

  /** A pair of SCCs to be put into one set; a side is `None` for a value
      that has no SCC. */
  type SccPair = (Option<Scc>, Option<Scc>)

  /** Both sides of `p` are SCCs tracked by `m`. */
  ghost predicate PairTracked(m: map<Scc, Handle>, p: SccPair) {
    p.0.Some? && p.1.Some? && p.0.value in m && p.1.value in m
  }

  /** Both sides of `p` are tracked by `m` and share a set. */
  ghost predicate PairTogether(m: map<Scc, Handle>, p: SccPair) {
    PairTracked(m, p) && m[p.0.value] == m[p.1.value]
  }

  /** Once the sets `a` and `b` are joined, the set of an SCC `x` of `a`
      holds every SCC of `a` and `b`, and when nothing else was joined it holds
      no other SCC. */
  lemma JoinedPairSet(m0: map<Scc, Handle>, mem0: map<Handle, set<Scc>>, e0: seq<Edge>, n0: Handle,
                      a: Handle, b: Handle, m: map<Scc, Handle>, x: Scc)
    requires WellFormed(m0, mem0, e0, n0) && a in mem0 && b in mem0 && x in mem0[a]
    requires m.Keys == m0.Keys
    requires forall s, t :: s in m0 && t in m0 && m0[s] in {a, b} && m0[t] in {a, b} ==> m[s] == m[t]
    ensures forall s :: s in mem0[a] + mem0[b] ==> s in m && m[s] == m[x]
    ensures JoinsSets(m0, {a, b}, m) ==> forall s :: s in m0 ==> (m[s] == m[x] <==> s in mem0[a] + mem0[b])
  {
    assert x in m0 && m0[x] == a;
  }

  lemma KeepsTogetherTrans(m0: map<Scc, Handle>, m1: map<Scc, Handle>, m2: map<Scc, Handle>)
    requires KeepsTogether(m0, m1) && KeepsTogether(m1, m2)
    ensures KeepsTogether(m0, m2)
  {
  }

  /** `x` and `y` shared a set under `m0`, or form a pair of `pairs` in
      either order. */
  ghost predicate PairStep(m0: map<Scc, Handle>, pairs: set<SccPair>, x: Scc, y: Scc)
    requires x in m0 && y in m0
  {
    m0[x] == m0[y] || (Some(x), Some(y)) in pairs || (Some(y), Some(x)) in pairs
  }

  /** A chain of tracked SCCs, each consecutive two of which make a `PairStep`. */
  ghost predicate PairChain(m0: map<Scc, Handle>, pairs: set<SccPair>, path: seq<Scc>) {
    && |path| > 0
    && (forall k :: 0 <= k < |path| ==> path[k] in m0)
    && (forall k :: 0 <= k < |path| - 1 ==> PairStep(m0, pairs, path[k], path[k + 1]))
  }

  /** Some chain leads from `a` to `b`: merging the pairs of `pairs` into the
      sets of `m0` puts `a` and `b` into one set. */
  ghost predicate Linked(m0: map<Scc, Handle>, pairs: set<SccPair>, a: Scc, b: Scc) {
    exists path :: PairChain(m0, pairs, path) && path[0] == a && path[|path| - 1] == b
  }

  /** Two SCCs of one set are linked by the two-element chain. */
  lemma LinkedSameSet(m0: map<Scc, Handle>, pairs: set<SccPair>, a: Scc, b: Scc)
    requires a in m0 && b in m0 && PairStep(m0, pairs, a, b)
    ensures Linked(m0, pairs, a, b)
  {
    assert PairChain(m0, pairs, [a, b]);
  }

  /** Chains from `a` to `x` and from `y` to `b` with a step from `x` to `y`
      make one chain from `a` to `b`. */
  lemma LinkedJoin(m0: map<Scc, Handle>, pairs: set<SccPair>, a: Scc, x: Scc, y: Scc, b: Scc)
    requires x in m0 && y in m0 && Linked(m0, pairs, a, x) && PairStep(m0, pairs, x, y) && Linked(m0, pairs, y, b)
    ensures Linked(m0, pairs, a, b)
  {
    var p :| PairChain(m0, pairs, p) && p[0] == a && p[|p| - 1] == x;
    var q :| PairChain(m0, pairs, q) && q[0] == y && q[|q| - 1] == b;
    var r := p + q;
    forall k | 0 <= k < |r| - 1 ensures PairStep(m0, pairs, r[k], r[k + 1]) {
      if k < |p| - 1 {
        assert r[k] == p[k] && r[k + 1] == p[k + 1];
      } else if k == |p| - 1 {
        assert r[k] == x && r[k + 1] == y;
      } else {
        assert r[k] == q[k - |p|] && r[k + 1] == q[k - |p| + 1];
      }
    }
    assert PairChain(m0, pairs, r);
  }

  /** Every two SCCs that share a set under `m` are linked through `pairs`. */
  ghost predicate OnlyLinked(m0: map<Scc, Handle>, pairs: set<SccPair>, m: map<Scc, Handle>)
    requires m.Keys == m0.Keys
  {
    forall a, b {:trigger Linked(m0, pairs, a, b)} :: a in m0 && b in m0 && m[a] == m[b] ==> Linked(m0, pairs, a, b)
  }

  /** Before any merge, SCCs share a set only if they are linked. */
  lemma OnlyLinkedStart(m0: map<Scc, Handle>, pairs: set<SccPair>)
    ensures OnlyLinked(m0, pairs, m0)
  {
    forall a, b | a in m0 && b in m0 && m0[a] == m0[b] ensures Linked(m0, pairs, a, b) {
      LinkedSameSet(m0, pairs, a, b);
    }
  }

  /** Every two SCCs linked through `pairs` share a set under `m`. */
  ghost predicate JoinsLinked(m0: map<Scc, Handle>, pairs: set<SccPair>, m: map<Scc, Handle>)
    requires m.Keys == m0.Keys
  {
    forall a, b {:trigger Linked(m0, pairs, a, b)} :: a in m0 && b in m0 && Linked(m0, pairs, a, b) ==> m[a] == m[b]
  }

  /** More pairs link at least the same SCCs. */
  lemma OnlyLinkedMono(m0: map<Scc, Handle>, pairs: set<SccPair>, more: set<SccPair>, m: map<Scc, Handle>)
    requires m.Keys == m0.Keys && pairs <= more && OnlyLinked(m0, pairs, m)
    ensures OnlyLinked(m0, more, m)
  {
    forall a, b | a in m0 && b in m0 && m[a] == m[b] ensures Linked(m0, more, a, b) {
      assert Linked(m0, pairs, a, b);
      var p :| PairChain(m0, pairs, p) && p[0] == a && p[|p| - 1] == b;
      assert PairChain(m0, more, p);
    }
  }

  /** Joining the sets of the two SCCs of `pair`, and nothing else, links
      only SCCs that `pair` and the pairs of `done` link. */
  lemma OnlyLinkedStep(m0: map<Scc, Handle>, done: set<SccPair>, pair: SccPair, m1: map<Scc, Handle>, m2: map<Scc, Handle>)
    requires m1.Keys == m0.Keys && OnlyLinked(m0, done, m1) && PairTracked(m1, pair)
    requires JoinsSets(m1, {m1[pair.0.value], m1[pair.1.value]}, m2)
    ensures OnlyLinked(m0, done + {pair}, m2)
  {
    var x, y := pair.0.value, pair.1.value;
    var all := done + {pair};
    OnlyLinkedMono(m0, done, all, m1);
    assert PairStep(m0, all, x, y) by { assert pair == (Some(x), Some(y)); }
    forall a, b | a in m0 && b in m0 && m2[a] == m2[b] ensures Linked(m0, all, a, b) {
      if m1[a] != m1[b] {
        if m1[a] == m1[x] {
          LinkedJoin(m0, all, a, x, y, b);
        } else {
          LinkedJoin(m0, all, a, y, x, b);
        }
      }
    }
  }

  /** When every pair of `pairs` shares a set under `m` and `m` keeps the
      sets of `m0` together, every chain ends in the set it starts in. */
  lemma {:induction false} ChainTogether(m0: map<Scc, Handle>, pairs: set<SccPair>, m: map<Scc, Handle>, path: seq<Scc>)
    requires KeepsTogether(m0, m) && forall p :: p in pairs ==> PairTogether(m, p)
    requires PairChain(m0, pairs, path)
    ensures m[path[0]] == m[path[|path| - 1]]
    decreases |path|
  {
    if |path| > 1 {
      var init := path[..|path| - 1];
      assert PairChain(m0, pairs, init) by {
        forall k | 0 <= k < |init| - 1 ensures PairStep(m0, pairs, init[k], init[k + 1]) {
          assert init[k] == path[k] && init[k + 1] == path[k + 1];
        }
      }
      ChainTogether(m0, pairs, m, init);
      var x, y := path[|path| - 2], path[|path| - 1];
      assert PairStep(m0, pairs, x, y);
      if (Some(x), Some(y)) in pairs {
        assert PairTogether(m, (Some(x), Some(y)));
      } else if (Some(y), Some(x)) in pairs {
        assert PairTogether(m, (Some(y), Some(x)));
      }
    }
  }

  /** When every pair of `pairs` shares a set under `m` and `m` keeps the
      sets of `m0` together, linked SCCs share a set. */
  lemma LinkedTogether(m0: map<Scc, Handle>, pairs: set<SccPair>, m: map<Scc, Handle>)
    requires KeepsTogether(m0, m) && forall p :: p in pairs ==> PairTogether(m, p)
    ensures JoinsLinked(m0, pairs, m)
  {
    forall a, b | a in m0 && b in m0 && Linked(m0, pairs, a, b) ensures m[a] == m[b] {
      var path :| PairChain(m0, pairs, path) && path[0] == a && path[|path| - 1] == b;
      ChainTogether(m0, pairs, m, path);
    }
  }

  /** The state of `mergeAllPairs` after the pairs of `done`, from the graph
      (`m0`, `mem0`, `e0`): every pair of `done` was tracked and is now in one
      set, SCCs stay together, no edge is new, acyclicity is kept and, from
      an acyclic graph, only SCCs that `done` links share a set. */
  ghost predicate PairsMerged(done: set<SccPair>, m0: map<Scc, Handle>, mem0: map<Handle, set<Scc>>, e0: seq<Edge>,
                              m: map<Scc, Handle>, mem: map<Handle, set<Scc>>, es: seq<Edge>) {
    && KeepsTogether(m0, m)
    && (forall p :: p in done ==> PairTracked(m0, p) && PairTogether(m, p))
    && (forall e :: e in es ==> e in e0)
    && (NoCycleBetweenSets(e0, mem0.Keys) ==> NoCycleBetweenSets(es, mem.Keys))
    && (NoCycleBetweenSets(e0, mem0.Keys) ==> OnlyLinked(m0, done, m))
  }

  /** One more pair handled: on success it joins `done`; on failure the pair
      was not tracked to begin with. */
  lemma MergedPairsStep(done: set<SccPair>, pair: SccPair, ok: bool,
                        m0: map<Scc, Handle>, mem0: map<Handle, set<Scc>>, e0: seq<Edge>,
                        m1: map<Scc, Handle>, mem1: map<Handle, set<Scc>>, e1: seq<Edge>,
                        m2: map<Scc, Handle>, mem2: map<Handle, set<Scc>>, e2: seq<Edge>)
    requires PairsMerged(done, m0, mem0, e0, m1, mem1, e1)
    requires ok <==> PairTracked(m1, pair)
    requires ok ==> PairTogether(m2, pair)
    requires KeepsTogether(m1, m2) && forall e :: e in e2 ==> e in e1
    requires NoCycleBetweenSets(e1, mem1.Keys) ==> NoCycleBetweenSets(e2, mem2.Keys)
    requires ok && NoCycleBetweenSets(e1, mem1.Keys) ==> JoinsSets(m1, {m1[pair.0.value], m1[pair.1.value]}, m2)
    requires !ok ==> m2 == m1
    ensures ok ==> PairsMerged(done + {pair}, m0, mem0, e0, m2, mem2, e2)
    ensures !ok ==> !PairTracked(m0, pair) && PairsMerged(done, m0, mem0, e0, m2, mem2, e2)
  {
    KeepsTogetherTrans(m0, m1, m2);
    forall p | p in done
      ensures PairTogether(m2, p)
    {
      assert PairTogether(m1, p);
    }
    if ok && NoCycleBetweenSets(e0, mem0.Keys) {
      OnlyLinkedStep(m0, done, pair, m1, m2);
    }
  }

  /** The dependence `d` asks for the pair `p`: it goes through memory and
      links two different tracked SCCs. */
  ghost predicate DependenceMerges(d: Dependence, sccOfValue: map<Value, Scc>, tracked: set<Scc>, p: SccPair) {
    && d.isMemory
    && d.producer in sccOfValue && d.consumer in sccOfValue
    && sccOfValue[d.producer] in tracked && sccOfValue[d.consumer] in tracked
    && sccOfValue[d.producer] != sccOfValue[d.consumer]
    && p == (Some(sccOfValue[d.producer]), Some(sccOfValue[d.consumer]))
  }

  /** Some loop-carried dependence of one of `loops` asks for `p`. */
  ghost predicate IsLoopCarriedPair(loops: set<Loop>, lcd: map<Loop, seq<Dependence>>,
                                    sccOfValue: map<Value, Scc>, tracked: set<Scc>, p: SccPair) {
    exists l, d :: l in loops && d in LoopCarried(lcd, l) && DependenceMerges(d, sccOfValue, tracked, p)
  }

  lemma LoopCarriedPairUnion(done: set<Loop>, l: Loop, lcd: map<Loop, seq<Dependence>>,
                             sccOfValue: map<Value, Scc>, tracked: set<Scc>, p: SccPair)
    ensures IsLoopCarriedPair(done + {l}, lcd, sccOfValue, tracked, p) <==>
              IsLoopCarriedPair(done, lcd, sccOfValue, tracked, p) || IsLoopCarriedPair({l}, lcd, sccOfValue, tracked, p)
  {
    if IsLoopCarriedPair(done + {l}, lcd, sccOfValue, tracked, p) {
      var l', d :| l' in done + {l} && d in LoopCarried(lcd, l') && DependenceMerges(d, sccOfValue, tracked, p);
      if l' != l {
        assert IsLoopCarriedPair(done, lcd, sccOfValue, tracked, p);
      }
    }
  }

  /** The pairs that the loop-carried memory dependences of `loops` ask to merge. */
  method CollectLoopCarriedPairs(loops: set<Loop>, lcd: map<Loop, seq<Dependence>>,
                                 sccOfValue: map<Value, Scc>, tracked: set<Scc>) returns (pairs: set<SccPair>)
    ensures forall p :: p in pairs <==> IsLoopCarriedPair(loops, lcd, sccOfValue, tracked, p)
  {
    pairs := {};
    var todo := loops;
    while todo != {}
      invariant todo <= loops
      invariant forall p :: p in pairs <==> IsLoopCarriedPair(loops - todo, lcd, sccOfValue, tracked, p)
      decreases |todo|
    {
      var loop :| loop in todo;
      ghost var done := loops - todo;
      todo := todo - {loop};
      assert loops - todo == done + {loop};
      pairs := AddDependencePairs(pairs, loop, lcd, sccOfValue, tracked);
      forall p ensures IsLoopCarriedPair(loops - todo, lcd, sccOfValue, tracked, p) <==>
                       IsLoopCarriedPair(done, lcd, sccOfValue, tracked, p) || IsLoopCarriedPair({loop}, lcd, sccOfValue, tracked, p)
      {
        LoopCarriedPairUnion(done, loop, lcd, sccOfValue, tracked, p);
      }
    }
  }

  /** Adds the pairs that the loop-carried dependences of `loop` ask for. */
  method AddDependencePairs(pairs0: set<SccPair>, loop: Loop, lcd: map<Loop, seq<Dependence>>,
                            sccOfValue: map<Value, Scc>, tracked: set<Scc>) returns (pairs: set<SccPair>)
    ensures forall p :: p in pairs <==> p in pairs0 || IsLoopCarriedPair({loop}, lcd, sccOfValue, tracked, p)
  {
    var loopCarriedEdges := LoopCarried(lcd, loop);
    pairs := pairs0;
    var k := 0;
    while k < |loopCarriedEdges|
      invariant k <= |loopCarriedEdges|
      invariant forall p :: p in pairs <==> p in pairs0 || exists d :: d in loopCarriedEdges[..k] && DependenceMerges(d, sccOfValue, tracked, p)
    {
      var edge := loopCarriedEdges[k];
      assert loopCarriedEdges[..k + 1] == loopCarriedEdges[..k] + [edge];
      k := k + 1;
      if !edge.isMemory { continue; }
      if edge.producer !in sccOfValue || sccOfValue[edge.producer] !in tracked { continue; }
      if edge.consumer !in sccOfValue || sccOfValue[edge.consumer] !in tracked { continue; }
      var producerScc, consumerScc := sccOfValue[edge.producer], sccOfValue[edge.consumer];
      if producerScc == consumerScc { continue; }
      assert edge in loopCarriedEdges[..k] && DependenceMerges(edge, sccOfValue, tracked, (Some(producerScc), Some(consumerScc)));
      pairs := pairs + {(Some(producerScc), Some(consumerScc))};
    }
    assert loopCarriedEdges[..k] == loopCarriedEdges;
    forall p ensures IsLoopCarriedPair({loop}, lcd, sccOfValue, tracked, p) <==>
                     exists d :: d in loopCarriedEdges && DependenceMerges(d, sccOfValue, tracked, p)
    {
      if exists d :: d in loopCarriedEdges && DependenceMerges(d, sccOfValue, tracked, p) {
        var d :| d in loopCarriedEdges && DependenceMerges(d, sccOfValue, tracked, p);
        assert loop in {loop};
      }
    }
  }

  /** `phi` sits in an exit block of one of `loops` other than `root`. */
  ghost predicate IsLcssaPhi(loops: set<Loop>, root: Loop, cfg: Cfg, phi: Phi) {
    exists l :: l in loops && l != root && IsExitPhi(cfg, l, phi)
  }

  /** The PHI nodes in the exit blocks of every loop of `loops` but `root`. */
  method CollectLcssaPhis(loops: set<Loop>, root: Loop, cfg: Cfg) returns (phis: set<Phi>)
    ensures forall phi :: phi in phis <==> IsLcssaPhi(loops, root, cfg, phi)
  {
    phis := {};
    var todo := loops;
    while todo != {}
      invariant todo <= loops
      invariant forall phi :: phi in phis <==> IsLcssaPhi(loops - todo, root, cfg, phi)
      decreases |todo|
    {
      var loop :| loop in todo;
      ghost var done := loops - todo;
      todo := todo - {loop};
      assert loops - todo == done + {loop};
      if loop != root {
        phis := AddExitPhis(phis, cfg, loop);
      }
      forall phi ensures IsLcssaPhi(loops - todo, root, cfg, phi) <==>
                         IsLcssaPhi(done, root, cfg, phi) || (loop != root && IsExitPhi(cfg, loop, phi))
      {
        if IsLcssaPhi(loops - todo, root, cfg, phi) {
          var l :| l in loops - todo && l != root && IsExitPhi(cfg, l, phi);
          if l != loop {
            assert IsLcssaPhi(done, root, cfg, phi);
          }
        }
      }
    }
  }

  /** Adds the PHI nodes of the exit blocks of `loop`. */
  method AddExitPhis(phis0: set<Phi>, cfg: Cfg, loop: Loop) returns (phis: set<Phi>)
    ensures forall phi :: phi in phis <==> phi in phis0 || IsExitPhi(cfg, loop, phi)
  {
    phis := phis0;
    var k := 0;
    while k < |loop.exitBlocks|
      invariant k <= |loop.exitBlocks|
      invariant forall phi :: phi in phis <==> phi in phis0 || exists k' :: 0 <= k' < k && phi in Phis(cfg, loop.exitBlocks[k'])
    {
      var blockPhis := Phis(cfg, loop.exitBlocks[k]);
      var j := 0;
      while j < |blockPhis|
        invariant j <= |blockPhis|
        invariant forall phi :: phi in phis <==> phi in phis0 || (exists k' :: 0 <= k' < k && phi in Phis(cfg, loop.exitBlocks[k'])) || phi in blockPhis[..j]
      {
        assert blockPhis[..j + 1] == blockPhis[..j] + [blockPhis[j]];
        phis := phis + {blockPhis[j]};
        j := j + 1;
      }
      assert blockPhis[..j] == blockPhis;
      k := k + 1;
    }
  }

  /** `phi` asks for `p`: one of its incoming values has a tracked SCC, which
      is paired with the SCC of `phi` itself (possibly none). */
  ghost predicate PhiMerges(phi: Phi, sccOfValue: map<Value, Scc>, tracked: set<Scc>, p: SccPair) {
    exists v :: v in phi.incoming && v in sccOfValue && sccOfValue[v] in tracked
                && p == (Some(sccOfValue[v]), SccOf(sccOfValue, phi.value))
  }

  /** The pairs that the PHI nodes of `phis` ask to merge. */
  method CollectLcssaPairs(phis: set<Phi>, sccOfValue: map<Value, Scc>, tracked: set<Scc>) returns (pairs: set<SccPair>)
    ensures forall p :: p in pairs <==> exists phi :: phi in phis && PhiMerges(phi, sccOfValue, tracked, p)
  {
    pairs := {};
    var todo := phis;
    while todo != {}
      invariant todo <= phis
      invariant forall p :: p in pairs <==> exists phi :: phi in phis - todo && PhiMerges(phi, sccOfValue, tracked, p)
      decreases |todo|
    {
      var phi :| phi in todo;
      ghost var done := phis - todo;
      todo := todo - {phi};
      assert phis - todo == done + {phi};
      pairs := AddIncomingPairs(pairs, phi, sccOfValue, tracked);
    }
  }

  /** Adds the pairs that one PHI node asks for. */
  method AddIncomingPairs(pairs0: set<SccPair>, phi: Phi, sccOfValue: map<Value, Scc>, tracked: set<Scc>) returns (pairs: set<SccPair>)
    ensures forall p :: p in pairs <==> p in pairs0 || PhiMerges(phi, sccOfValue, tracked, p)
  {
    var consumerScc := SccOf(sccOfValue, phi.value);
    pairs := pairs0;
    var i := 0;
    while i < |phi.incoming|
      invariant i <= |phi.incoming|
      invariant forall p :: p in pairs <==>
                  || p in pairs0
                  || exists v :: v in phi.incoming[..i] && v in sccOfValue && sccOfValue[v] in tracked && p == (Some(sccOfValue[v]), consumerScc)
    {
      var incomingValue := phi.incoming[i];
      assert phi.incoming[..i + 1] == phi.incoming[..i] + [incomingValue];
      i := i + 1;
      var producerScc := SccOf(sccOfValue, incomingValue);
      if producerScc.None? { continue; }
      if producerScc.value !in tracked { continue; }
      pairs := pairs + {(producerScc, consumerScc)};
    }
    assert phi.incoming[..i] == phi.incoming;
  }

  /** Some LCSSA PHI node asks for the pair `p`. */
  ghost predicate IsLcssaPair(loops: set<Loop>, root: Loop, cfg: Cfg, sccOfValue: map<Value, Scc>, tracked: set<Scc>, p: SccPair) {
    exists phi :: IsLcssaPhi(loops, root, cfg, phi) && PhiMerges(phi, sccOfValue, tracked, p)
  }

  /** Merging the pairs asked for by the LCSSA PHI nodes `phis` means, per
      PHI node: `ok` exactly when each such PHI with a tracked incoming SCC has
      a tracked SCC itself, and then the two share a set. The pairs are those
      that some LCSSA PHI node asks for. */
  lemma LcssaPairsMeaning(loops: set<Loop>, root: Loop, cfg: Cfg, phis: set<Phi>, pairs: set<SccPair>,
                          sccOfValue: map<Value, Scc>, m0: map<Scc, Handle>, m: map<Scc, Handle>, ok: bool)
    requires forall phi :: phi in phis <==> IsLcssaPhi(loops, root, cfg, phi)
    requires forall p :: p in pairs <==> exists phi :: phi in phis && PhiMerges(phi, sccOfValue, m0.Keys, p)
    requires ok <==> forall p :: p in pairs ==> PairTracked(m0, p)
    requires ok ==> forall p :: p in pairs ==> PairTogether(m, p)
    ensures ok <==> forall phi, v ::
              (IsLcssaPhi(loops, root, cfg, phi) && v in phi.incoming && v in sccOfValue && sccOfValue[v] in m0) ==>
                phi.value in sccOfValue && sccOfValue[phi.value] in m0
    ensures ok ==> forall phi, v ::
              (IsLcssaPhi(loops, root, cfg, phi) && v in phi.incoming && v in sccOfValue && sccOfValue[v] in m0) ==>
                && phi.value in sccOfValue && sccOfValue[v] in m && sccOfValue[phi.value] in m
                && m[sccOfValue[v]] == m[sccOfValue[phi.value]]
    ensures forall p :: p in pairs <==> IsLcssaPair(loops, root, cfg, sccOfValue, m0.Keys, p)
  {
    forall phi, v | phi in phis && v in phi.incoming && v in sccOfValue && sccOfValue[v] in m0
      ensures (Some(sccOfValue[v]), SccOf(sccOfValue, phi.value)) in pairs
    {
      assert PhiMerges(phi, sccOfValue, m0.Keys, (Some(sccOfValue[v]), SccOf(sccOfValue, phi.value)));
    }
  }

  class Partitioner {
    const partition: Partition
    const rootLoop: Loop
    /** The root loop and all of its descendants. */
    const allLoops: set<Loop>
    const cfg: Cfg
    /** The tracked SCCs in program order; `None` marks an unfilled slot. */
    var sccDebugOrder: seq<Option<Scc>>
    /** The position of each SCC in `sccDebugOrder`. */
    var sccDebugIndex: map<Scc, nat>

    ghost predicate Valid()
      reads partition
    {
      partition.Valid()
    }

    /** Builds the partition graph, records the root loop and its descendants,
        and numbers the tracked SCCs in program order. */
    constructor (sccOfValue: map<Value, Scc>, initialSets: seq<set<Scc>>, sccToParents: seq<(Scc, seq<Scc>)>,
                 loop: Loop, descendants: set<Loop>, cfg: Cfg)
      requires forall i, j :: 0 <= i < j < |initialSets| ==> initialSets[i] !! initialSets[j]
      ensures Valid() && fresh(partition)
      ensures partition.sccOfValue == sccOfValue && partition.sccToSet.Keys == UnionAll(initialSets)
      ensures partition.nextHandle == |initialSets|
      ensures forall h: Handle :: h in partition.members <==> h < |initialSets|
      ensures forall i :: 0 <= i < |initialSets| ==> partition.members[i] == initialSets[i]
      ensures forall e :: e in partition.edges ==> IsWantedEdge(partition.sccToSet, sccToParents, |sccToParents|, e)
      ensures forall k, p :: 0 <= k < |sccToParents| && p in sccToParents[k].1 && sccToParents[k].0 in partition.sccToSet
                 && p in partition.sccToSet
                 ==> (partition.sccToSet[p], partition.sccToSet[sccToParents[k].0]) in partition.edges
      ensures rootLoop == loop && allLoops == descendants + {loop} && this.cfg == cfg
      ensures |sccDebugOrder| == |partition.sccToSet.Keys|
      ensures forall s :: s in sccDebugIndex <==> s in partition.sccToSet && OccursInLoop(cfg, loop, sccOfValue, s)
      ensures forall s :: s in sccDebugIndex ==> sccDebugIndex[s] < |sccDebugOrder| && sccDebugOrder[sccDebugIndex[s]] == Some(s)
      ensures forall i :: 0 <= i < |sccDebugOrder| && sccDebugOrder[i].Some? ==>
                sccDebugOrder[i].value in sccDebugIndex && sccDebugIndex[sccDebugOrder[i].value] == i
    {
      partition := new Partition(sccOfValue, initialSets, sccToParents);
      rootLoop := loop;
      allLoops := descendants + {loop};
      this.cfg := cfg;
      sccDebugOrder := [];
      sccDebugIndex := map[];
      new;
      ghost var order0, index0 := sccDebugOrder, sccDebugIndex;
      var ok;
      ghost var visit, recorded;
      ok, visit, recorded := ResetPartitioner();
      FreshNumbering(cfg, rootLoop, sccOfValue, partition.sccToSet.Keys, visit, recorded, order0, index0, sccDebugOrder, sccDebugIndex);
    }

    /** The number of sets. */
    method NumberOfPartitions() returns (n: nat)
      requires Valid()
      ensures n == |partition.members.Keys|
    {
      n := partition.NumNodes();
    }

    /** The sets with an edge into `node`. */
    method GetParents(node: Handle) returns (parents: set<Handle>)
      requires Valid()
      ensures forall p :: p in parents <==> (p, node) in partition.edges
    {
      var incoming := IncomingOf(partition.edges, node);
      parents := {};
      var j := 0;
      while j < |incoming|
        invariant 0 <= j <= |incoming|
        invariant forall p :: p in parents <==> p in incoming[..j]
      {
        assert incoming[..j + 1] == incoming[..j] + [incoming[j]];
        parents := parents + {incoming[j]};
        j := j + 1;
      }
      assert incoming[..j] == incoming;
    }

    /** The sets that `node` has an edge into. */
    method GetChildren(node: Handle) returns (children: set<Handle>)
      requires Valid()
      ensures forall c :: c in children <==> (node, c) in partition.edges
    {
      var outgoing := OutgoingOf(partition.edges, node);
      children := {};
      var j := 0;
      while j < |outgoing|
        invariant 0 <= j <= |outgoing|
        invariant forall c :: c in children <==> c in outgoing[..j]
      {
        assert outgoing[..j + 1] == outgoing[..j] + [outgoing[j]];
        children := children + {outgoing[j]};
        j := j + 1;
      }
      assert outgoing[..j] == outgoing;
    }

    /** All sets. */
    method GetSets() returns (sets: set<Handle>)
      requires Valid()
      ensures sets == partition.members.Keys
    {
      sets := {};
      var pending := partition.members.Keys;
      while pending != {}
        invariant pending <= partition.members.Keys
        invariant sets == partition.members.Keys - pending
      {
        var node :| node in pending;
        pending := pending - {node};
        sets := sets + {node};
      }
    }

    /** The sets without parents. */
    method GetRoots() returns (roots: set<Handle>)
      requires Valid()
      ensures forall h :: h in roots <==> h in partition.members && forall p :: (p, h) !in partition.edges
    {
      var top := partition.TopLevelNodes();
      roots := {};
      var pending := top;
      while pending != {}
        invariant pending <= top
        invariant roots == top - pending
      {
        var node :| node in pending;
        pending := pending - {node};
        roots := roots + {node};
      }
    }

    /** The depth order of the partition graph. */
    method GetDepthOrderedSets() returns (r: Result<seq<Handle>, DepthOrderError>)
      requires Valid()
      ensures r == Failure(NoRootNodes) <==> partition.TopLevelNodes() == {}
      ensures r.Success? ==> |r.value| == |partition.members|
      ensures r.Failure? && r.error.CountMismatch? ==> |r.error.emitted| != |partition.members|
      ensures ParentsFirst(partition.edges, Emitted(r)) && forall x :: x in Emitted(r) ==> x in partition.members
      ensures forall i :: 0 <= i < |Emitted(r)| ==> !ProperAncestor(partition.edges, Emitted(r)[i], Emitted(r)[i])
      ensures (exists rank :: IsTopologicalRank(partition.edges, rank)) ==>
                forall h :: h in partition.members ==> h in Emitted(r)
    {
      r := partition.GetDepthOrderedSets();
    }

    /** Whether merging `subsetA` and `subsetB` would close a cycle: whether one
        is an ancestor of the other. The backward search keeps no visited set,
        so it is only guaranteed to stop on an acyclic graph; `rank` witnesses
        that the graph is one. */
    method IsMergeIntroducingCycle(subsetA: Handle, subsetB: Handle, ghost rank: map<Handle, nat>) returns (r: bool)
      requires Valid()
      requires IsTopologicalRank(partition.edges, rank) && subsetA in rank && subsetB in rank
      ensures r <==> ProperAncestor(partition.edges, subsetA, subsetB) || ProperAncestor(partition.edges, subsetB, subsetA)
    {
      r := IsAncestor(partition.edges, subsetA, subsetB, rank);
      if !r {
        r := IsAncestor(partition.edges, subsetB, subsetA, rank);
      }
    }

    /** The numbering state of this partitioner (see `IsNumbering`). */
    ghost predicate Numbering(count: nat, recorded: seq<Scc>, encountered: set<Scc>,
                              base: seq<Option<Scc>>, idx0: map<Scc, nat>)
      reads `sccDebugOrder, `sccDebugIndex, partition
    {
      IsNumbering(sccDebugOrder, sccDebugIndex, partition.sccToSet.Keys, count, recorded, encountered, base, idx0)
    }

    /** The number of SCCs over all sets: the number of tracked SCCs, since
        the sets are disjoint. */
    method NumberOfSccs() returns (n: nat)
      requires Valid()
      ensures n == |partition.sccToSet.Keys|
    {
      n := 0;
      var pending := partition.members.Keys;
      ghost var counted: set<Scc> := {};
      while pending != {}
        invariant pending <= partition.members.Keys
        invariant counted == set s | s in partition.sccToSet && partition.sccToSet[s] !in pending
        invariant n == |counted|
      {
        var node :| node in pending;
        ghost var more := set s | s in partition.sccToSet && partition.sccToSet[s] !in pending - {node};
        assert more == counted + partition.members[node];
        assert counted !! partition.members[node];
        n := n + |partition.members[node]|;
        pending := pending - {node};
        counted := more;
      }
      assert counted == partition.sccToSet.Keys;
    }

    /** Numbers the SCC of `v` at the next position when `v` lies in a
        tracked SCC that has not been numbered already. */
    method RecordValue(v: Value, count0: nat, ghost recorded0: seq<Scc>, encountered0: set<Scc>,
                       ghost prefix: seq<Scc>, ghost base: seq<Option<Scc>>, ghost idx0: map<Scc, nat>)
      returns (count: nat, ghost recorded: seq<Scc>, encountered: set<Scc>)
      requires Valid()
      requires recorded0 == Dedup(prefix) && Numbering(count0, recorded0, encountered0, base, idx0)
      modifies `sccDebugOrder, `sccDebugIndex
      ensures recorded == Dedup(prefix + TrackedSccs([v], partition.sccOfValue, partition.sccToSet.Keys))
      ensures Numbering(count, recorded, encountered, base, idx0)
    {
      count, recorded, encountered := count0, recorded0, encountered0;
      TrackedSccsSingle(v, partition.sccOfValue, partition.sccToSet.Keys);
      var scc := partition.SccOfValue(v);
      if scc.None? || !partition.IsIncludedInPartitioning(scc.value) {
        assert prefix + [] == prefix;
        return;
      }
      var s := scc.value;
      DedupSnoc(prefix, s);
      if s in encountered {
        return;
      }
      NumberingRecord(sccDebugOrder, sccDebugIndex, partition.sccToSet.Keys, count, recorded, encountered, base, idx0, s);
      sccDebugOrder := sccDebugOrder[count := Some(s)];
      sccDebugIndex := sccDebugIndex[s := count];
      recorded := recorded + [s];
      encountered := encountered + {s};
      count := count + 1;
    }

    /** Numbers, in order, each tracked SCC of `values` not numbered yet. */
    method RecordSccs(values: seq<Value>, count0: nat, ghost recorded0: seq<Scc>, encountered0: set<Scc>,
                      ghost trace: seq<Scc>, ghost base: seq<Option<Scc>>, ghost idx0: map<Scc, nat>)
      returns (count: nat, ghost recorded: seq<Scc>, encountered: set<Scc>)
      requires Valid()
      requires recorded0 == Dedup(trace) && Numbering(count0, recorded0, encountered0, base, idx0)
      modifies `sccDebugOrder, `sccDebugIndex
      ensures recorded == Dedup(trace + TrackedSccs(values, partition.sccOfValue, partition.sccToSet.Keys))
      ensures Numbering(count, recorded, encountered, base, idx0)
    {
      ghost var tracked := partition.sccToSet.Keys;
      count, recorded, encountered := count0, recorded0, encountered0;
      assert trace + TrackedSccs(values[..0], partition.sccOfValue, tracked) == trace;
      var k := 0;
      while k < |values|
        invariant 0 <= k <= |values|
        invariant recorded == Dedup(trace + TrackedSccs(values[..k], partition.sccOfValue, tracked))
        invariant Numbering(count, recorded, encountered, base, idx0)
      {
        ghost var prefix := trace + TrackedSccs(values[..k], partition.sccOfValue, tracked);
        TrackedSccsSnoc(trace, values, k, partition.sccOfValue, tracked);
        count, recorded, encountered := RecordValue(values[k], count, recorded, encountered, prefix, base, idx0);
        k := k + 1;
      }
      assert values[..k] == values;
    }

    /** Visits `bb`, a block of the root loop popped from the stack and not
        visited yet: numbers the tracked SCCs of its instructions and pushes
        its unvisited successors. */
    method VisitBlock(bb: Block, todos0: seq<Block>, visited0: set<Block>, ghost visit0: seq<Block>,
                      count0: nat, ghost recorded0: seq<Scc>, encountered0: set<Scc>,
                      ghost base: seq<Option<Scc>>, ghost idx0: map<Scc, nat>)
      returns (todos: seq<Block>, visited: set<Block>, ghost visit: seq<Block>,
               count: nat, ghost recorded: seq<Scc>, encountered: set<Scc>)
      requires Valid()
      requires WalkState(cfg, rootLoop.blocks, rootLoop.header, visited0, visit0, todos0 + [bb])
      requires bb in rootLoop.blocks && bb !in visited0
      requires recorded0 == Dedup(Trace(cfg, visit0, partition.sccOfValue, partition.sccToSet.Keys))
      requires Numbering(count0, recorded0, encountered0, base, idx0)
      modifies `sccDebugOrder, `sccDebugIndex
      ensures WalkState(cfg, rootLoop.blocks, rootLoop.header, visited, visit, todos)
      ensures visited == visited0 + {bb} && visit == visit0 + [bb]
      ensures todos == todos0 + Unencountered(Successors(cfg, bb), visited)
      ensures recorded == Dedup(Trace(cfg, visit, partition.sccOfValue, partition.sccToSet.Keys))
      ensures Numbering(count, recorded, encountered, base, idx0)
    {
      ghost var trace := Trace(cfg, visit0, partition.sccOfValue, partition.sccToSet.Keys);
      visited := visited0 + {bb};
      visit := visit0 + [bb];
      assert visit[..|visit| - 1] == visit0;
      count, recorded, encountered := RecordSccs(Instructions(cfg, bb), count0, recorded0, encountered0, trace, base, idx0);
      todos := PushUnvisited(todos0, Successors(cfg, bb), visited);
      WalkVisit(cfg, rootLoop.blocks, rootLoop.header, visited0, visit0, todos0, bb, todos);
    }

    /** One round of the walk: pop the top of the stack; skip it when it is
        outside the root loop or visited already, visit it otherwise. */
    method WalkStep(todos0: seq<Block>, visited0: set<Block>, ghost visit0: seq<Block>,
                    count0: nat, ghost recorded0: seq<Scc>, encountered0: set<Scc>,
                    ghost base: seq<Option<Scc>>, ghost idx0: map<Scc, nat>)
      returns (todos: seq<Block>, visited: set<Block>, ghost visit: seq<Block>,
               count: nat, ghost recorded: seq<Scc>, encountered: set<Scc>)
      requires Valid() && todos0 != []
      requires WalkState(cfg, rootLoop.blocks, rootLoop.header, visited0, visit0, todos0)
      requires recorded0 == Dedup(Trace(cfg, visit0, partition.sccOfValue, partition.sccToSet.Keys))
      requires Numbering(count0, recorded0, encountered0, base, idx0)
      modifies `sccDebugOrder, `sccDebugIndex
      ensures WalkState(cfg, rootLoop.blocks, rootLoop.header, visited, visit, todos)
      ensures recorded == Dedup(Trace(cfg, visit, partition.sccOfValue, partition.sccToSet.Keys))
      ensures Numbering(count, recorded, encountered, base, idx0)
      ensures var top := todos0[|todos0| - 1];
              if top in rootLoop.blocks && top !in visited0 then
                && visited == visited0 + {top} && visit == visit0 + [top]
                && todos == todos0[..|todos0| - 1] + Unencountered(Successors(cfg, top), visited)
              else
                && visited == visited0 && visit == visit0 && todos == todos0[..|todos0| - 1]
                && count == count0 && recorded == recorded0 && encountered == encountered0
      ensures || |rootLoop.blocks - visited| < |rootLoop.blocks - visited0|
              || (visited == visited0 && |todos| < |todos0|)
    {
      WalkPop(cfg, rootLoop.blocks, rootLoop.header, visited0, visit0, todos0);
      var bb := todos0[|todos0| - 1];
      todos := todos0[..|todos0| - 1];
      if bb !in rootLoop.blocks || bb in visited0 {
        WalkSkip(cfg, rootLoop.blocks, rootLoop.header, visited0, visit0, todos, bb);
        return todos, visited0, visit0, count0, recorded0, encountered0;
      }
      todos, visited, visit, count, recorded, encountered :=
        VisitBlock(bb, todos, visited0, visit0, count0, recorded0, encountered0, base, idx0);
      SubsetSmaller(rootLoop.blocks - visited, rootLoop.blocks - visited0);
    }

    /** The depth-first walk of the blocks of the root loop from its header,
        numbering the tracked SCCs as their instructions are met. */
    method Walk(ghost base: seq<Option<Scc>>, ghost idx0: map<Scc, nat>)
      returns (count: nat, ghost visit: seq<Block>, ghost recorded: seq<Scc>, sccEncountered: set<Scc>)
      requires Valid() && Numbering(0, [], {}, base, idx0)
      modifies `sccDebugOrder, `sccDebugIndex
      ensures NoDuplicates(visit)
      ensures forall b :: b in visit <==> b in rootLoop.blocks && ReachedFrom(cfg, rootLoop.blocks, rootLoop.header, b)
      ensures InForwardOrder(cfg, rootLoop.header, visit)
      ensures recorded == Dedup(Trace(cfg, visit, partition.sccOfValue, partition.sccToSet.Keys))
      ensures Numbering(count, recorded, sccEncountered, base, idx0)
    {
      ghost var tracked := partition.sccToSet.Keys;
      count := 0;
      var header := rootLoop.header;
      var blocks := rootLoop.blocks;
      sccEncountered := {};
      var visited: set<Block> := {};
      var todos := [header];
      visit := [];
      recorded := [];
      WalkStart(cfg, blocks, header);
      while todos != []
        invariant WalkState(cfg, blocks, header, visited, visit, todos)
        invariant recorded == Dedup(Trace(cfg, visit, partition.sccOfValue, tracked))
        invariant Numbering(count, recorded, sccEncountered, base, idx0)
        decreases |blocks - visited|, |todos|
      {
        todos, visited, visit, count, recorded, sccEncountered :=
          WalkStep(todos, visited, visit, count, recorded, sccEncountered, base, idx0);
      }
      WalkDone(cfg, blocks, header, visited, visit);
    }

    /** Numbers the tracked SCCs in program order: a depth-first walk of the
        blocks of the root loop from its header that records each tracked SCC
        the first time one of its instructions is met. The slots are resized
        to the number of SCCs over all sets and earlier indices are kept.
        `ok` is false where the walk stops with a fatal error: the number of
        indexed SCCs differs from the number of SCCs over all sets. The ghost
        results are the blocks in the order they are visited and the SCCs in
        the order they are numbered. */
    method ResetPartitioner() returns (ok: bool, ghost visit: seq<Block>, ghost recorded: seq<Scc>)
      requires Valid()
      modifies `sccDebugOrder, `sccDebugIndex
      ensures NoDuplicates(visit)
      ensures forall b :: b in visit <==> b in rootLoop.blocks && ReachedFrom(cfg, rootLoop.blocks, rootLoop.header, b)
      ensures InForwardOrder(cfg, rootLoop.header, visit)
      ensures recorded == Dedup(Trace(cfg, visit, partition.sccOfValue, partition.sccToSet.Keys))
      ensures |recorded| <= |partition.sccToSet.Keys|
      ensures sccDebugIndex == IndexMap(old(sccDebugIndex), recorded)
      ensures |sccDebugOrder| == |partition.sccToSet.Keys|
      ensures forall i :: 0 <= i < |sccDebugOrder| ==>
                sccDebugOrder[i] == if i < |recorded| then Some(recorded[i])
                                    else Resize(old(sccDebugOrder), |partition.sccToSet.Keys|)[i]
      ensures ok <==> |sccDebugIndex| == |partition.sccToSet.Keys|
    {
      var numberOfSccs := NumberOfSccs();
      ghost var base := Resize(sccDebugOrder, numberOfSccs);
      ghost var idx0 := sccDebugIndex;
      ghost var tracked := partition.sccToSet.Keys;
      sccDebugOrder := Resize(sccDebugOrder, numberOfSccs);
      assert IndexMap(idx0, []) == idx0;
      var count;
      var sccEncountered;
      count, visit, recorded, sccEncountered := Walk(base, idx0);
      NumberingFinal(sccDebugOrder, sccDebugIndex, tracked, count, recorded, sccEncountered, base, idx0);
      ok := |sccDebugIndex| == numberOfSccs;
    }

    /** Merges the sets of `setA` and `setB` (and any cycle this closes) and
        returns the set that now holds the SCCs of `setA`. An SCC of `setA` is
        picked before the merge, since `setA` is gone afterwards. */
    method MergePair(setA: Handle, setB: Handle) returns (mergedSet: Handle)
      requires Valid() && setA in partition.members && setB in partition.members
      requires partition.members[setA] != {}
      modifies partition
      ensures Valid()
      ensures mergedSet in partition.members
      ensures forall s :: s in old(partition.members[setA]) + old(partition.members[setB]) ==>
                s in partition.sccToSet && partition.sccToSet[s] == mergedSet
      ensures KeepsTogether(old(partition.sccToSet), partition.sccToSet)
      ensures NoCycleBetweenSets(old(partition.edges), old(partition.members).Keys) ==>
                && JoinsSets(old(partition.sccToSet), {setA, setB}, partition.sccToSet)
                && forall s :: s in old(partition.sccToSet) ==>
                     (partition.sccToSet[s] == mergedSet <==> s in old(partition.members[setA]) + old(partition.members[setB]))
      ensures NoCycleBetweenSets(partition.edges, partition.members.Keys)
      ensures forall e :: e in partition.edges ==> e in old(partition.edges)
    {
      ghost var m0, mem0, e0, n0 := partition.sccToSet, partition.members, partition.edges, partition.nextHandle;
      var anySccInMergedSet :| anySccInMergedSet in partition.members[setA];
      partition.MergeSetsAndCollapseResultingCycles({setA, setB});
      var found := partition.SetOfScc(anySccInMergedSet);
      mergedSet := found.value;
      JoinedPairSet(m0, mem0, e0, n0, setA, setB, partition.sccToSet, anySccInMergedSet);
    }

    /** One iteration of `mergeAllPairs`: `ok` is false when a side of `pair`
        is not a tracked SCC (where the source's `setOfSCC` assertion fails);
        otherwise the two sets are merged unless they are already one. */
    method MergePairOfSccs(pair: SccPair) returns (ok: bool)
      requires Valid()
      modifies partition
      ensures Valid()
      ensures ok <==> PairTracked(old(partition.sccToSet), pair)
      ensures ok ==> PairTogether(partition.sccToSet, pair)
      ensures ok && NoCycleBetweenSets(old(partition.edges), old(partition.members).Keys) ==>
                JoinsSets(old(partition.sccToSet), {old(partition.sccToSet)[pair.0.value], old(partition.sccToSet)[pair.1.value]},
                          partition.sccToSet)
      ensures KeepsTogether(old(partition.sccToSet), partition.sccToSet)
      ensures forall e :: e in partition.edges ==> e in old(partition.edges)
      ensures NoCycleBetweenSets(old(partition.edges), old(partition.members).Keys) ==>
                NoCycleBetweenSets(partition.edges, partition.members.Keys)
      ensures !ok || PairTogether(old(partition.sccToSet), pair) ==>
                && partition.sccToSet == old(partition.sccToSet) && partition.members == old(partition.members)
                && partition.edges == old(partition.edges)
    {
      var setProducer := if pair.0.Some? then partition.SetOfScc(pair.0.value) else None;
      var setConsumer := if pair.1.Some? then partition.SetOfScc(pair.1.value) else None;
      if setProducer.None? || setConsumer.None? {
        return false;
      }
      ok := true;
      if setProducer.value == setConsumer.value {
        return;
      }
      partition.MergeSetsAndCollapseResultingCycles({setProducer.value, setConsumer.value});
    }

    /** Merges, pair by pair, the sets of the two SCCs of every pair of
        `pairs`. `ok` is false when some pair has a side that is not a tracked
        SCC; the pairs handled before it stay merged. */
    method MergeAllPairs(pairs: set<SccPair>) returns (ok: bool)
      requires Valid()
      modifies partition
      ensures Valid()
      ensures ok <==> forall p :: p in pairs ==> PairTracked(old(partition.sccToSet), p)
      ensures ok ==> forall p :: p in pairs ==> PairTogether(partition.sccToSet, p)
      ensures KeepsTogether(old(partition.sccToSet), partition.sccToSet)
      ensures ok ==> JoinsLinked(old(partition.sccToSet), pairs, partition.sccToSet)
      ensures NoCycleBetweenSets(old(partition.edges), old(partition.members).Keys) ==>
                OnlyLinked(old(partition.sccToSet), pairs, partition.sccToSet)
      ensures forall e :: e in partition.edges ==> e in old(partition.edges)
      ensures NoCycleBetweenSets(old(partition.edges), old(partition.members).Keys) ==>
                NoCycleBetweenSets(partition.edges, partition.members.Keys)
      ensures (forall p :: p in pairs ==> PairTogether(old(partition.sccToSet), p)) ==>
                && partition.sccToSet == old(partition.sccToSet) && partition.members == old(partition.members)
                && partition.edges == old(partition.edges)
    {
      ghost var m0, mem0, e0 := partition.sccToSet, partition.members, partition.edges;
      var todo := pairs;
      ok := true;
      OnlyLinkedStart(m0, pairs - todo);
      while todo != {}
        invariant todo <= pairs && Valid()
        invariant PairsMerged(pairs - todo, m0, mem0, e0, partition.sccToSet, partition.members, partition.edges)
        invariant (forall p :: p in pairs ==> PairTogether(m0, p)) ==>
                    partition.sccToSet == m0 && partition.members == mem0 && partition.edges == e0
        decreases |todo|
      {
        var pair :| pair in todo;
        ghost var done := pairs - todo;
        todo := todo - {pair};
        ok := MergeNextPair(pair, done, m0, mem0, e0);
        assert pairs - todo == done + {pair};
        if !ok {
          if NoCycleBetweenSets(e0, mem0.Keys) {
            OnlyLinkedMono(m0, done, pairs, partition.sccToSet);
          }
          return;
        }
      }
      assert pairs - todo == pairs;
      if ok {
        LinkedTogether(m0, pairs, partition.sccToSet);
      }
    }

    /** One iteration of the `mergeAllPairs` loop: `MergePairOfSccs` on
        `pair`, after the pairs of `done`. */
    method MergeNextPair(pair: SccPair, ghost done: set<SccPair>,
                         ghost m0: map<Scc, Handle>, ghost mem0: map<Handle, set<Scc>>, ghost e0: seq<Edge>) returns (ok: bool)
      requires Valid() && PairsMerged(done, m0, mem0, e0, partition.sccToSet, partition.members, partition.edges)
      modifies partition
      ensures Valid()
      ensures ok ==> PairsMerged(done + {pair}, m0, mem0, e0, partition.sccToSet, partition.members, partition.edges)
      ensures !ok ==> !PairTracked(m0, pair) && PairsMerged(done, m0, mem0, e0, partition.sccToSet, partition.members, partition.edges)
      ensures !ok || PairTogether(old(partition.sccToSet), pair) ==>
                && partition.sccToSet == old(partition.sccToSet) && partition.members == old(partition.members)
                && partition.edges == old(partition.edges)
    {
      ghost var m1, mem1, e1 := partition.sccToSet, partition.members, partition.edges;
      ok := MergePairOfSccs(pair);
      MergedPairsStep(done, pair, ok, m0, mem0, e0, m1, mem1, e1, partition.sccToSet, partition.members, partition.edges);
    }

    /** Puts the two SCCs of every loop-carried memory dependence of the root
        loop and its descendants into one set, when both are tracked and
        differ. */
    method MergeLoopCarriedDependencies(lcd: map<Loop, seq<Dependence>>) returns (ghost asked: set<SccPair>)
      requires Valid()
      modifies partition
      ensures Valid()
      ensures forall p :: IsLoopCarriedPair(allLoops, lcd, partition.sccOfValue, old(partition.sccToSet).Keys, p) ==>
                PairTogether(partition.sccToSet, p)
      ensures KeepsTogether(old(partition.sccToSet), partition.sccToSet)
      ensures forall e :: e in partition.edges ==> e in old(partition.edges)
      ensures NoCycleBetweenSets(old(partition.edges), old(partition.members).Keys) ==>
                NoCycleBetweenSets(partition.edges, partition.members.Keys)
      ensures forall p :: p in asked <==> IsLoopCarriedPair(allLoops, lcd, partition.sccOfValue, old(partition.sccToSet).Keys, p)
      ensures NoCycleBetweenSets(old(partition.edges), old(partition.members).Keys) ==>
                OnlyLinked(old(partition.sccToSet), asked, partition.sccToSet)
    {
      var lcdPairs := CollectLoopCarriedPairs(allLoops, lcd, partition.sccOfValue, partition.sccToSet.Keys);
      var ok := MergeAllPairs(lcdPairs);
      assert ok;
      asked := lcdPairs;
    }

    /** Puts each LCSSA PHI node of a loop nested in the root loop (a PHI of
        an exit block of such a loop) into the set of every tracked SCC among
        its incoming values. `ok` is false when such a PHI has no tracked SCC
        of its own (where the source's `setOfSCC` assertion fails). */
    method MergeLcssaPhisWithTheValuesTheyPropagate() returns (ok: bool, ghost asked: set<SccPair>)
      requires Valid()
      modifies partition
      ensures Valid()
      ensures ok <==> forall phi, v ::
                (IsLcssaPhi(allLoops, rootLoop, cfg, phi) && v in phi.incoming && v in partition.sccOfValue
                 && partition.sccOfValue[v] in old(partition.sccToSet)) ==>
                  phi.value in partition.sccOfValue && partition.sccOfValue[phi.value] in old(partition.sccToSet)
      ensures ok ==> forall phi, v ::
                (IsLcssaPhi(allLoops, rootLoop, cfg, phi) && v in phi.incoming && v in partition.sccOfValue
                 && partition.sccOfValue[v] in old(partition.sccToSet)) ==>
                  && phi.value in partition.sccOfValue
                  && partition.sccOfValue[v] in partition.sccToSet && partition.sccOfValue[phi.value] in partition.sccToSet
                  && partition.sccToSet[partition.sccOfValue[v]] == partition.sccToSet[partition.sccOfValue[phi.value]]
      ensures KeepsTogether(old(partition.sccToSet), partition.sccToSet)
      ensures forall e :: e in partition.edges ==> e in old(partition.edges)
      ensures NoCycleBetweenSets(old(partition.edges), old(partition.members).Keys) ==>
                NoCycleBetweenSets(partition.edges, partition.members.Keys)
      ensures forall p :: p in asked <==> IsLcssaPair(allLoops, rootLoop, cfg, partition.sccOfValue, old(partition.sccToSet).Keys, p)
      ensures NoCycleBetweenSets(old(partition.edges), old(partition.members).Keys) ==>
                OnlyLinked(old(partition.sccToSet), asked, partition.sccToSet)
    {
      ghost var m0 := partition.sccToSet;
      var lcssaPhis := CollectLcssaPhis(allLoops, rootLoop, cfg);
      var lcssaPairs := CollectLcssaPairs(lcssaPhis, partition.sccOfValue, partition.sccToSet.Keys);
      ok := MergeAllPairs(lcssaPairs);
      LcssaPairsMeaning(allLoops, rootLoop, cfg, lcssaPhis, lcssaPairs, partition.sccOfValue, m0, partition.sccToSet, ok);
      asked := lcssaPairs;
    }
  }
}

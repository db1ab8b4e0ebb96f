/** The program the partitioner walks: the blocks of a loop, the control-flow
    graph of its function, and the values (instructions, PHI nodes) in its
    blocks. Also the value-level description of the program-order numbering
    of SCCs: which blocks the walk reaches and in which order the SCCs appear. */
module LoopCfg {
  import opened Wrappers
  import opened SetGraph
  import opened SccDagPartition

  /** A basic block, by identity. */
  type Block = nat

  /** A loop of the loop structure: its header, its blocks and its exit blocks. */
  datatype Loop = Loop(id: nat, header: Block, blocks: set<Block>, exitBlocks: seq<Block>)

  /** A PHI node: the value it defines and its incoming values. */
  datatype Phi = Phi(value: Value, incoming: seq<Value>)

  /** The control-flow graph of the function: successors, instructions and the
      PHI nodes of each block (a block missing from a map has none). */
  datatype Cfg = Cfg(succ: map<Block, seq<Block>>, instructions: map<Block, seq<Value>>, phis: map<Block, seq<Phi>>)

  function Successors(cfg: Cfg, b: Block): seq<Block> {
    if b in cfg.succ then cfg.succ[b] else []
  }

  function Instructions(cfg: Cfg, b: Block): seq<Value> {
    if b in cfg.instructions then cfg.instructions[b] else []
  }

  function Phis(cfg: Cfg, b: Block): seq<Phi> {
    if b in cfg.phis then cfg.phis[b] else []
  }

  /** A data dependence from `producer` to `consumer`, as the loop-carried
      dependence analysis reports it; `isMemory` marks one through memory. */
  datatype Dependence = Dependence(producer: Value, consumer: Value, isMemory: bool)

  /** The loop-carried dependences reported for `loop` (none when it has no entry). */
  function LoopCarried(lcd: map<Loop, seq<Dependence>>, loop: Loop): seq<Dependence> {
    if loop in lcd then lcd[loop] else []
  }

  /** `phi` is a PHI node of one of the exit blocks of `loop`. */
  ghost predicate IsExitPhi(cfg: Cfg, loop: Loop, phi: Phi) {
    exists k :: 0 <= k < |loop.exitBlocks| && phi in Phis(cfg, loop.exitBlocks[k])
  }

  /** A walk along control-flow edges that leaves only from blocks of `blocks`
      (its last block may lie outside). */
  ghost predicate IsLoopPath(cfg: Cfg, blocks: set<Block>, p: seq<Block>) {
    && |p| > 0
    && forall i :: 0 <= i < |p| - 1 ==> p[i] in blocks && p[i + 1] in Successors(cfg, p[i])
  }

  /** `b` can be reached from `h` by a walk that leaves only from blocks of `blocks`. */
  ghost predicate ReachedFrom(cfg: Cfg, blocks: set<Block>, h: Block, b: Block) {
    exists p :: IsLoopPath(cfg, blocks, p) && p[0] == h && p[|p| - 1] == b
  }

  lemma ReachedFromStart(cfg: Cfg, blocks: set<Block>, h: Block)
    ensures ReachedFrom(cfg, blocks, h, h)
  {
    assert IsLoopPath(cfg, blocks, [h]);
  }

  /** One more control-flow edge, taken from a block of `blocks`. */
  lemma ReachedFromStep(cfg: Cfg, blocks: set<Block>, h: Block, a: Block, s: Block)
    requires ReachedFrom(cfg, blocks, h, a) && a in blocks && s in Successors(cfg, a)
    ensures ReachedFrom(cfg, blocks, h, s)
  {
    var p :| IsLoopPath(cfg, blocks, p) && p[0] == h && p[|p| - 1] == a;
    var q := p + [s];
    assert forall i :: 0 <= i < |q| - 1 ==> q[i] in blocks && q[i + 1] in Successors(cfg, q[i]) by {
      forall i | 0 <= i < |q| - 1
        ensures q[i] in blocks && q[i + 1] in Successors(cfg, q[i])
      {
        if i < |p| - 1 {
          assert q[i] == p[i] && q[i + 1] == p[i + 1];
        } else {
          assert q[i] == a && q[i + 1] == s;
        }
      }
    }
    assert IsLoopPath(cfg, blocks, q);
  }

  /** A set of blocks of `blocks` that holds `h` (when `h` is in `blocks`) and
      every successor inside `blocks` of its members holds every block of
      `blocks` reachable from `h`. */
  lemma {:induction false} ClosedSetHoldsReached(cfg: Cfg, blocks: set<Block>, h: Block, closed: set<Block>, b: Block)
    requires h in blocks ==> h in closed
    requires forall a, s :: a in closed && s in Successors(cfg, a) && s in blocks ==> s in closed
    ensures b in blocks && ReachedFrom(cfg, blocks, h, b) ==> b in closed
  {
    if b in blocks && ReachedFrom(cfg, blocks, h, b) {
      var p :| IsLoopPath(cfg, blocks, p) && p[0] == h && p[|p| - 1] == b;
      var i := 0;
      assert p[0] in blocks by {
        if |p| > 1 {
          assert 0 < |p| - 1;
        }
      }
      while i < |p| - 1
        invariant 0 <= i < |p|
        invariant p[i] in closed
      {
        assert p[i + 1] in Successors(cfg, p[i]);
        assert p[i + 1] in blocks by {
          if i + 1 < |p| - 1 {
            assert p[i + 1] in blocks;
          }
        }
        i := i + 1;
      }
    }
  }

  /** The tracked SCCs of `values`, in order (a value outside every SCC, or in
      an untracked SCC, contributes nothing). */
  function TrackedSccs(values: seq<Value>, sccOfValue: map<Value, Scc>, tracked: set<Scc>): (r: seq<Scc>)
    ensures |r| <= |values|
  {
    if values == [] then []
    else
      var v := values[|values| - 1];
      TrackedSccs(values[..|values| - 1], sccOfValue, tracked)
        + (if v in sccOfValue && sccOfValue[v] in tracked then [sccOfValue[v]] else [])
  }

  lemma {:induction false} TrackedSccsMembership(values: seq<Value>, sccOfValue: map<Value, Scc>, tracked: set<Scc>, s: Scc)
    ensures s in TrackedSccs(values, sccOfValue, tracked) <==>
              s in tracked && exists k :: 0 <= k < |values| && values[k] in sccOfValue && sccOfValue[values[k]] == s
  {
    if values != [] {
      var n := |values| - 1;
      var init := values[..n];
      var v := values[n];
      TrackedSccsMembership(init, sccOfValue, tracked, s);
      if s in TrackedSccs(values, sccOfValue, tracked) {
        if s in TrackedSccs(init, sccOfValue, tracked) {
          var k :| 0 <= k < |init| && init[k] in sccOfValue && sccOfValue[init[k]] == s;
          assert values[k] == init[k];
        } else {
          assert v in sccOfValue && sccOfValue[v] == s;
        }
      }
      if s in tracked && exists k :: 0 <= k < |values| && values[k] in sccOfValue && sccOfValue[values[k]] == s {
        var k :| 0 <= k < |values| && values[k] in sccOfValue && sccOfValue[values[k]] == s;
        if k < n {
          assert init[k] == values[k];
        }
      }
    }
  }

  /** The tracked SCCs of the instructions of the blocks of `visit`, block after block. */
  function Trace(cfg: Cfg, visit: seq<Block>, sccOfValue: map<Value, Scc>, tracked: set<Scc>): seq<Scc> {
    if visit == [] then []
    else
      Trace(cfg, visit[..|visit| - 1], sccOfValue, tracked)
        + TrackedSccs(Instructions(cfg, visit[|visit| - 1]), sccOfValue, tracked)
  }

  lemma {:induction false} TraceMembership(cfg: Cfg, visit: seq<Block>, sccOfValue: map<Value, Scc>, tracked: set<Scc>, s: Scc)
    ensures s in Trace(cfg, visit, sccOfValue, tracked) <==>
              exists j :: 0 <= j < |visit| && s in TrackedSccs(Instructions(cfg, visit[j]), sccOfValue, tracked)
  {
    if visit != [] {
      var init := visit[..|visit| - 1];
      TraceMembership(cfg, init, sccOfValue, tracked, s);
      assert forall j :: 0 <= j < |init| ==> init[j] == visit[j];
    }
  }

  /** The first occurrence of each element, in order. */
  function Dedup<T(==)>(s: seq<T>): seq<T> {
    if s == [] then []
    else
      var d := Dedup(s[..|s| - 1]);
      if s[|s| - 1] in d then d else d + [s[|s| - 1]]
  }

  lemma DedupSnoc<T>(s: seq<T>, x: T)
    ensures Dedup(s + [x]) == if x in Dedup(s) then Dedup(s) else Dedup(s) + [x]
  {
    assert (s + [x])[..|s|] == s;
  }

  lemma TrackedSccsSingle(v: Value, sccOfValue: map<Value, Scc>, tracked: set<Scc>)
    ensures TrackedSccs([v], sccOfValue, tracked)
         == if v in sccOfValue && sccOfValue[v] in tracked then [sccOfValue[v]] else []
  {
    assert [v][..0] == [];
  }

  lemma {:induction false} DedupMembership<T>(s: seq<T>, x: T)
    ensures x in Dedup(s) <==> x in s
  {
    if s != [] {
      DedupMembership(s[..|s| - 1], x);
      assert s == s[..|s| - 1] + [s[|s| - 1]];
    }
  }

  lemma {:induction false} DedupDistinct<T>(s: seq<T>)
    ensures NoDuplicates(Dedup(s))
  {
    if s != [] {
      DedupDistinct(s[..|s| - 1]);
    }
  }

  /** `m` updated with the position of each element of `rec`. */
  function IndexMap<T>(m: map<T, nat>, rec: seq<T>): map<T, nat> {
    if rec == [] then m
    else IndexMap(m, rec[..|rec| - 1])[rec[|rec| - 1] := |rec| - 1]
  }

  lemma {:induction false} IndexMapAt<T>(m: map<T, nat>, rec: seq<T>, x: T)
    requires NoDuplicates(rec)
    ensures x in IndexMap(m, rec) <==> x in m || x in rec
    ensures forall i :: 0 <= i < |rec| && rec[i] == x ==> IndexMap(m, rec)[x] == i
    ensures x !in rec && x in m ==> IndexMap(m, rec)[x] == m[x]
  {
    if rec != [] {
      var init := rec[..|rec| - 1];
      assert rec == init + [rec[|rec| - 1]];
      IndexMapAt(m, init, x);
      assert forall i :: 0 <= i < |init| ==> init[i] == rec[i];
    }
  }

  /** The elements of `s`. */
  function Elements(s: seq<Scc>): (r: set<Scc>)
    ensures forall x :: x in r <==> x in s
  {
    set x | x in s
  }

  /** A sequence without repeats has as many elements as entries. */
  lemma {:induction false} DistinctElements(s: seq<Scc>)
    requires NoDuplicates(s)
    ensures |Elements(s)| == |s|
  {
    if s != [] {
      var init := s[..|s| - 1];
      assert s == init + [s[|s| - 1]];
      assert NoDuplicates(init);
      DistinctElements(init);
      assert s[|s| - 1] !in init;
      assert Elements(s) == Elements(init) + {s[|s| - 1]};
    }
  }

  /** Numbering the entries of a sequence without repeats, from nothing, gives
      one index per entry, each the entry's position. */
  lemma {:induction false} IndexMapFresh(rec: seq<Scc>)
    requires NoDuplicates(rec)
    ensures IndexMap(map[], rec).Keys == Elements(rec)
    ensures |IndexMap(map[], rec)| == |rec|
    ensures forall i :: 0 <= i < |rec| ==> IndexMap(map[], rec)[rec[i]] == i
  {
    forall x: Scc
      ensures x in IndexMap(map[], rec) <==> x in rec
      ensures forall i :: 0 <= i < |rec| && rec[i] == x ==> IndexMap(map[], rec)[x] == i
    {
      IndexMapAt(map[], rec, x);
    }
    assert IndexMap(map[], rec).Keys == Elements(rec);
    DistinctElements(rec);
  }

  /** Distinct entries drawn from `tracked` are as many as `tracked` exactly
      when every member of `tracked` is among them. */
  lemma CountMatches(rec: seq<Scc>, tracked: set<Scc>)
    requires NoDuplicates(rec) && forall x :: x in rec ==> x in tracked
    ensures |rec| == |tracked| <==> forall x :: x in tracked ==> x in rec
  {
    DistinctElements(rec);
    assert Elements(rec) <= tracked;
    if Elements(rec) != tracked {
      SubsetSmaller(Elements(rec), tracked);
    }
  }

  /** `s` is the SCC of an instruction in a block of `loop` reached from its
      header without leaving the loop. */
  ghost predicate OccursInLoop(cfg: Cfg, loop: Loop, sccOfValue: map<Value, Scc>, s: Scc) {
    exists b, k ::
      && b in loop.blocks && ReachedFrom(cfg, loop.blocks, loop.header, b)
      && 0 <= k < |Instructions(cfg, b)|
      && Instructions(cfg, b)[k] in sccOfValue && sccOfValue[Instructions(cfg, b)[k]] == s
  }

  /** When `visit` holds exactly the blocks of `loop` reached from its header,
      the first-occurrence order of the tracked SCCs of its instructions holds
      exactly the tracked SCCs occurring in the loop. */
  lemma RecordedSccs(cfg: Cfg, loop: Loop, sccOfValue: map<Value, Scc>, tracked: set<Scc>, visit: seq<Block>, s: Scc)
    requires forall b :: b in visit <==> b in loop.blocks && ReachedFrom(cfg, loop.blocks, loop.header, b)
    ensures s in Dedup(Trace(cfg, visit, sccOfValue, tracked)) <==> s in tracked && OccursInLoop(cfg, loop, sccOfValue, s)
  {
    DedupMembership(Trace(cfg, visit, sccOfValue, tracked), s);
    TraceMembership(cfg, visit, sccOfValue, tracked, s);
    if s in Trace(cfg, visit, sccOfValue, tracked) {
      var j :| 0 <= j < |visit| && s in TrackedSccs(Instructions(cfg, visit[j]), sccOfValue, tracked);
      TrackedSccsMembership(Instructions(cfg, visit[j]), sccOfValue, tracked, s);
      assert visit[j] in visit;
    }
    if s in tracked && OccursInLoop(cfg, loop, sccOfValue, s) {
      var b, k :|
        && b in loop.blocks && ReachedFrom(cfg, loop.blocks, loop.header, b)
        && 0 <= k < |Instructions(cfg, b)|
        && Instructions(cfg, b)[k] in sccOfValue && sccOfValue[Instructions(cfg, b)[k]] == s;
      var j :| 0 <= j < |visit| && visit[j] == b;
      TrackedSccsMembership(Instructions(cfg, b), sccOfValue, tracked, s);
    }
  }

  /** `s` resized to `n` slots, as a vector is: the first slots kept, new ones empty. */
  function Resize<T>(s: seq<Option<T>>, n: nat): (r: seq<Option<T>>)
    ensures |r| == n
    ensures forall i :: 0 <= i < n ==> r[i] == if i < |s| then s[i] else None
  {
    if n <= |s| then s[..n] else s + seq(n - |s|, _ => None)
  }
}

/** The partition graph of an SCC-DAG (SCCDAGPartition): nodes are sets of SCCs,
    edges say that one set depends on another. */
module SccDagPartition {
  import opened Wrappers
  import opened SetGraph

  /** An SCC of the dependence graph, by identity. */
  type Scc = nat

  /** A program value (an instruction), by identity. */
  type Value = nat

  /** The edges the constructor is asked for: one from the set of each tracked
      parent to the set of its tracked child. */
  ghost predicate IsWantedEdge(m: map<Scc, Handle>, ps: seq<(Scc, seq<Scc>)>, bound: int, e: Edge) {
    exists k, p :: 0 <= k < bound && k < |ps| && ps[k].0 in m && p in ps[k].1 && p in m && e == (m[p], m[ps[k].0])
  }

  /** SCCs that shared a set under `m0` still share one under `m1`, and the
      tracked SCCs are the same. */
  ghost predicate KeepsTogether(m0: map<Scc, Handle>, m1: map<Scc, Handle>) {
    && m1.Keys == m0.Keys
    && forall a, b :: a in m0 && b in m0 && m0[a] == m0[b] ==> m1[a] == m1[b]
  }

  /** `m` tracks the SCCs of `m0` and puts two of them in one set exactly
      when their sets under `m0` were one set or lay on a common cycle of `e0`. */
  ghost predicate JoinsCycles(m0: map<Scc, Handle>, e0: seq<Edge>, m: map<Scc, Handle>) {
    && m.Keys == m0.Keys
    && forall a, b :: a in m0 && b in m0 ==> (m[a] == m[b] <==> m0[a] == m0[b] || Mutual(e0, m0[a], m0[b]))
  }

  /** `m` tracks the SCCs of `m0` and puts two of them in one set exactly
      when their sets under `m0` were one set or were both among `sets`. */
  ghost predicate JoinsSets(m0: map<Scc, Handle>, sets: set<Handle>, m: map<Scc, Handle>) {
    && m.Keys == m0.Keys
    && forall a, b :: a in m0 && b in m0 ==> (m[a] == m[b] <==> m0[a] == m0[b] || (m0[a] in sets && m0[b] in sets))
  }

  /** No two distinct sets lie on a common cycle. */
  ghost predicate NoCycleBetweenSets(es: seq<Edge>, nodes: set<Handle>) {
    forall u, v :: u in nodes && v in nodes && u != v ==> !Mutual(es, u, v)
  }

  /** A set that lies on no cycle with any other set. */
  ghost predicate OnNoCycle(es: seq<Edge>, nodes: set<Handle>, h: Handle) {
    forall v :: v in nodes && v != h ==> !Mutual(es, h, v)
  }

  /** `u` is a set of `mem0` on a cycle with another set, and `contents` are
      exactly the SCCs whose sets under `m0` lie on a common cycle with `u`. */
  ghost predicate CycleClass(m0: map<Scc, Handle>, mem0: map<Handle, set<Scc>>, e0: seq<Edge>, u: Handle, contents: set<Scc>) {
    && u in mem0 && !OnNoCycle(e0, mem0.Keys, u)
    && forall s :: s in contents <==> s in m0 && Mutual(e0, m0[s], u)
  }

  /** The set `h` holding `contents` is one that collapsing the cycles of
      (`m0`, `mem0`, `e0`), whose next handle is `n0`, can leave: an original
      set on no cycle, unchanged, or a fresh, non-empty set holding one whole
      cycle of sets. */
  ghost predicate CollapsedSet(m0: map<Scc, Handle>, mem0: map<Handle, set<Scc>>, e0: seq<Edge>, n0: Handle,
                               h: Handle, contents: set<Scc>) {
    || (h in mem0 && OnNoCycle(e0, mem0.Keys, h) && contents == mem0[h])
    || (h >= n0 && contents != {} && exists u :: CycleClass(m0, mem0, e0, u, contents))
  }

  /** Every parent of every emitted set is emitted before it. */
  ghost predicate ParentsFirst(es: seq<Edge>, out: seq<Handle>) {
    forall i, p :: 0 <= i < |out| && (p, out[i]) in es ==> p in out[..i]
  }

  /** The SCCs held by the sets `hs`. */
  ghost function UnionOf(m: map<Handle, set<Scc>>, hs: set<Handle>): set<Scc> {
    set h, s | h in hs && h in m && s in m[h] :: s
  }

  /** The partition's invariant: the SCC-to-set map and the sets' members agree,
      edges join live sets that hold SCCs, no edge is doubled and every handle
      was issued. */
  ghost predicate WellFormed(m: map<Scc, Handle>, mem: map<Handle, set<Scc>>, es: seq<Edge>, next: Handle) {
    && (forall s :: s in m ==> m[s] in mem && s in mem[m[s]])
    && (forall h, s :: h in mem && s in mem[h] ==> s in m && m[s] == h)
    && (forall e :: e in es ==> e.0 in mem && e.1 in mem && mem[e.0] != {} && mem[e.1] != {})
    && NoDuplicates(es)
    && (forall h :: h in mem ==> h < next)
  }

  /** `m` with each SCC of `sccs` not yet in it mapped to `h`, as
      `insert` on a map does. */
  function InsertAll(m: map<Scc, Handle>, sccs: set<Scc>, h: Handle): (r: map<Scc, Handle>)
    ensures r.Keys == m.Keys + sccs
    ensures forall s :: s in r ==> r[s] == if s in m then m[s] else h
  {
    m + map s | s in sccs && s !in m :: h
  }

  /** The state after the first `i` initial sets have been added: handles
      `0 .. i-1` hold them and every SCC of them maps to its set. */
  ghost predicate InitialState(m: map<Scc, Handle>, mem: map<Handle, set<Scc>>, sets: seq<set<Scc>>, i: nat) {
    && i <= |sets|
    && (forall h: Handle :: h in mem <==> h < i)
    && (forall h :: 0 <= h < i ==> mem[h] == sets[h])
    && m.Keys == UnionAll(sets[..i])
    && (forall s :: s in m ==> m[s] < i && s in sets[m[s]])
  }

  lemma InitialStep(m: map<Scc, Handle>, mem: map<Handle, set<Scc>>, sets: seq<set<Scc>>, i: nat)
    requires InitialState(m, mem, sets, i) && i < |sets|
    ensures InitialState(InsertAll(m, sets[i], i), mem[i := sets[i]], sets, i + 1)
  {
    var m1 := InsertAll(m, sets[i], i);
    var next := sets[..i + 1];
    assert next[..i] == sets[..i] && next[i] == sets[i];
    assert UnionAll(next) == UnionAll(sets[..i]) + sets[i];
    forall s | s in m1
      ensures m1[s] < i + 1 && s in sets[m1[s]]
    {
    }
  }

  /** Among pairwise disjoint sets, two that share an element are the same one. */
  lemma SharedMeansSame(sets: seq<set<Scc>>, i: nat, j: nat, s: Scc)
    requires forall i, j :: 0 <= i < j < |sets| ==> sets[i] !! sets[j]
    requires i < |sets| && j < |sets| && s in sets[i] && s in sets[j]
    ensures i == j
  {
    assert !(sets[i] !! sets[j]) && !(sets[j] !! sets[i]);
  }

  lemma InitialDone(m: map<Scc, Handle>, mem: map<Handle, set<Scc>>, sets: seq<set<Scc>>)
    requires forall i, j :: 0 <= i < j < |sets| ==> sets[i] !! sets[j]
    requires InitialState(m, mem, sets, |sets|)
    ensures WellFormed(m, mem, [], |sets|)
    ensures m.Keys == UnionAll(sets)
  {
    assert sets[..|sets|] == sets;
    forall h, s | h in mem && s in mem[h]
      ensures s in m && m[s] == h
    {
      assert mem[h] == sets[h];
      assert s in UnionAll(sets);
      SharedMeansSame(sets, m[s], h, s);
    }
  }

  /** `m` with each SCC of `sccs` mapped to `h`, as assigning through `[]` does. */
  function Overwrite(m: map<Scc, Handle>, sccs: set<Scc>, h: Handle): (r: map<Scc, Handle>)
    ensures r.Keys == m.Keys + sccs
    ensures forall s :: s in r ==> r[s] == if s in sccs then h else m[s]
  {
    m + map s | s in sccs :: h
  }

  /** Pointing the SCCs of one more of the merged sets at `h`. */
  lemma RemapStep(m0: map<Scc, Handle>, mem: map<Handle, set<Scc>>, done: set<Handle>, oldSet: Handle, h: Handle)
    requires forall g, s :: g in mem && s in mem[g] ==> s in m0 && m0[s] == g
    requires forall s :: s in m0 ==> m0[s] in mem && s in mem[m0[s]]
    requires oldSet in mem
    ensures Overwrite(MergedMap(m0, done, h), mem[oldSet], h) == MergedMap(m0, done + {oldSet}, h)
  {
    var lhs := Overwrite(MergedMap(m0, done, h), mem[oldSet], h);
    var rhs := MergedMap(m0, done + {oldSet}, h);
    assert lhs.Keys == rhs.Keys;
    forall s | s in lhs
      ensures lhs[s] == rhs[s]
    {
      if s in mem[oldSet] {
        assert m0[s] == oldSet;
      } else {
        assert m0[s] != oldSet;
      }
    }
  }

  /** The SCC-to-set map after merging `sets` into the new set `h`. */
  ghost function MergedMap(m: map<Scc, Handle>, sets: set<Handle>, h: Handle): map<Scc, Handle> {
    map s | s in m :: if m[s] in sets then h else m[s]
  }

  /** Adding the new set before removing the merged ones gives `MergedMembers`. */
  lemma MergedMembersByRemoval(mem: map<Handle, set<Scc>>, sets: set<Handle>, h: Handle)
    requires h !in sets
    ensures mem[h := UnionOf(mem, sets)] - sets == MergedMembers(mem, sets, h)
  {
  }

  /** Both ends of every edge are live, non-empty sets whose SCCs are all mapped. */
  ghost predicate EndsTracked(m: map<Scc, Handle>, mem: map<Handle, set<Scc>>, es: seq<Edge>) {
    forall e :: e in es ==>
      && e.0 in mem && mem[e.0] != {} && (forall s :: s in mem[e.0] ==> s in m)
      && e.1 in mem && mem[e.1] != {} && (forall s :: s in mem[e.1] ==> s in m)
  }

  /** Remapping the SCCs and adding the new set `next` keeps the old edges' ends tracked. */
  lemma RemapKeepsEndsTracked(m: map<Scc, Handle>, mem: map<Handle, set<Scc>>, es: seq<Edge>, next: Handle, sets: set<Handle>, sccs: set<Scc>)
    requires WellFormed(m, mem, es, next)
    ensures EndsTracked(MergedMap(m, sets, next), mem[next := sccs], es)
  {
    var m', mem' := MergedMap(m, sets, next), mem[next := sccs];
    forall e | e in es
      ensures e.0 in mem' && mem'[e.0] != {} && (forall s :: s in mem'[e.0] ==> s in m')
      ensures e.1 in mem' && mem'[e.1] != {} && (forall s :: s in mem'[e.1] ==> s in m')
    {
      assert e.0 != next && e.1 != next;
    }
  }

  /** The sets after merging `sets` into the new set `h`. */
  ghost function MergedMembers(mem: map<Handle, set<Scc>>, sets: set<Handle>, h: Handle): map<Handle, set<Scc>> {
    (mem - sets)[h := UnionOf(mem, sets)]
  }

  /** Merging live sets into a freshly issued set keeps the invariant. */
  lemma MergeKeepsWellFormed(m: map<Scc, Handle>, mem: map<Handle, set<Scc>>, es: seq<Edge>, next: Handle, sets: set<Handle>)
    requires WellFormed(m, mem, es, next) && sets <= mem.Keys
    ensures WellFormed(MergedMap(m, sets, next), MergedMembers(mem, sets, next), DropIncident(es, sets), next + 1)
  {
    MergedMapSound(m, mem, es, next, sets);
    MergedMembersSound(m, mem, es, next, sets);
    DropIncidentKeepsDistinct(es, sets);
  }

  /** After a merge every tracked SCC still lies in the set it maps to. */
  lemma MergedMapSound(m: map<Scc, Handle>, mem: map<Handle, set<Scc>>, es: seq<Edge>, next: Handle, sets: set<Handle>)
    requires WellFormed(m, mem, es, next) && sets <= mem.Keys
    ensures forall s :: s in MergedMap(m, sets, next) ==>
              MergedMap(m, sets, next)[s] in MergedMembers(mem, sets, next)
              && s in MergedMembers(mem, sets, next)[MergedMap(m, sets, next)[s]]
  {
    var m', mem' := MergedMap(m, sets, next), MergedMembers(mem, sets, next);
    forall s | s in m' ensures m'[s] in mem' && s in mem'[m'[s]] {
      if m[s] in sets {
        assert s in UnionOf(mem, sets) by { assert m[s] in sets && s in mem[m[s]]; }
      }
    }
  }

  /** After a merge every SCC of a set maps to that set. */
  lemma MergedMembersSound(m: map<Scc, Handle>, mem: map<Handle, set<Scc>>, es: seq<Edge>, next: Handle, sets: set<Handle>)
    requires WellFormed(m, mem, es, next) && sets <= mem.Keys
    ensures forall h, s :: h in MergedMembers(mem, sets, next) && s in MergedMembers(mem, sets, next)[h] ==>
              s in MergedMap(m, sets, next) && MergedMap(m, sets, next)[s] == h
  {
    var m', mem' := MergedMap(m, sets, next), MergedMembers(mem, sets, next);
    forall h, s | h in mem' && s in mem'[h] ensures s in m' && m'[s] == h {
      if h == next {
        var g :| g in sets && g in mem && s in mem[g];
      }
    }
  }

  /** When no two sets lie on a common cycle, merging some of them closes no
      cycle either: the new set has no edges, and every remaining edge was one
      before. */
  lemma MergeKeepsNoCycle(m: map<Scc, Handle>, mem: map<Handle, set<Scc>>, es: seq<Edge>, next: Handle, sets: set<Handle>)
    requires WellFormed(m, mem, es, next) && NoCycleBetweenSets(es, mem.Keys)
    ensures NoCycleBetweenSets(DropIncident(es, sets), MergedMembers(mem, sets, next).Keys)
  {
    var es', mem' := DropIncident(es, sets), MergedMembers(mem, sets, next);
    forall u, v | u in mem' && v in mem' && u != v
      ensures !Mutual(es', u, v)
    {
      ReachesNeedsEdge(es', u, v);
      ReachesNeedsEdge(es', v, u);
      MutualMono(es', es, u, v);
    }
  }

  /** When merging `sets` into the new set `next` closes no cycle, the
      collapse that follows joins exactly the SCCs of the merged sets. */
  lemma CollapseAfterAcyclicMerge(m: map<Scc, Handle>, mem: map<Handle, set<Scc>>, es: seq<Edge>, next: Handle,
                                  sets: set<Handle>, m2: map<Scc, Handle>)
    requires WellFormed(m, mem, es, next) && sets <= mem.Keys && NoCycleBetweenSets(es, mem.Keys)
    requires JoinsCycles(MergedMap(m, sets, next), DropIncident(es, sets), m2)
    ensures JoinsSets(m, sets, m2)
  {
    var m1, mem1 := MergedMap(m, sets, next), MergedMembers(mem, sets, next);
    MergeKeepsNoCycle(m, mem, es, next, sets);
    MergedMapSound(m, mem, es, next, sets);
    forall a, b | a in m && b in m
      ensures m2[a] == m2[b] <==> m[a] == m[b] || (m[a] in sets && m[b] in sets)
    {
      assert m1[a] in mem1 && m1[b] in mem1;
      assert m[a] < next && m[b] < next;
    }
  }

  /** Pairwise disjoint groups of nodes drawn from `nodes`. */
  ghost predicate DisjointGroups(gs: seq<set<Handle>>, nodes: set<Handle>) {
    && (forall i :: 0 <= i < |gs| ==> gs[i] <= nodes)
    && (forall i, j :: 0 <= i < j < |gs| ==> gs[i] !! gs[j])
  }

  /** The sets of the groups among `gs[..i]` that have two or more members. */
  ghost function MergedGroups(gs: seq<set<Handle>>, i: nat): set<Handle>
    requires i <= |gs|
  {
    if i == 0 then {} else MergedGroups(gs, i - 1) + (if |gs[i - 1]| > 1 then gs[i - 1] else {})
  }

  lemma {:induction false} MergedGroupsContains(gs: seq<set<Handle>>, i: nat, j: nat)
    requires j < i <= |gs| && |gs[j]| > 1
    ensures gs[j] <= MergedGroups(gs, i)
  {
    if j < i - 1 {
      MergedGroupsContains(gs, i - 1, j);
    }
  }

  lemma {:induction false} MergedGroupsFrom(gs: seq<set<Handle>>, i: nat, x: Handle)
    requires i <= |gs| && x in MergedGroups(gs, i)
    ensures exists j :: 0 <= j < i && |gs[j]| > 1 && x in gs[j]
  {
    if x !in (if |gs[i - 1]| > 1 then gs[i - 1] else {}) {
      MergedGroupsFrom(gs, i - 1, x);
    }
  }

  lemma {:induction false} MergedGroupsApart(gs: seq<set<Handle>>, nodes: set<Handle>, i: nat, j: nat)
    requires DisjointGroups(gs, nodes) && i <= j < |gs|
    ensures gs[j] !! MergedGroups(gs, i)
  {
    if i > 0 {
      MergedGroupsApart(gs, nodes, i - 1, j);
      assert gs[i - 1] !! gs[j];
    }
  }

  lemma {:induction false} MergedGroupsWithin(gs: seq<set<Handle>>, nodes: set<Handle>, i: nat)
    requires DisjointGroups(gs, nodes) && i <= |gs|
    ensures MergedGroups(gs, i) <= nodes
  {
    if i > 0 {
      MergedGroupsWithin(gs, nodes, i - 1);
    }
  }

  /** What the collapse loop keeps after handling `groups[..i]`, for the state
      (m, mem, es, next) reached from (m0, mem0, e0, n0): `gone` holds the sets
      of the groups merged so far, every other original set is still there
      unchanged, and two SCCs share a set exactly when their original sets were
      one set or share a handled group. */
  ghost predicate CollapsedUpTo(groups: seq<set<Handle>>, i: int, gone: set<Handle>,
                                m: map<Scc, Handle>, mem: map<Handle, set<Scc>>, es: seq<Edge>, next: Handle,
                                m0: map<Scc, Handle>, mem0: map<Handle, set<Scc>>, e0: seq<Edge>, n0: Handle)
  {
    && CollapseFrame(groups, i, gone, m, mem, es, next, m0, mem0, e0, n0)
    && GroupsJoined(groups, i, m0, m)
    && GroupsOnly(groups, i, m0, m)
  }

  /** The sets, edges and handles of the collapse after `groups[..i]`. */
  ghost predicate CollapseFrame(groups: seq<set<Handle>>, i: int, gone: set<Handle>,
                                m: map<Scc, Handle>, mem: map<Handle, set<Scc>>, es: seq<Edge>, next: Handle,
                                m0: map<Scc, Handle>, mem0: map<Handle, set<Scc>>, e0: seq<Edge>, n0: Handle)
  {
    && 0 <= i <= |groups| && DisjointGroups(groups, mem0.Keys)
    && WellFormed(m0, mem0, e0, n0)
    && WellFormed(m, mem, es, next) && next >= n0
    && gone == MergedGroups(groups, i)
    && (forall h :: h in mem0 && h !in gone ==> h in mem && mem[h] == mem0[h])
    && (forall h :: h in mem ==> h >= n0 || (h in mem0 && h !in gone))
    && es == DropIncident(e0, gone)
    && KeepsTogether(m0, m)
    && (forall a :: a in m0 && m0[a] !in gone ==> m[a] == m0[a])
  }

  /** SCCs whose original sets share a group among `groups[..i]` share a set. */
  ghost predicate GroupsJoined(groups: seq<set<Handle>>, i: int, m0: map<Scc, Handle>, m: map<Scc, Handle>)
    requires i <= |groups| && m.Keys == m0.Keys
  {
    forall j, a, b :: 0 <= j < i && a in m0 && b in m0 && m0[a] in groups[j] && m0[b] in groups[j]
      ==> m[a] == m[b]
  }

  /** SCCs share a set only if their original sets were one set or share a
      group among `groups[..i]`. */
  ghost predicate GroupsOnly(groups: seq<set<Handle>>, i: int, m0: map<Scc, Handle>, m: map<Scc, Handle>)
    requires m.Keys == m0.Keys
  {
    forall a, b :: a in m0 && b in m0 && m[a] == m[b] ==> m0[a] == m0[b] || SameGroup(groups, i, m0[a], m0[b])
  }

  /** `u` and `v` lie in one group among `groups[..i]`. */
  ghost predicate SameGroup(groups: seq<set<Handle>>, i: int, u: Handle, v: Handle) {
    exists j :: 0 <= j < i && j < |groups| && u in groups[j] && v in groups[j]
  }

  /** Before the first group nothing has been collapsed. */
  lemma CollapseStart(groups: seq<set<Handle>>, m0: map<Scc, Handle>, mem0: map<Handle, set<Scc>>, e0: seq<Edge>, n0: Handle)
    requires WellFormed(m0, mem0, e0, n0)
    requires AreCycleGroups(e0, mem0.Keys, groups) && UnionAll(groups) == mem0.Keys
    ensures CollapsedUpTo(groups, 0, {}, m0, mem0, e0, n0, m0, mem0, e0, n0)
    ensures FreshSets(mem0, m0, mem0, e0, n0)
  {
    DropIncidentNothing(e0);
    assert DisjointGroups(groups, mem0.Keys);
  }

  /** After the last group, the collapse has joined every cycle, left no cycle
      between two sets and kept the sets on no cycle. */
  lemma CollapseDone(groups: seq<set<Handle>>, gone: set<Handle>,
                     m: map<Scc, Handle>, mem: map<Handle, set<Scc>>, es: seq<Edge>, next: Handle,
                     m0: map<Scc, Handle>, mem0: map<Handle, set<Scc>>, e0: seq<Edge>, n0: Handle)
    requires WellFormed(m0, mem0, e0, n0)
    requires AreCycleGroups(e0, mem0.Keys, groups) && UnionAll(groups) == mem0.Keys
    requires CollapsedUpTo(groups, |groups|, gone, m, mem, es, next, m0, mem0, e0, n0)
    ensures JoinsCycles(m0, e0, m)
    ensures NoCycleBetweenSets(es, mem.Keys)
    ensures forall e :: e in es ==> e in e0
    ensures forall h :: h in mem0 && OnNoCycle(e0, mem0.Keys, h) ==> h in mem && mem[h] == mem0[h]
  {
    forall a, b | a in m0 && b in m0 && Mutual(e0, m0[a], m0[b]) ensures m[a] == m[b] {
      InUnionAll(groups, m0[a]);
      var j :| 0 <= j < |groups| && m0[a] in groups[j];
    }
    forall a, b | a in m0 && b in m0 && m[a] == m[b] && m0[a] != m0[b] ensures Mutual(e0, m0[a], m0[b]) {
      var j :| 0 <= j < |groups| && m0[a] in groups[j] && m0[b] in groups[j];
    }
    forall u, v | u in mem && v in mem && u != v ensures !Mutual(es, u, v) {
      NoCycleAfterCollapse(e0, mem0.Keys, groups, u, v);
    }
    forall h | h in mem0 && OnNoCycle(e0, mem0.Keys, h) ensures h in mem && mem[h] == mem0[h] {
      GoneLayOnCycle(e0, mem0.Keys, groups, h);
    }
  }

  /** Merging the group `groups[i]` of two or more sets moves the collapse one group on. */
  lemma CollapseMergeStep(groups: seq<set<Handle>>, i: int, gone: set<Handle>,
                          m: map<Scc, Handle>, mem: map<Handle, set<Scc>>, es: seq<Edge>, next: Handle,
                          m0: map<Scc, Handle>, mem0: map<Handle, set<Scc>>, e0: seq<Edge>, n0: Handle)
    requires 0 <= i < |groups| && |groups[i]| > 1
    requires CollapsedUpTo(groups, i, gone, m, mem, es, next, m0, mem0, e0, n0)
    ensures groups[i] <= mem.Keys
    ensures CollapsedUpTo(groups, i + 1, gone + groups[i],
                          MergedMap(m, groups[i], next), MergedMembers(mem, groups[i], next), DropIncident(es, groups[i]), next + 1,
                          m0, mem0, e0, n0)
  {
    MergedGroupsApart(groups, mem0.Keys, i, i);
    MergeKeepsFrame(groups, i, gone, m, mem, es, next, m0, mem0, e0, n0);
    MergeJoinsGroup(groups, i, m, m0, next);
    MergeSeparatesGroups(groups, i, gone, m, mem, es, next, m0, mem0, e0, n0);
  }

  /** Merging `groups[i]` of two or more sets keeps the sets, edges and
      handles of the collapse in step. */
  lemma MergeKeepsFrame(groups: seq<set<Handle>>, i: int, gone: set<Handle>,
                        m: map<Scc, Handle>, mem: map<Handle, set<Scc>>, es: seq<Edge>, next: Handle,
                        m0: map<Scc, Handle>, mem0: map<Handle, set<Scc>>, e0: seq<Edge>, n0: Handle)
    requires 0 <= i < |groups| && |groups[i]| > 1
    requires CollapseFrame(groups, i, gone, m, mem, es, next, m0, mem0, e0, n0)
    ensures groups[i] <= mem.Keys
    ensures CollapseFrame(groups, i + 1, gone + groups[i],
                          MergedMap(m, groups[i], next), MergedMembers(mem, groups[i], next), DropIncident(es, groups[i]), next + 1,
                          m0, mem0, e0, n0)
  {
    var g := groups[i];
    MergedGroupsApart(groups, mem0.Keys, i, i);
    assert g <= mem.Keys;
    MergeKeepsWellFormed(m, mem, es, next, g);
    DropIncidentTwice(e0, gone, g);
  }

  /** Merging `groups[i]` into the new set `next` joins only SCCs whose
      original sets were one set or share a group among `groups[..i + 1]`. */
  lemma MergeSeparatesGroups(groups: seq<set<Handle>>, i: int, gone: set<Handle>,
                             m: map<Scc, Handle>, mem: map<Handle, set<Scc>>, es: seq<Edge>, next: Handle,
                             m0: map<Scc, Handle>, mem0: map<Handle, set<Scc>>, e0: seq<Edge>, n0: Handle)
    requires 0 <= i < |groups|
    requires CollapsedUpTo(groups, i, gone, m, mem, es, next, m0, mem0, e0, n0)
    ensures GroupsOnly(groups, i + 1, m0, MergedMap(m, groups[i], next))
  {
    var g, m' := groups[i], MergedMap(m, groups[i], next);
    MergedGroupsApart(groups, mem0.Keys, i, i);
    forall a, b | a in m0 && b in m0 && m'[a] == m'[b] && m0[a] != m0[b]
      ensures SameGroup(groups, i + 1, m0[a], m0[b])
    {
      if m[a] in g && m[b] in g {
        StillOriginal(groups, i, gone, m, mem, es, next, m0, mem0, e0, n0, a);
        StillOriginal(groups, i, gone, m, mem, es, next, m0, mem0, e0, n0, b);
        assert m0[a] in groups[i] && m0[b] in groups[i];
      } else if m[a] !in g && m[b] !in g {
        var j :| 0 <= j < i && j < |groups| && m0[a] in groups[j] && m0[b] in groups[j];
        assert 0 <= j < i + 1;
      }
    }
  }

  /** An SCC whose set is in the group `groups[i]`, not yet handled, is
      still in its original set. */
  lemma StillOriginal(groups: seq<set<Handle>>, i: int, gone: set<Handle>,
                      m: map<Scc, Handle>, mem: map<Handle, set<Scc>>, es: seq<Edge>, next: Handle,
                      m0: map<Scc, Handle>, mem0: map<Handle, set<Scc>>, e0: seq<Edge>, n0: Handle, a: Scc)
    requires 0 <= i < |groups| && groups[i] !! gone
    requires CollapsedUpTo(groups, i, gone, m, mem, es, next, m0, mem0, e0, n0)
    requires a in m0 && m[a] in groups[i]
    ensures m0[a] == m[a]
  {
    assert m[a] in mem0 && m[a] !in gone;
    assert a in mem[m[a]];
  }

  /** Merging `groups[i]`, whose SCCs still have their original sets, keeps
      the groups before it together and puts its own SCCs together. */
  lemma MergeJoinsGroup(groups: seq<set<Handle>>, i: int, m: map<Scc, Handle>, m0: map<Scc, Handle>, next: Handle)
    requires 0 <= i < |groups| && m.Keys == m0.Keys
    requires forall a :: a in m0 && m0[a] in groups[i] ==> m[a] == m0[a]
    requires GroupsJoined(groups, i, m0, m)
    ensures GroupsJoined(groups, i + 1, m0, MergedMap(m, groups[i], next))
  {
    var m' := MergedMap(m, groups[i], next);
    forall j, a, b | 0 <= j < i + 1 && a in m0 && b in m0 && m0[a] in groups[j] && m0[b] in groups[j]
      ensures m'[a] == m'[b]
    {
      if j == i {
        assert m[a] == m0[a] && m[b] == m0[b];
      } else {
        assert m[a] == m[b];
      }
    }
  }

  /** A group of a single set is left alone, and the collapse moves one group on. */
  lemma CollapseSkipStep(groups: seq<set<Handle>>, i: int, gone: set<Handle>,
                         m: map<Scc, Handle>, mem: map<Handle, set<Scc>>, es: seq<Edge>, next: Handle,
                         m0: map<Scc, Handle>, mem0: map<Handle, set<Scc>>, e0: seq<Edge>, n0: Handle)
    requires 0 <= i < |groups| && |groups[i]| <= 1
    requires CollapsedUpTo(groups, i, gone, m, mem, es, next, m0, mem0, e0, n0)
    ensures CollapsedUpTo(groups, i + 1, gone, m, mem, es, next, m0, mem0, e0, n0)
  {
    forall j, a, b | 0 <= j < i + 1 && a in m0 && b in m0 && m0[a] in groups[j] && m0[b] in groups[j]
      ensures m[a] == m[b]
    {
      if j == i {
        AtMostOne(groups[i], m0[a], m0[b]);
      }
    }
    forall a, b | a in m0 && b in m0 && m[a] == m[b] && m0[a] != m0[b]
      ensures SameGroup(groups, i + 1, m0[a], m0[b])
    {
      var j :| 0 <= j < i && j < |groups| && m0[a] in groups[j] && m0[b] in groups[j];
      assert 0 <= j < i + 1;
    }
  }

  /** In a set of at most one element, a member excludes every other value. */
  lemma AtMostOne<T>(g: set<T>, u: T, v: T)
    requires |g| <= 1 && u in g
    ensures v in g ==> v == u
  {
    assert |g - {u}| == |g| - 1;
    assert g - {u} == {};
  }

  /** Once every group of two or more sets has been merged away, no cycle is
      left between two distinct sets. */
  lemma NoCycleAfterCollapse(e0: seq<Edge>, nodes: set<Handle>, groups: seq<set<Handle>>, u: Handle, v: Handle)
    requires AreCycleGroups(e0, nodes, groups) && UnionAll(groups) == nodes
    requires forall e :: e in e0 ==> e.0 in nodes && e.1 in nodes
    requires u != v
    ensures !Mutual(DropIncident(e0, MergedGroups(groups, |groups|)), u, v)
  {
    var gone := MergedGroups(groups, |groups|);
    var es := DropIncident(e0, gone);
    ReachesNeedsEdge(es, u, v);
    if c :| (u, c) in es {
      assert (u, c) in e0 && u !in gone;
      InUnionAll(groups, u);
      var j :| 0 <= j < |groups| && u in groups[j];
      if |groups[j]| > 1 {
        MergedGroupsContains(groups, |groups|, j);
      }
      AtMostOne(groups[j], u, v);
      MutualMono(es, e0, u, v);
    }
  }

  /** A set merged away by the collapse lay on a cycle with another set. */
  lemma GoneLayOnCycle(e0: seq<Edge>, nodes: set<Handle>, groups: seq<set<Handle>>, h: Handle)
    requires AreCycleGroups(e0, nodes, groups)
    ensures h in MergedGroups(groups, |groups|) ==> !OnNoCycle(e0, nodes, h)
  {
    if h in MergedGroups(groups, |groups|) {
      MergedGroupsFrom(groups, |groups|, h);
      var j :| 0 <= j < |groups| && |groups[j]| > 1 && h in groups[j];
      assert |groups[j] - {h}| == |groups[j]| - 1;
      var v :| v in groups[j] - {h};
      assert Mutual(e0, h, v) && v in nodes && v != h;
    }
  }

  /** A set that the collapse does not merge away lies on no cycle with another set. */
  lemma KeptOnNoCycle(e0: seq<Edge>, nodes: set<Handle>, groups: seq<set<Handle>>, h: Handle)
    requires AreCycleGroups(e0, nodes, groups) && UnionAll(groups) == nodes
    requires h in nodes && h !in MergedGroups(groups, |groups|)
    ensures OnNoCycle(e0, nodes, h)
  {
    InUnionAll(groups, h);
    var j :| 0 <= j < |groups| && h in groups[j];
    if |groups[j]| > 1 {
      MergedGroupsContains(groups, |groups|, j);
    }
    forall v | v in nodes && v != h ensures !Mutual(e0, h, v) {
      AtMostOne(groups[j], h, v);
    }
  }

  /** Every set issued since `n0` is non-empty and holds one whole cycle of
      the sets of (`m0`, `mem0`, `e0`). */
  ghost predicate FreshSets(mem: map<Handle, set<Scc>>, m0: map<Scc, Handle>, mem0: map<Handle, set<Scc>>, e0: seq<Edge>, n0: Handle) {
    forall h :: h in mem && h >= n0 ==> mem[h] != {} && exists u :: CycleClass(m0, mem0, e0, u, mem[h])
  }

  /** The SCCs of a group of two or more sets, none merged yet, are a whole
      cycle of the original sets, and there is at least one of them: a set on
      a cycle has an edge, and the ends of an edge hold SCCs. */
  lemma MergedGroupIsCycle(groups: seq<set<Handle>>, i: int, gone: set<Handle>,
                           m: map<Scc, Handle>, mem: map<Handle, set<Scc>>, es: seq<Edge>, next: Handle,
                           m0: map<Scc, Handle>, mem0: map<Handle, set<Scc>>, e0: seq<Edge>, n0: Handle)
    requires 0 <= i < |groups| && |groups[i]| > 1
    requires AreCycleGroups(e0, mem0.Keys, groups)
    requires CollapseFrame(groups, i, gone, m, mem, es, next, m0, mem0, e0, n0)
    ensures UnionOf(mem, groups[i]) != {} && exists u :: CycleClass(m0, mem0, e0, u, UnionOf(mem, groups[i]))
  {
    var g := groups[i];
    MergedGroupsApart(groups, mem0.Keys, i, i);
    var u :| u in g;
    assert |g - {u}| == |g| - 1;
    var v :| v in g - {u};
    assert Mutual(e0, u, v);
    ReachesNeedsEdge(e0, u, v);
    var c :| (u, c) in e0;
    var s0 :| s0 in mem0[u];
    assert s0 in UnionOf(mem, g);
    forall s | s in UnionOf(mem, g) ensures s in m0 && Mutual(e0, m0[s], u) {
      var x :| x in g && x in mem && s in mem[x];
      assert s in mem0[x];
    }
    forall s | s in m0 && Mutual(e0, m0[s], u) ensures s in UnionOf(mem, g) {
      var x := m0[s];
      assert Mutual(e0, u, x);
      assert x in g && s in mem[x];
    }
    assert CycleClass(m0, mem0, e0, u, UnionOf(mem, g));
  }

  /** Merging the next group keeps every issued set a whole cycle. */
  lemma FreshAfterMerge(groups: seq<set<Handle>>, i: int, gone: set<Handle>,
                        m: map<Scc, Handle>, mem: map<Handle, set<Scc>>, es: seq<Edge>, next: Handle,
                        m0: map<Scc, Handle>, mem0: map<Handle, set<Scc>>, e0: seq<Edge>, n0: Handle)
    requires 0 <= i < |groups| && |groups[i]| > 1
    requires AreCycleGroups(e0, mem0.Keys, groups)
    requires CollapseFrame(groups, i, gone, m, mem, es, next, m0, mem0, e0, n0) && FreshSets(mem, m0, mem0, e0, n0)
    ensures FreshSets(MergedMembers(mem, groups[i], next), m0, mem0, e0, n0)
  {
    MergedGroupIsCycle(groups, i, gone, m, mem, es, next, m0, mem0, e0, n0);
    var mem' := MergedMembers(mem, groups[i], next);
    forall h | h in mem' && h >= n0 ensures mem'[h] != {} && exists u :: CycleClass(m0, mem0, e0, u, mem'[h]) {
      if h != next {
        assert mem'[h] == mem[h];
      }
    }
  }

  /** After the last group, every live set is an original set on no cycle,
      unchanged, or a new set holding one whole cycle. */
  lemma CollapsedSetsDone(groups: seq<set<Handle>>, gone: set<Handle>,
                          m: map<Scc, Handle>, mem: map<Handle, set<Scc>>, es: seq<Edge>, next: Handle,
                          m0: map<Scc, Handle>, mem0: map<Handle, set<Scc>>, e0: seq<Edge>, n0: Handle)
    requires AreCycleGroups(e0, mem0.Keys, groups) && UnionAll(groups) == mem0.Keys
    requires CollapseFrame(groups, |groups|, gone, m, mem, es, next, m0, mem0, e0, n0) && FreshSets(mem, m0, mem0, e0, n0)
    ensures forall h :: h in mem ==> CollapsedSet(m0, mem0, e0, n0, h, mem[h])
  {
    forall h | h in mem && h < n0 ensures h in mem0 && OnNoCycle(e0, mem0.Keys, h) && mem[h] == mem0[h] {
      KeptOnNoCycle(e0, mem0.Keys, groups, h);
    }
  }

  /** Collapsing a graph with no cycle between two sets changes nothing. */
  lemma CollapseAcyclicNoop(groups: seq<set<Handle>>, gone: set<Handle>,
                            m: map<Scc, Handle>, mem: map<Handle, set<Scc>>, es: seq<Edge>, next: Handle,
                            m0: map<Scc, Handle>, mem0: map<Handle, set<Scc>>, e0: seq<Edge>, n0: Handle)
    requires AreCycleGroups(e0, mem0.Keys, groups) && NoCycleBetweenSets(e0, mem0.Keys)
    requires CollapseFrame(groups, |groups|, gone, m, mem, es, next, m0, mem0, e0, n0) && FreshSets(mem, m0, mem0, e0, n0)
    ensures m == m0 && mem == mem0 && es == e0
  {
    MergedGroupsWithin(groups, mem0.Keys, |groups|);
    forall x | x in mem0.Keys ensures x !in gone {
      GoneLayOnCycle(e0, mem0.Keys, groups, x);
    }
    assert gone == {};
    DropIncidentNothing(e0);
    assert mem.Keys == mem0.Keys;
    assert mem == mem0;
    forall s | s in m0 ensures s in m && m[s] == m0[s] {
      assert s in mem[m0[s]];
    }
    assert m == m0;
  }

  /** Every proper ancestor of an emitted set was emitted before it. */
  lemma {:induction false} EmittedAfterAncestors(es: seq<Edge>, out: seq<Handle>, i: nat, a: Handle)
    requires ParentsFirst(es, out) && i < |out|
    ensures ProperAncestor(es, a, out[i]) ==> a in out[..i]
    decreases i
  {
    if ProperAncestor(es, a, out[i]) {
      var c :| (a, c) in es && Reaches(es, c, out[i]);
      if c != out[i] {
        ReachesLastStep(es, c, out[i]);
        var y :| (y, out[i]) in es && Reaches(es, c, y);
        assert y in out[..i];
        var k :| 0 <= k < i && out[k] == y;
        EmittedAfterAncestors(es, out, k, a);
        assert out[..k] <= out[..i];
      }
    }
  }

  /** No emitted set lies on a cycle of the graph. */
  lemma {:induction false} EmittedNotOnCycle(es: seq<Edge>, out: seq<Handle>, i: nat)
    requires ParentsFirst(es, out) && i < |out|
    ensures !ProperAncestor(es, out[i], out[i])
    decreases i
  {
    EmittedAfterAncestors(es, out, i, out[i]);
    forall k | 0 <= k < i ensures !ProperAncestor(es, out[k], out[k]) {
      EmittedNotOnCycle(es, out, k);
    }
  }

  lemma AddPresent<T>(s: set<T>, x: T)
    requires x in s
    ensures s + {x} == s
  {
  }

  /** Emitting a set whose parents have all been emitted keeps parents first. */
  lemma EmitKeepsParentsFirst(es: seq<Edge>, out: seq<Handle>, x: Handle)
    requires ParentsFirst(es, out)
    ensures (forall p :: (p, x) in es ==> p in out) ==> ParentsFirst(es, out + [x])
  {
    var out' := out + [x];
    assert out'[..|out|] == out;
    forall i | 0 <= i < |out| ensures out'[..i] == out[..i] {
    }
  }

  /** Every parent of `x` has been emitted: the test the traversal makes before emitting `x`. */
  ghost predicate Ready(es: seq<Edge>, encountered: set<Handle>, x: Handle) {
    forall p :: (p, x) in es ==> p in encountered
  }

  /** Every set of `nodes` not emitted yet whose parents all are is waiting in the queue. */
  ghost predicate ReadyQueued(es: seq<Edge>, nodes: set<Handle>, encountered: set<Handle>, queue: seq<Handle>) {
    forall x {:trigger Ready(es, encountered, x)} :: x in nodes && x !in encountered && Ready(es, encountered, x) ==> x in queue
  }

  /** Dropping a head that is not ready loses no ready set. */
  lemma ReadyAfterSkip(es: seq<Edge>, nodes: set<Handle>, encountered: set<Handle>, q0: seq<Handle>)
    requires q0 != [] && ReadyQueued(es, nodes, encountered, q0) && !Ready(es, encountered, q0[0])
    ensures ReadyQueued(es, nodes, encountered, q0[1..])
  {
    forall x | x in nodes && x !in encountered && Ready(es, encountered, x) ensures x in q0[1..] {
      var i :| 0 <= i < |q0| && q0[i] == x;
      assert q0[1..][i - 1] == x;
    }
  }

  /** Emitting the head and enqueueing its children not yet encountered loses
      no ready set: a set that becomes ready now is a child of the head. */
  lemma ReadyAfterEmit(es: seq<Edge>, nodes: set<Handle>, encountered: set<Handle>, q0: seq<Handle>, children: seq<Handle>)
    requires q0 != [] && ReadyQueued(es, nodes, encountered, q0)
    requires forall c :: c in children <==> (q0[0], c) in es
    ensures ReadyQueued(es, nodes, encountered + {q0[0]}, q0[1..] + Unencountered(children, encountered + {q0[0]}))
  {
    var enc := encountered + {q0[0]};
    var q := q0[1..] + Unencountered(children, enc);
    forall x | x in nodes && x !in enc && Ready(es, enc, x) ensures x in q {
      if Ready(es, encountered, x) {
        var i :| 0 <= i < |q0| && q0[i] == x;
        assert q[i - 1] == x;
      } else {
        var p :| (p, x) in es && p !in encountered;
        assert x in children;
      }
    }
  }

  /** On a ranked graph whose traversal queue ran dry, every set not emitted
      has a rank of at least `n`, for every `n`: each has a parent not emitted,
      of smaller rank. */
  lemma {:induction false} RankAtLeast(es: seq<Edge>, rank: map<Handle, nat>, nodes: set<Handle>,
                                       encountered: set<Handle>, n: nat)
    requires IsTopologicalRank(es, rank)
    requires forall e :: e in es ==> e.0 in nodes
    requires ReadyQueued(es, nodes, encountered, [])
    ensures forall x :: x in nodes && x !in encountered ==> x in rank && rank[x] >= n
  {
    if n > 0 {
      RankAtLeast(es, rank, nodes, encountered, n - 1);
    }
    forall x | x in nodes && x !in encountered ensures x in rank && rank[x] >= n {
      assert !Ready(es, encountered, x);
      var p :| (p, x) in es && p !in encountered;
    }
  }

  /** When the queue runs dry on a ranked graph, every set has been emitted:
      a set left out would have a parent left out, of smaller rank, and so on
      without end. */
  lemma AllEmitted(es: seq<Edge>, nodes: set<Handle>, encountered: set<Handle>, rank: map<Handle, nat>)
    requires IsTopologicalRank(es, rank)
    requires forall e :: e in es ==> e.0 in nodes
    requires ReadyQueued(es, nodes, encountered, [])
    ensures nodes <= encountered
  {
    if x :| x in nodes && x !in encountered {
      assert !Ready(es, encountered, x);
      var p :| (p, x) in es && p !in encountered;
      RankAtLeast(es, rank, nodes, encountered, rank[x] + 1);
      assert false;
    }
  }

  /** The proper ancestors of `h` among `nodes`. */
  ghost function AncestorsOf(es: seq<Edge>, nodes: set<Handle>, h: Handle): set<Handle> {
    set a | a in nodes && ProperAncestor(es, a, h)
  }

  /** Along an edge between two distinct sets of a graph with no cycle
      between sets, the child has strictly more proper ancestors than the
      parent: all of the parent's, and the parent itself, which is not its own
      proper ancestor. */
  lemma AncestorsGrow(es: seq<Edge>, nodes: set<Handle>, u: Handle, v: Handle)
    requires NoCycleBetweenSets(es, nodes)
    requires forall e :: e in es ==> e.0 in nodes && e.1 in nodes && e.0 != e.1
    requires (u, v) in es
    ensures AncestorsOf(es, nodes, u) < AncestorsOf(es, nodes, v)
  {
    var au, av := AncestorsOf(es, nodes, u), AncestorsOf(es, nodes, v);
    forall a | a in au ensures a in av {
      var c :| (a, c) in es && Reaches(es, c, u);
      ReachesStep(es, c, u, v);
    }
    ReachesRefl(es, v);
    assert u in av;
    forall c | (u, c) in es ensures !Reaches(es, c, u) {
      assert IsPath(es, [u, c]);
      assert Reaches(es, u, c);
    }
    assert u !in au;
  }

  /** A graph whose edges join two distinct sets of `nodes`, with no cycle
      between two sets, has a topological rank: the number of proper
      ancestors. Self-edges, which the constructor can add, must be excluded,
      since a set with one is its own parent. */
  lemma AcyclicHasRank(es: seq<Edge>, nodes: set<Handle>)
    requires NoCycleBetweenSets(es, nodes)
    requires forall e :: e in es ==> e.0 in nodes && e.1 in nodes && e.0 != e.1
    ensures exists rank :: IsTopologicalRank(es, rank) && nodes <= rank.Keys
  {
    var rank := map h | h in nodes :: |AncestorsOf(es, nodes, h)|;
    forall e | e in es ensures e.0 in rank && e.1 in rank && rank[e.0] < rank[e.1] {
      AncestorsGrow(es, nodes, e.0, e.1);
      SubsetSmaller(AncestorsOf(es, nodes, e.0), AncestorsOf(es, nodes, e.1));
    }
    assert IsTopologicalRank(es, rank) && nodes <= rank.Keys;
  }

  /** The weight of the traversal queue: a set already emitted weighs `big`,
      any other set weighs one. */
  ghost function QueueWeight(q: seq<Handle>, encountered: set<Handle>, big: nat): nat {
    if q == [] then 0 else (if q[0] in encountered then big else 1) + QueueWeight(q[1..], encountered, big)
  }

  lemma {:induction false} QueueWeightAppend(q: seq<Handle>, x: Handle, encountered: set<Handle>, big: nat)
    ensures QueueWeight(q + [x], encountered, big) == QueueWeight(q, encountered, big) + (if x in encountered then big else 1)
  {
    if q == [] {
      assert [] + [x] == [x];
    } else {
      assert (q + [x])[1..] == q[1..] + [x];
      QueueWeightAppend(q[1..], x, encountered, big);
    }
  }

  /** The traversal's first loop: the roots, in some order, as the initial queue. */
  method EnqueueAll(roots: set<Handle>) returns (queue: seq<Handle>)
    ensures forall x :: x in queue <==> x in roots
    ensures NoDuplicates(queue) && |queue| == |roots|
  {
    queue := [];
    var pending := roots;
    while pending != {}
      invariant pending <= roots
      invariant forall x :: x in queue <==> x in roots - pending
      invariant NoDuplicates(queue) && |queue| + |pending| == |roots|
    {
      var root :| root in pending;
      pending := pending - {root};
      queue := queue + [root];
    }
  }

  /** Whether every one of `parents` has been encountered (the `&=` loop). */
  method AllEncountered(parents: seq<Handle>, encountered: set<Handle>) returns (all: bool)
    ensures all <==> forall p :: p in parents ==> p in encountered
  {
    all := true;
    var j := 0;
    while j < |parents|
      invariant 0 <= j <= |parents|
      invariant all <==> forall k :: 0 <= k < j ==> parents[k] in encountered
    {
      all := all && parents[j] in encountered;
      j := j + 1;
    }
  }

  /** The traversal's last loop: enqueue the children not yet encountered.
      The queue's weight grows by at most one per child. */
  method EnqueueChildren(queue0: seq<Handle>, children: seq<Handle>, encountered: set<Handle>, ghost big: nat)
      returns (queue: seq<Handle>)
    ensures queue == queue0 + Unencountered(children, encountered)
    ensures QueueWeight(queue, encountered, big) <= QueueWeight(queue0, encountered, big) + |children|
  {
    queue := queue0;
    var j := 0;
    while j < |children|
      invariant 0 <= j <= |children|
      invariant queue == queue0 + Unencountered(children[..j], encountered)
      invariant QueueWeight(queue, encountered, big) <= QueueWeight(queue0, encountered, big) + j
    {
      var child := children[j];
      EnqueueStep(queue0, queue, children, j, encountered, big);
      if child !in encountered {
        queue := queue + [child];
      }
      j := j + 1;
    }
    assert children[..j] == children;
  }

  /** One step of `EnqueueChildren`: `children[j]` is appended when it is not
      yet encountered, and the weight grows by at most one. */
  lemma EnqueueStep(queue0: seq<Handle>, queue: seq<Handle>, children: seq<Handle>, j: int, encountered: set<Handle>, big: nat)
    requires 0 <= j < |children|
    requires queue == queue0 + Unencountered(children[..j], encountered)
    requires QueueWeight(queue, encountered, big) <= QueueWeight(queue0, encountered, big) + j
    ensures var next := if children[j] in encountered then queue else queue + [children[j]];
            && next == queue0 + Unencountered(children[..j + 1], encountered)
            && QueueWeight(next, encountered, big) <= QueueWeight(queue0, encountered, big) + j + 1
  {
    var child := children[j];
    assert children[..j + 1] == children[..j] + [child];
    UnencounteredAppend(children[..j], child, encountered);
    if child !in encountered {
      QueueWeightAppend(queue, child, encountered, big);
      assert queue + [child] == queue0 + (Unencountered(children[..j], encountered) + [child]);
    }
  }

  /** The members of `xs` outside `encountered`, in order. */
  function Unencountered(xs: seq<Handle>, encountered: set<Handle>): (r: seq<Handle>)
    ensures forall x :: x in r <==> x in xs && x !in encountered
  {
    if xs == [] then []
    else
      assert xs == xs[..|xs| - 1] + [xs[|xs| - 1]];
      Unencountered(xs[..|xs| - 1], encountered) + (if xs[|xs| - 1] in encountered then [] else [xs[|xs| - 1]])
  }

  lemma UnencounteredAppend(xs: seq<Handle>, x: Handle, encountered: set<Handle>)
    ensures Unencountered(xs + [x], encountered) == Unencountered(xs, encountered) + (if x in encountered then [] else [x])
  {
    assert (xs + [x])[..|xs|] == xs;
  }

  datatype DepthOrderError =
    | NoRootNodes                        // no set without parents
    | CountMismatch(emitted: seq<Handle>) // the traversal did not emit exactly one entry per set

  /** The sets a depth-order traversal emitted, whether or not its count check passed. */
  function Emitted(r: Result<seq<Handle>, DepthOrderError>): seq<Handle> {
    match r
    case Success(out) => out
    case Failure(CountMismatch(out)) => out
    case Failure(NoRootNodes) => []
  }

  /** The SCC of `v`, if it has one, under the value-to-SCC map `sccOfValue`. */
  function SccOf(sccOfValue: map<Value, Scc>, v: Value): (r: Option<Scc>)
    ensures r.Some? <==> v in sccOfValue
    ensures r.Some? ==> r.value == sccOfValue[v]
  {
    if v in sccOfValue then Some(sccOfValue[v]) else None
  }

  class Partition {
    /** The dependence graph's value-to-SCC resolution; a value without an SCC is absent. */
    const sccOfValue: map<Value, Scc>
    /** The set each tracked SCC belongs to. */
    var sccToSet: map<Scc, Handle>
    /** The live sets (the graph's nodes) and the SCCs each one holds. */
    var members: map<Handle, set<Scc>>
    /** The graph's edges (parent set, child set), in insertion order. */
    var edges: seq<Edge>
    /** The handle the next `new SCCSet()` receives; handles are never reused. */
    var nextHandle: Handle

    ghost predicate Valid()
      reads this
    {
      WellFormed(sccToSet, members, edges, nextHandle)
    }

    /** One node per initial set, every SCC mapped to its set, then one edge per
        ordered pair of sets that some tracked parent/child pair connects. */
    constructor (sccOfValue: map<Value, Scc>, initialSets: seq<set<Scc>>, sccToParents: seq<(Scc, seq<Scc>)>)
      requires forall i, j :: 0 <= i < j < |initialSets| ==> initialSets[i] !! initialSets[j]
      ensures Valid()
      ensures this.sccOfValue == sccOfValue
      ensures nextHandle == |initialSets|
      ensures forall h: Handle :: h in members <==> h < |initialSets|
      ensures forall i :: 0 <= i < |initialSets| ==> members[i] == initialSets[i]
      ensures sccToSet.Keys == UnionAll(initialSets)
      ensures forall e :: e in edges ==> IsWantedEdge(sccToSet, sccToParents, |sccToParents|, e)
      ensures forall k, p :: 0 <= k < |sccToParents| && p in sccToParents[k].1 && sccToParents[k].0 in sccToSet && p in sccToSet
                 ==> (sccToSet[p], sccToSet[sccToParents[k].0]) in edges
    {
      this.sccOfValue := sccOfValue;
      sccToSet := map[];
      members := map[];
      edges := [];
      nextHandle := 0;
      new;
      AddInitialSets(initialSets);
      AddDependenceEdges(sccToParents);
    }

    /** The constructor's first loop: one new node per initial set, and each of
        its SCCs mapped to it. */
    method AddInitialSets(initialSets: seq<set<Scc>>)
      requires forall i, j :: 0 <= i < j < |initialSets| ==> initialSets[i] !! initialSets[j]
      requires sccToSet == map[] && members == map[] && edges == [] && nextHandle == 0
      modifies `sccToSet, `members, `nextHandle
      ensures Valid() && edges == []
      ensures nextHandle == |initialSets|
      ensures forall h: Handle :: h in members <==> h < |initialSets|
      ensures forall i :: 0 <= i < |initialSets| ==> members[i] == initialSets[i]
      ensures sccToSet.Keys == UnionAll(initialSets)
    {
      var i := 0;
      assert initialSets[..0] == [];
      while i < |initialSets|
        invariant nextHandle == i
        invariant InitialState(sccToSet, members, initialSets, i)
      {
        InitialStep(sccToSet, members, initialSets, i);
        var newSet := nextHandle;
        nextHandle := nextHandle + 1;
        members := members[newSet := initialSets[i]];
        // insert() keeps an existing entry; with disjoint initial sets there is none
        sccToSet := InsertAll(sccToSet, initialSets[i], newSet);
        i := i + 1;
      }
      InitialDone(sccToSet, members, initialSets);
    }

    /** The constructor's second loop: for each tracked SCC and each tracked
        parent of it, an edge from the parent's set to the SCC's set unless that
        edge is already present. */
    method AddDependenceEdges(sccToParents: seq<(Scc, seq<Scc>)>)
      requires Valid() && edges == []
      modifies `edges
      ensures Valid()
      ensures forall e :: e in edges ==> IsWantedEdge(sccToSet, sccToParents, |sccToParents|, e)
      ensures forall k, p :: 0 <= k < |sccToParents| && p in sccToParents[k].1 && sccToParents[k].0 in sccToSet && p in sccToSet
                 ==> (sccToSet[p], sccToSet[sccToParents[k].0]) in edges
    {
      var k := 0;
      while k < |sccToParents|
        invariant 0 <= k <= |sccToParents|
        invariant Valid()
        invariant forall e :: e in edges ==> IsWantedEdge(sccToSet, sccToParents, k, e)
        invariant forall k', p :: 0 <= k' < k && p in sccToParents[k'].1 && sccToParents[k'].0 in sccToSet && p in sccToSet
                    ==> (sccToSet[p], sccToSet[sccToParents[k'].0]) in edges
      {
        var (scc, parents) := sccToParents[k];
        if scc in sccToSet {
          AddParentEdges(parents, sccToSet[scc], sccToParents, k);
        }
        k := k + 1;
      }
    }

    /** The constructor's innermost loop, for one SCC `sccToParents[k].0` whose set is `selfSet`. */
    method AddParentEdges(parents: seq<Scc>, selfSet: Handle, ghost sccToParents: seq<(Scc, seq<Scc>)>, ghost k: nat)
      requires Valid() && k < |sccToParents| && sccToParents[k].1 == parents
      requires sccToParents[k].0 in sccToSet && sccToSet[sccToParents[k].0] == selfSet
      requires forall e :: e in edges ==> IsWantedEdge(sccToSet, sccToParents, k, e)
      modifies `edges
      ensures Valid()
      ensures forall e :: e in old(edges) ==> e in edges
      ensures forall e :: e in edges ==> IsWantedEdge(sccToSet, sccToParents, k + 1, e)
      ensures forall p :: p in parents && p in sccToSet ==> (sccToSet[p], selfSet) in edges
    {
      var j := 0;
      while j < |parents|
        invariant 0 <= j <= |parents|
        invariant Valid()
        invariant forall e :: e in old(edges) ==> e in edges
        invariant forall e :: e in edges ==> IsWantedEdge(sccToSet, sccToParents, k + 1, e)
        invariant forall j' :: 0 <= j' < j && parents[j'] in sccToSet ==> (sccToSet[parents[j']], selfSet) in edges
      {
        var parent := parents[j];
        if parent in sccToSet {
          var parentSet := sccToSet[parent];
          if (parentSet, selfSet) !in edges {
            assert IsWantedEdge(sccToSet, sccToParents, k + 1, (parentSet, selfSet)) by {
              assert 0 <= k < k + 1 && parent in sccToParents[k].1;
            }
            edges := edges + [(parentSet, selfSet)];
          }
        }
        j := j + 1;
      }
    }

    /** Whether `scc` is tracked: it belongs to one of the sets. */
    function IsIncludedInPartitioning(scc: Scc): (r: bool)
      reads this
      requires Valid()
      ensures r <==> exists h :: h in members && scc in members[h]
    {
      scc in sccToSet
    }

    /** The one set that holds a tracked SCC; `None` stands for the failed
        assertion when the SCC is not tracked. */
    function SetOfScc(scc: Scc): (r: Option<Handle>)
      reads this
      requires Valid()
      ensures r.Some? <==> IsIncludedInPartitioning(scc)
      ensures r.Some? ==> r.value in members && scc in members[r.value]
      ensures r.Some? ==> forall h :: h in members && scc in members[h] ==> h == r.value
    {
      if IsIncludedInPartitioning(scc) then Some(sccToSet[scc]) else None
    }

    /** The SCC a value belongs to, if any (delegated to the dependence graph). */
    function SccOfValue(v: Value): (r: Option<Scc>)
      reads this
      ensures r.Some? <==> v in sccOfValue
      ensures r.Some? ==> r.value == sccOfValue[v]
    {
      SccOf(sccOfValue, v)
    }

    /** The number of sets (nodes). */
    function NumNodes(): (n: nat)
      reads this
      ensures n == |members.Keys|
    {
      |members|
    }

    /** The sets without an incoming edge. */
    function TopLevelNodes(): (r: set<Handle>)
      reads this
      ensures forall h :: h in r <==> h in members && forall p :: (p, h) !in edges
    {
      set h | h in members && forall e :: e in edges ==> e.1 != h
    }

    /** Merges `sets` into one new set: every SCC of a merged set now maps to
        the new set, the old sets and every edge touching them are gone. The
        edge-transfer loop re-adds nothing, because the edge it checks for is
        always the one being visited, so the new set starts without edges. */
    method MergeSets(sets: set<Handle>)
      requires Valid() && sets <= members.Keys
      modifies this
      ensures Valid()
      ensures nextHandle == old(nextHandle) + 1
      ensures members == MergedMembers(old(members), sets, old(nextHandle))
      ensures sccToSet == MergedMap(old(sccToSet), sets, old(nextHandle))
      ensures edges == DropIncident(old(edges), sets)
    {
      MergeKeepsWellFormed(sccToSet, members, edges, nextHandle, sets);
      var mergedSet := nextHandle;
      nextHandle := nextHandle + 1;
      MergeInto(sets, mergedSet);
    }

    /** The body of `MergeSets` once the new set's handle `mergedSet` is drawn. */
    method MergeInto(sets: set<Handle>, mergedSet: Handle)
      requires WellFormed(sccToSet, members, edges, mergedSet) && sets <= members.Keys
      modifies `sccToSet, `members, `edges
      ensures members == MergedMembers(old(members), sets, mergedSet)
      ensures sccToSet == MergedMap(old(sccToSet), sets, mergedSet)
      ensures edges == DropIncident(old(edges), sets)
    {
      ghost var mem0 := members;
      var mergedSccs := RemapToMergedSet(sets, mergedSet);
      members := members[mergedSet := mergedSccs];
      RemapKeepsEndsTracked(old(sccToSet), mem0, edges, mergedSet, sets, mergedSccs);
      TransferEdges(sets, mergedSet);
      RemoveMergedNodes(sets);
      assert mergedSet !in sets;
      MergedMembersByRemoval(mem0, sets, mergedSet);
    }

    /** Merges every group of two or more mutually reachable sets into one set,
        so that the graph is a DAG again. */
    method CollapseCycles()
      requires Valid()
      modifies this
      ensures Valid()
      ensures KeepsTogether(old(sccToSet), sccToSet)
      ensures JoinsCycles(old(sccToSet), old(edges), sccToSet)
      ensures NoCycleBetweenSets(edges, members.Keys)
      ensures forall e :: e in edges ==> e in old(edges)
      ensures forall h :: h in old(members) && OnNoCycle(old(edges), old(members).Keys, h) ==> h in members && members[h] == old(members)[h]
      ensures forall h :: h in members ==> CollapsedSet(old(sccToSet), old(members), old(edges), old(nextHandle), h, members[h])
      ensures NoCycleBetweenSets(old(edges), old(members).Keys) ==>
                sccToSet == old(sccToSet) && members == old(members) && edges == old(edges)
    {
      ghost var m0, mem0, e0, n0 := sccToSet, members, edges, nextHandle;
      var groups := CycleGroups(members.Keys, edges);
      ghost var gone: set<Handle> := {};
      CollapseStart(groups, m0, mem0, e0, n0);
      var i := 0;
      while i < |groups|
        invariant CollapsedUpTo(groups, i, gone, sccToSet, members, edges, nextHandle, m0, mem0, e0, n0)
        invariant FreshSets(members, m0, mem0, e0, n0)
      {
        gone := CollapseGroup(groups, i, gone, m0, mem0, e0, n0);
        i := i + 1;
      }
      CollapseDone(groups, gone, sccToSet, members, edges, nextHandle, m0, mem0, e0, n0);
      CollapsedSetsDone(groups, gone, sccToSet, members, edges, nextHandle, m0, mem0, e0, n0);
      if NoCycleBetweenSets(e0, mem0.Keys) {
        CollapseAcyclicNoop(groups, gone, sccToSet, members, edges, nextHandle, m0, mem0, e0, n0);
      }
    }

    /** One iteration of the collapse loop: merge `groups[i]` when it has two or more sets. */
    method CollapseGroup(groups: seq<set<Handle>>, i: nat, ghost gone: set<Handle>,
                         ghost m0: map<Scc, Handle>, ghost mem0: map<Handle, set<Scc>>, ghost e0: seq<Edge>, ghost n0: Handle)
        returns (ghost gone': set<Handle>)
      requires i < |groups| && CollapsedUpTo(groups, i, gone, sccToSet, members, edges, nextHandle, m0, mem0, e0, n0)
      requires AreCycleGroups(e0, mem0.Keys, groups) && FreshSets(members, m0, mem0, e0, n0)
      modifies this
      ensures CollapsedUpTo(groups, i + 1, gone', sccToSet, members, edges, nextHandle, m0, mem0, e0, n0)
      ensures FreshSets(members, m0, mem0, e0, n0)
    {
      if |groups[i]| > 1 {
        CollapseMergeStep(groups, i, gone, sccToSet, members, edges, nextHandle, m0, mem0, e0, n0);
        FreshAfterMerge(groups, i, gone, sccToSet, members, edges, nextHandle, m0, mem0, e0, n0);
        MergeSets(groups[i]);
        gone' := gone + groups[i];
      } else {
        CollapseSkipStep(groups, i, gone, sccToSet, members, edges, nextHandle, m0, mem0, e0, n0);
        gone' := gone;
      }
    }

    /** The first loop of `MergeSets`: collect the SCCs of `sets` and point each
        of them at `mergedSet`. */
    method RemapToMergedSet(sets: set<Handle>, mergedSet: Handle) returns (mergedSccs: set<Scc>)
      requires sets <= members.Keys
      requires forall h, s :: h in members && s in members[h] ==> s in sccToSet && sccToSet[s] == h
      requires forall s :: s in sccToSet ==> sccToSet[s] in members && s in members[sccToSet[s]]
      modifies `sccToSet
      ensures mergedSccs == UnionOf(members, sets)
      ensures sccToSet == MergedMap(old(sccToSet), sets, mergedSet)
    {
      ghost var map0 := sccToSet;
      mergedSccs := {};
      var todo := sets;
      while todo != {}
        invariant todo <= sets
        invariant mergedSccs == UnionOf(members, sets - todo)
        invariant sccToSet == MergedMap(map0, sets - todo, mergedSet)
      {
        var oldSet :| oldSet in todo;
        ghost var done := sets - todo;
        todo := todo - {oldSet};
        assert sets - todo == done + {oldSet};
        mergedSccs := mergedSccs + members[oldSet];
        RemapStep(map0, members, done, oldSet, mergedSet);
        sccToSet := Overwrite(sccToSet, members[oldSet], mergedSet);
      }
    }

    /** The second loop of `MergeSets`, which changes nothing: see `TransferIncoming`. */
    method TransferEdges(sets: set<Handle>, mergedSet: Handle)
      requires EndsTracked(sccToSet, members, edges)
    {
      var todo := sets;
      while todo != {}
        invariant todo <= sets
      {
        var oldSet :| oldSet in todo;
        todo := todo - {oldSet};
        TransferIncoming(oldSet, mergedSet);
        TransferOutgoing(oldSet, mergedSet);
      }
    }

    /** The third loop of `MergeSets`: remove the merged sets' nodes. */
    method RemoveMergedNodes(sets: set<Handle>)
      modifies `members, `edges
      ensures members == old(members) - sets
      ensures edges == DropIncident(old(edges), sets)
    {
      ghost var mem0, edges0 := members, edges;
      var todo := sets;
      assert sets - todo == {};
      DropIncidentNothing(edges0);
      while todo != {}
        invariant todo <= sets
        invariant members == mem0 - (sets - todo)
        invariant edges == DropIncident(edges0, sets - todo)
      {
        var oldSet :| oldSet in todo;
        ghost var done := sets - todo;
        todo := todo - {oldSet};
        DropIncidentTwice(edges0, done, {oldSet});
        assert done + {oldSet} == sets - todo;
        RemoveNode(oldSet);
      }
      assert sets - todo == sets;
    }

    /** The transfer of the incoming edges of `set` to `mergedSet`: each is
        either between two merged sets or already present, so none is added. */
    method TransferIncoming(oldSet: Handle, mergedSet: Handle)
      requires EndsTracked(sccToSet, members, edges)
    {
      var parents := IncomingOf(edges, oldSet);
      var j := 0;
      while j < |parents| {
        var parentSet := parents[j];
        assert parentSet in parents;
        j := j + 1;
        var anySccInParentSet :| anySccInParentSet in members[parentSet];
        if sccToSet[anySccInParentSet] == mergedSet {
          continue;
        }
        if (parentSet, oldSet) in edges {
          continue;
        }
        // the edge (parentSet, oldSet) is the one being visited
        assert false;
      }
    }

    /** The transfer of the outgoing edges of `set`, symmetric to `TransferIncoming`. */
    method TransferOutgoing(oldSet: Handle, mergedSet: Handle)
      requires EndsTracked(sccToSet, members, edges)
    {
      var children := OutgoingOf(edges, oldSet);
      var j := 0;
      while j < |children| {
        var childSet := children[j];
        assert childSet in children;
        j := j + 1;
        var anySccInChildSet :| anySccInChildSet in members[childSet];
        if sccToSet[anySccInChildSet] == mergedSet {
          continue;
        }
        if (oldSet, childSet) in edges {
          continue;
        }
        // the edge (oldSet, childSet) is the one being visited
        assert false;
      }
    }

    /** Merges `sets`, then collapses any cycle that the merge produced. */
    method MergeSetsAndCollapseResultingCycles(sets: set<Handle>)
      requires Valid() && sets <= members.Keys
      modifies this
      ensures Valid()
      ensures KeepsTogether(old(sccToSet), sccToSet)
      ensures forall a, b :: a in old(sccToSet) && b in old(sccToSet) && old(sccToSet)[a] in sets && old(sccToSet)[b] in sets
                ==> sccToSet[a] == sccToSet[b]
      ensures JoinsCycles(MergedMap(old(sccToSet), sets, old(nextHandle)), DropIncident(old(edges), sets), sccToSet)
      ensures NoCycleBetweenSets(old(edges), old(members).Keys) ==> JoinsSets(old(sccToSet), sets, sccToSet)
      ensures NoCycleBetweenSets(edges, members.Keys)
      ensures forall e :: e in edges ==> e in old(edges)
      ensures forall h :: h in members ==>
                CollapsedSet(MergedMap(old(sccToSet), sets, old(nextHandle)), MergedMembers(old(members), sets, old(nextHandle)),
                             DropIncident(old(edges), sets), old(nextHandle) + 1, h, members[h])
      ensures NoCycleBetweenSets(old(edges), old(members).Keys) ==>
                && sccToSet == MergedMap(old(sccToSet), sets, old(nextHandle))
                && members == MergedMembers(old(members), sets, old(nextHandle))
                && edges == DropIncident(old(edges), sets)
    {
      ghost var m0, mem0, e0, n0 := sccToSet, members, edges, nextHandle;
      MergeSets(sets);
      if NoCycleBetweenSets(e0, mem0.Keys) {
        MergeKeepsNoCycle(m0, mem0, e0, n0, sets);
      }
      CollapseCycles();
      if NoCycleBetweenSets(e0, mem0.Keys) {
        CollapseAfterAcyclicMerge(m0, mem0, e0, n0, sets, sccToSet);
      }
    }

    /** A breadth-first traversal from the root sets that emits a set once all
        of its parents have been emitted. A set is enqueued once per emitted
        parent, so it can be emitted more than once; the final count check
        reports any traversal that did not emit exactly one entry per set. */
    method GetDepthOrderedSets() returns (r: Result<seq<Handle>, DepthOrderError>)
      requires Valid()
      ensures r == Failure(NoRootNodes) <==> TopLevelNodes() == {}
      ensures r.Success? ==> |r.value| == |members|
      ensures r.Failure? && r.error.CountMismatch? ==> |r.error.emitted| != |members|
      ensures ParentsFirst(edges, Emitted(r)) && forall x :: x in Emitted(r) ==> x in members
      ensures forall i :: 0 <= i < |Emitted(r)| ==> !ProperAncestor(edges, Emitted(r)[i], Emitted(r)[i])
      ensures (exists rank :: IsTopologicalRank(edges, rank)) ==> forall h :: h in members ==> h in Emitted(r)
    {
      var roots := TopLevelNodes();
      if roots == {} {
        if rank :| IsTopologicalRank(edges, rank) {
          assert ReadyQueued(edges, members.Keys, {}, []);
          AllEmitted(edges, members.Keys, {}, rank);
        }
        return Failure(NoRootNodes);
      }
      var queue := EnqueueAll(roots);
      var out: seq<Handle> := [];
      var encountered: set<Handle> := {};
      ghost var big := |edges| + 1;
      while queue != []
        invariant forall x :: x in queue ==> x in members
        invariant forall x :: x in encountered <==> x in out
        invariant encountered <= members.Keys
        invariant ParentsFirst(edges, out)
        invariant ReadyQueued(edges, members.Keys, encountered, queue)
        decreases |members.Keys - encountered|, QueueWeight(queue, encountered, big)
      {
        ghost var q0 := queue;
        var current := queue[0];
        queue := queue[1..];
        var parents := IncomingOf(edges, current);
        if |parents| > 0 {
          var parentsEncountered := AllEncountered(parents, encountered);
          if !parentsEncountered {
            ReadyAfterSkip(edges, members.Keys, encountered, q0);
            continue;
          }
        }
        ghost var before := encountered;
        EmitKeepsParentsFirst(edges, out, current);
        encountered := encountered + {current};
        out := out + [current];
        if current !in before {
          SubsetSmaller(members.Keys - encountered, members.Keys - before);
        }
        var children := OutgoingOf(edges, current);
        assert forall c :: c in children ==> c in members;
        ReadyAfterEmit(edges, members.Keys, before, q0, children);
        ghost var w := QueueWeight(queue, encountered, big);
        queue := EnqueueChildren(queue, children, encountered, big);
        if current in before {
          AddPresent(before, current);
          assert QueueWeight(q0, encountered, big) == big + w;
          assert QueueWeight(queue, encountered, big) <= w + |children| < w + big;
        }
      }
      forall i | 0 <= i < |out| ensures !ProperAncestor(edges, out[i], out[i]) {
        EmittedNotOnCycle(edges, out, i);
      }
      if rank :| IsTopologicalRank(edges, rank) {
        AllEmitted(edges, members.Keys, encountered, rank);
      }
      if |out| != |members| {
        return Failure(CountMismatch(out));
      }
      return Success(out);
    }

    /** Graph primitive: drop a node and every edge that touches it. */
    method RemoveNode(node: Handle)
      modifies `members, `edges
      ensures members == old(members) - {node}
      ensures edges == DropIncident(old(edges), {node})
    {
      members := members - {node};
      edges := DropIncident(edges, {node});
    }
  }
}

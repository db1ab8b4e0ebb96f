/** The directed graph over SCC sets: edges, paths and reachability, and the
    strongly-connected-group computation that the cycle collapse relies on. */
module SetGraph {

  /** A handle names one SCC set, and so one node of the partition graph. */
  type Handle = nat

  /** An edge (parent, child): the child set depends on the parent set. */
  type Edge = (Handle, Handle)

  predicate NoDuplicates<T(==)>(s: seq<T>) {
    forall i, j :: 0 <= i < j < |s| ==> s[i] != s[j]
  }

  /** The parents of `h`, one per incoming edge, in edge order. */
  function IncomingOf(es: seq<Edge>, h: Handle): (r: seq<Handle>)
    ensures |r| <= |es|
    ensures forall p :: p in r <==> (p, h) in es
  {
    if es == [] then []
    else (if es[0].1 == h then [es[0].0] else []) + IncomingOf(es[1..], h)
  }

  /** The children of `h`, one per outgoing edge, in edge order. */
  function OutgoingOf(es: seq<Edge>, h: Handle): (r: seq<Handle>)
    ensures |r| <= |es|
    ensures forall c :: c in r <==> (h, c) in es
  {
    if es == [] then []
    else (if es[0].0 == h then [es[0].1] else []) + OutgoingOf(es[1..], h)
  }

  /** The edges that touch none of the nodes in `gone`, in their original order:
      what is left of the edge list after those nodes are removed. */
  function DropIncident(es: seq<Edge>, gone: set<Handle>): (r: seq<Edge>)
    ensures |r| <= |es|
    ensures forall e :: e in r <==> e in es && e.0 !in gone && e.1 !in gone
  {
    if es == [] then []
    else (if es[0].0 !in gone && es[0].1 !in gone then [es[0]] else []) + DropIncident(es[1..], gone)
  }

  lemma {:induction false} DropIncidentKeepsDistinct(es: seq<Edge>, gone: set<Handle>)
    requires NoDuplicates(es)
    ensures NoDuplicates(DropIncident(es, gone))
  {
    if es != [] {
      assert NoDuplicates(es[1..]) by {
        forall i, j | 0 <= i < j < |es[1..]| ensures es[1..][i] != es[1..][j] {
          assert es[1..][i] == es[i + 1] && es[1..][j] == es[j + 1];
        }
      }
      DropIncidentKeepsDistinct(es[1..], gone);
      var rest := DropIncident(es[1..], gone);
      assert es[0] !in es[1..];
      assert es[0] !in rest;
    }
  }

  lemma {:induction false} DropIncidentNothing(es: seq<Edge>)
    ensures DropIncident(es, {}) == es
  {
    if es != [] {
      DropIncidentNothing(es[1..]);
    }
  }

  /** Removing one group of nodes and then another leaves the same edges as
      removing both groups at once. */
  lemma {:induction false} DropIncidentTwice(es: seq<Edge>, a: set<Handle>, b: set<Handle>)
    ensures DropIncident(DropIncident(es, a), b) == DropIncident(es, a + b)
  {
    if es != [] {
      DropIncidentTwice(es[1..], a, b);
      var head := if es[0].0 !in a && es[0].1 !in a then [es[0]] else [];
      assert DropIncident(es, a) == head + DropIncident(es[1..], a);
      DropIncidentAppend(head, DropIncident(es[1..], a), b);
    }
  }

  lemma {:induction false} DropIncidentAppend(xs: seq<Edge>, ys: seq<Edge>, gone: set<Handle>)
    ensures DropIncident(xs + ys, gone) == DropIncident(xs, gone) + DropIncident(ys, gone)
  {
    if xs == [] {
      assert xs + ys == ys;
    } else {
      assert (xs + ys)[1..] == xs[1..] + ys;
      DropIncidentAppend(xs[1..], ys, gone);
    }
  }

  /** The edges with their direction reversed. */
  function Reverse(es: seq<Edge>): (r: seq<Edge>)
    ensures |r| == |es|
    ensures forall i :: 0 <= i < |es| ==> r[i] == (es[i].1, es[i].0)
  {
    seq(|es|, i requires 0 <= i < |es| => (es[i].1, es[i].0))
  }

  lemma ReverseMembership(es: seq<Edge>, u: Handle, v: Handle)
    ensures (u, v) in Reverse(es) <==> (v, u) in es
  {
    var r := Reverse(es);
    if (u, v) in r {
      var i :| 0 <= i < |r| && r[i] == (u, v);
      assert es[i] == (v, u);
    }
    if (v, u) in es {
      var i :| 0 <= i < |es| && es[i] == (v, u);
      assert r[i] == (u, v);
    }
  }

  /** A non-empty sequence of nodes, each one joined to the next by an edge. */
  ghost predicate IsPath(es: seq<Edge>, p: seq<Handle>) {
    |p| > 0 && forall i :: 0 <= i < |p| - 1 ==> (p[i], p[i + 1]) in es
  }

  /** `v` can be reached from `u` by following zero or more edges. */
  ghost predicate Reaches(es: seq<Edge>, u: Handle, v: Handle) {
    exists p :: IsPath(es, p) && p[0] == u && p[|p| - 1] == v
  }

  /** `u` and `v` lie on a common cycle (or are the same node). */
  ghost predicate Mutual(es: seq<Edge>, u: Handle, v: Handle) {
    Reaches(es, u, v) && Reaches(es, v, u)
  }

  /** `a` is a proper ancestor of `b`: `a` has a child from which `b` can be reached. */
  ghost predicate ProperAncestor(es: seq<Edge>, a: Handle, b: Handle) {
    exists c :: (a, c) in es && Reaches(es, c, b)
  }

  /** `rank` strictly increases along every edge, so the graph has no cycle. */
  ghost predicate IsTopologicalRank(es: seq<Edge>, rank: map<Handle, nat>) {
    forall e :: e in es ==> e.0 in rank && e.1 in rank && rank[e.0] < rank[e.1]
  }

  lemma ReachesRefl(es: seq<Edge>, u: Handle)
    ensures Reaches(es, u, u)
  {
    assert IsPath(es, [u]);
  }

  lemma ReachesTrans(es: seq<Edge>, u: Handle, v: Handle, w: Handle)
    requires Reaches(es, u, v) && Reaches(es, v, w)
    ensures Reaches(es, u, w)
  {
    var p :| IsPath(es, p) && p[0] == u && p[|p| - 1] == v;
    var q :| IsPath(es, q) && q[0] == v && q[|q| - 1] == w;
    var pq := p + q[1..];
    forall i | 0 <= i < |pq| - 1 ensures (pq[i], pq[i + 1]) in es {
      if i < |p| - 1 {
        assert pq[i] == p[i] && pq[i + 1] == p[i + 1];
      } else {
        var k := i - (|p| - 1);
        assert pq[i] == q[k] && pq[i + 1] == q[k + 1];
      }
    }
    assert IsPath(es, pq) && pq[0] == u && pq[|pq| - 1] == w;
  }

  lemma ReachesStep(es: seq<Edge>, u: Handle, v: Handle, w: Handle)
    requires Reaches(es, u, v) && (v, w) in es
    ensures Reaches(es, u, w)
  {
    assert IsPath(es, [v, w]);
    ReachesTrans(es, u, v, w);
  }

  /** The last edge of a path that is not empty. */
  lemma ReachesLastStep(es: seq<Edge>, c: Handle, x: Handle)
    requires Reaches(es, c, x) && c != x
    ensures exists y :: (y, x) in es && Reaches(es, c, y)
  {
    var p :| IsPath(es, p) && p[0] == c && p[|p| - 1] == x;
    var y := p[|p| - 2];
    assert IsPath(es, p[..|p| - 1]);
    assert (y, x) in es && Reaches(es, c, y);
  }

  /** The first edge of a path that is not empty. */
  lemma ReachesFirstStep(es: seq<Edge>, u: Handle, v: Handle)
    requires Reaches(es, u, v) && u != v
    ensures exists c :: (u, c) in es
  {
    var p :| IsPath(es, p) && p[0] == u && p[|p| - 1] == v;
    assert (p[0], p[1]) in es;
  }

  /** A node without outgoing edges reaches only itself. */
  lemma ReachesNeedsEdge(es: seq<Edge>, u: Handle, v: Handle)
    ensures Reaches(es, u, v) && u != v ==> exists c :: (u, c) in es
  {
    if Reaches(es, u, v) && u != v {
      ReachesFirstStep(es, u, v);
    }
  }

  /** Nodes on a common cycle stay so when edges are only added. */
  lemma MutualMono(es: seq<Edge>, more: seq<Edge>, u: Handle, v: Handle)
    requires forall e :: e in es ==> e in more
    ensures Mutual(es, u, v) ==> Mutual(more, u, v)
  {
    if Mutual(es, u, v) {
      ReachesMono(es, more, u, v);
      ReachesMono(es, more, v, u);
    }
  }

  /** A node reached from a node of `s` is in `s` when every edge target is. */
  lemma ReachesWithin(es: seq<Edge>, s: set<Handle>, u: Handle, v: Handle)
    requires Reaches(es, u, v) && u in s
    requires forall e :: e in es ==> e.1 in s
    ensures v in s
  {
    var p :| IsPath(es, p) && p[0] == u && p[|p| - 1] == v;
    if |p| > 1 {
      assert (p[|p| - 2], p[|p| - 1]) in es;
    }
  }

  /** A set closed under edges contains everything reachable from its members. */
  lemma ReachesClosed(es: seq<Edge>, s: set<Handle>, u: Handle, v: Handle)
    requires Reaches(es, u, v) && u in s
    requires forall e :: e in es && e.0 in s ==> e.1 in s
    ensures v in s
  {
    var p :| IsPath(es, p) && p[0] == u && p[|p| - 1] == v;
    PathStaysIn(es, s, p, |p| - 1);
  }

  lemma {:induction false} PathStaysIn(es: seq<Edge>, s: set<Handle>, p: seq<Handle>, i: nat)
    requires IsPath(es, p) && p[0] in s && i < |p|
    requires forall e :: e in es && e.0 in s ==> e.1 in s
    ensures p[i] in s
  {
    if i > 0 {
      PathStaysIn(es, s, p, i - 1);
      assert (p[i - 1], p[i]) in es;
    }
  }

  /** Paths survive when edges are only added. */
  lemma ReachesMono(es: seq<Edge>, more: seq<Edge>, u: Handle, v: Handle)
    requires Reaches(es, u, v)
    requires forall e :: e in es ==> e in more
    ensures Reaches(more, u, v)
  {
    var p :| IsPath(es, p) && p[0] == u && p[|p| - 1] == v;
    assert IsPath(more, p);
  }

  lemma ReachesReverse(es: seq<Edge>, u: Handle, v: Handle)
    ensures Reaches(Reverse(es), u, v) <==> Reaches(es, v, u)
  {
    if Reaches(Reverse(es), u, v) {
      ReversePath(es, u, v);
    }
    if Reaches(es, v, u) {
      assert Reverse(Reverse(es)) == es;
      ReversePath(Reverse(es), v, u);
    }
  }

  lemma ReversePath(es: seq<Edge>, u: Handle, v: Handle)
    requires Reaches(Reverse(es), u, v)
    ensures Reaches(es, v, u)
  {
    var p :| IsPath(Reverse(es), p) && p[0] == u && p[|p| - 1] == v;
    var n := |p|;
    var q := seq(n, i requires 0 <= i < n => p[n - 1 - i]);
    forall i | 0 <= i < n - 1 ensures (q[i], q[i + 1]) in es {
      assert (p[n - 2 - i], p[n - 1 - i]) in Reverse(es);
      ReverseMembership(es, p[n - 2 - i], p[n - 1 - i]);
    }
    assert IsPath(es, q) && q[0] == v && q[n - 1] == u;
  }

  /** All edge targets. */
  function Targets(es: seq<Edge>): (r: set<Handle>)
    ensures forall e :: e in es ==> e.1 in r
    ensures forall h :: h in r ==> exists e :: e in es && e.1 == h
  {
    set e | e in es :: e.1
  }

  /** Worklist search: the nodes reachable from `from`. */
  method ReachableFrom(es: seq<Edge>, from: Handle) returns (r: set<Handle>)
    ensures forall v :: v in r <==> Reaches(es, from, v)
  {
    ghost var universe := Targets(es) + {from};
    r := {from};
    var work := {from};
    ReachesRefl(es, from);
    while work != {}
      invariant work <= r <= universe
      invariant from in r
      invariant forall v :: v in r ==> Reaches(es, from, v)
      invariant forall e :: e in es && e.0 in r - work ==> e.1 in r
      decreases |universe - r|, |work|
    {
      var x :| x in work;
      work := work - {x};
      ghost var r0, work0 := r, work;
      r, work := AddChildren(es, x, r, work, from, universe);
      if r == r0 {
        assert work == work0;
      } else {
        SubsetSmaller(universe - r, universe - r0);
      }
    }
    forall v | Reaches(es, from, v) ensures v in r {
      ReachesClosed(es, r, from, v);
    }
  }

  /** One step of the worklist search: every child of `x` not yet reached is
      marked reached and queued. */
  method AddChildren(es: seq<Edge>, x: Handle, r0: set<Handle>, work0: set<Handle>,
                     ghost from: Handle, ghost universe: set<Handle>)
    returns (r: set<Handle>, work: set<Handle>)
    requires work0 <= r0 <= universe && Targets(es) <= universe
    requires x in r0 && x !in work0
    requires forall v :: v in r0 ==> Reaches(es, from, v)
    requires forall e :: e in es && e.0 in r0 - work0 - {x} ==> e.1 in r0
    ensures r0 <= r <= universe && work0 <= work <= r
    ensures r - r0 == work - work0
    ensures forall v :: v in r ==> Reaches(es, from, v)
    ensures forall e :: e in es && e.0 in r - work ==> e.1 in r
  {
    r, work := r0, work0;
    var i := 0;
    while i < |es|
      invariant 0 <= i <= |es|
      invariant r0 <= r <= universe && work0 <= work <= r
      invariant r - r0 == work - work0
      invariant forall v :: v in r ==> Reaches(es, from, v)
      invariant forall k :: 0 <= k < i && es[k].0 == x ==> es[k].1 in r
    {
      var (a, b) := es[i];
      if a == x && b !in r {
        ReachesStep(es, from, x, b);
        assert (r + {b}) - r0 == (r - r0) + {b};
        assert (work + {b}) - work0 == (work - work0) + {b};
        r := r + {b};
        work := work + {b};
      }
      i := i + 1;
    }
    forall e | e in es && e.0 in r - work ensures e.1 in r {
      if e.0 == x {
        var k :| 0 <= k < |es| && es[k] == e;
      } else {
        assert e.0 !in work - work0;
        assert e.0 in r0 - work0 - {x};
      }
    }
  }

  lemma SubsetSmaller<T>(a: set<T>, b: set<T>)
    requires a < b
    ensures |a| < |b|
  {
    assert b - a != {};
    var x :| x in b - a;
    assert a <= b - {x};
    SubsetNoLarger(a, b - {x});
  }

  lemma {:induction false} SubsetNoLarger<T>(a: set<T>, b: set<T>)
    requires a <= b
    ensures |a| <= |b|
    decreases |b|
  {
    if a != {} {
      var x :| x in a;
      SubsetNoLarger(a - {x}, b - {x});
    }
  }

  /** The mutual-reachability class of `y`: the nodes on a common cycle with it. */
  method MutualClass(es: seq<Edge>, y: Handle) returns (c: set<Handle>)
    ensures forall v :: v in c <==> Mutual(es, y, v)
  {
    var fwd := ReachableFrom(es, y);
    var bwd := ReachableFrom(Reverse(es), y);
    c := fwd * bwd;
    forall v ensures v in bwd <==> Reaches(es, v, y) {
      ReachesReverse(es, y, v);
    }
  }

  lemma MutualSym(es: seq<Edge>, u: Handle, v: Handle)
    requires Mutual(es, u, v)
    ensures Mutual(es, v, u)
  {
  }

  lemma MutualTrans(es: seq<Edge>, u: Handle, v: Handle, w: Handle)
    requires Mutual(es, u, v) && Mutual(es, v, w)
    ensures Mutual(es, u, w)
  {
    ReachesTrans(es, u, v, w);
    ReachesTrans(es, w, v, u);
  }

  /** The union of a list of sets. */
  function UnionAll<T>(gs: seq<set<T>>): (r: set<T>)
    ensures forall i :: 0 <= i < |gs| ==> gs[i] <= r
  {
    if gs == [] then {} else UnionAll(gs[..|gs| - 1]) + gs[|gs| - 1]
  }

  /** Every member of the union comes from one of the sets. */
  lemma {:induction false} InUnionAll<T>(gs: seq<set<T>>, x: T)
    requires x in UnionAll(gs)
    ensures exists i :: 0 <= i < |gs| && x in gs[i]
  {
    var last := |gs| - 1;
    if x !in gs[last] {
      InUnionAll(gs[..last], x);
      var i :| 0 <= i < last && x in gs[..last][i];
      assert x in gs[i];
    }
  }

  lemma {:induction false} UnionAllWithin<T>(gs: seq<set<T>>, s: set<T>)
    requires forall i :: 0 <= i < |gs| ==> gs[i] <= s
    ensures UnionAll(gs) <= s
  {
    if gs != [] {
      UnionAllWithin(gs[..|gs| - 1], s);
    }
  }

  /** Each group is a whole mutual-reachability class of nodes, and the groups
      are pairwise disjoint. */
  ghost predicate AreCycleGroups(es: seq<Edge>, nodes: set<Handle>, gs: seq<set<Handle>>) {
    && (forall i :: 0 <= i < |gs| ==> gs[i] != {} && gs[i] <= nodes)
    && (forall i, j :: 0 <= i < j < |gs| ==> gs[i] !! gs[j])
    && (forall i, u, v :: 0 <= i < |gs| && u in gs[i] && v in gs[i] ==> Mutual(es, u, v))
    && (forall i, u, v :: 0 <= i < |gs| && u in gs[i] && Mutual(es, u, v) ==> v in gs[i])
  }

  /** A class none of whose members is grouped yet can be added as a new group. */
  lemma ExtendCycleGroups(es: seq<Edge>, nodes: set<Handle>, gs: seq<set<Handle>>, y: Handle, c: set<Handle>)
    requires AreCycleGroups(es, nodes, gs)
    requires forall e :: e in es ==> e.0 in nodes && e.1 in nodes
    requires y in nodes
    requires forall v :: v in c <==> Mutual(es, y, v)
    requires c !! UnionAll(gs)
    ensures AreCycleGroups(es, nodes, gs + [c])
  {
    ReachesRefl(es, y);
    assert y in c;
    forall v | v in c ensures v in nodes {
      ReachesWithin(es, nodes, y, v);
    }
    var gs' := gs + [c];
    forall i, u, v | 0 <= i < |gs'| && u in gs'[i] && v in gs'[i] ensures Mutual(es, u, v) {
      if i == |gs| {
        MutualSym(es, y, u);
        MutualTrans(es, u, y, v);
      }
    }
    forall i, u, v | 0 <= i < |gs'| && u in gs'[i] && Mutual(es, u, v) ensures v in gs'[i] {
      if i == |gs| {
        MutualTrans(es, y, u, v);
      }
    }
    forall i, j | 0 <= i < j < |gs'| ensures gs'[i] !! gs'[j] {
      if j == |gs| {
        assert gs[i] <= UnionAll(gs);
      }
    }
  }

  /** A class is either wholly inside the grouped nodes or disjoint from them. */
  lemma ClassAllOrNothing(es: seq<Edge>, nodes: set<Handle>, gs: seq<set<Handle>>, y: Handle, c: set<Handle>)
    requires AreCycleGroups(es, nodes, gs)
    requires forall v :: v in c <==> Mutual(es, y, v)
    ensures c <= UnionAll(gs) || c !! UnionAll(gs)
  {
    if w :| w in c && w in UnionAll(gs) {
      InUnionAll(gs, w);
      var i :| 0 <= i < |gs| && w in gs[i];
      forall v | v in c ensures v in gs[i] {
        MutualSym(es, y, w);
        MutualTrans(es, w, y, v);
      }
    }
  }

  /** The strongly-connected groups of the graph: every node in exactly one
      group, each group a maximal set of mutually reachable nodes. */
  method CycleGroups(nodes: set<Handle>, es: seq<Edge>) returns (groups: seq<set<Handle>>)
    requires forall e :: e in es ==> e.0 in nodes && e.1 in nodes
    ensures AreCycleGroups(es, nodes, groups)
    ensures UnionAll(groups) == nodes
  {
    groups := [];
    var visited: set<Handle> := {};
    var toVisit := nodes;
    while toVisit != {}
      invariant toVisit <= nodes
      invariant visited == UnionAll(groups)
      invariant AreCycleGroups(es, nodes, groups)
      invariant nodes - toVisit <= visited
      decreases toVisit
    {
      var entry :| entry in toVisit;
      toVisit := toVisit - {entry};
      if entry in visited {
        continue;
      }
      groups, visited := GroupsReachableFrom(nodes, es, entry, groups, visited);
    }
    UnionAllWithin(groups, nodes);
  }

  /** The traversal from one entry node: every class reachable from `entry`
      that is not grouped yet becomes a new group. */
  method GroupsReachableFrom(nodes: set<Handle>, es: seq<Edge>, entry: Handle,
                             groups0: seq<set<Handle>>, visited0: set<Handle>)
    returns (groups: seq<set<Handle>>, visited: set<Handle>)
    requires forall e :: e in es ==> e.0 in nodes && e.1 in nodes
    requires entry in nodes
    requires visited0 == UnionAll(groups0) && AreCycleGroups(es, nodes, groups0)
    ensures visited == UnionAll(groups) && AreCycleGroups(es, nodes, groups)
    ensures visited0 + {entry} <= visited
  {
    groups, visited := groups0, visited0;
    var pending := ReachableFrom(es, entry);
    ghost var reached := pending;
    ReachesRefl(es, entry);
    while pending != {}
      invariant pending <= reached
      invariant forall v :: v in reached ==> Reaches(es, entry, v)
      invariant visited == UnionAll(groups) && AreCycleGroups(es, nodes, groups)
      invariant reached - pending <= visited
      invariant visited0 <= visited
      decreases pending
    {
      var y :| y in pending;
      ReachesWithin(es, nodes, entry, y);
      var cls;
      groups, visited, cls := GroupClassOf(nodes, es, y, groups, visited);
      pending := pending - cls;
    }
  }

  /** One step of the traversal: the class of `y` becomes a new group unless
      its first member is already grouped. */
  method GroupClassOf(nodes: set<Handle>, es: seq<Edge>, y: Handle,
                      groups0: seq<set<Handle>>, visited0: set<Handle>)
    returns (groups: seq<set<Handle>>, visited: set<Handle>, cls: set<Handle>)
    requires forall e :: e in es ==> e.0 in nodes && e.1 in nodes
    requires y in nodes
    requires visited0 == UnionAll(groups0) && AreCycleGroups(es, nodes, groups0)
    ensures visited == UnionAll(groups) && AreCycleGroups(es, nodes, groups)
    ensures y in cls && cls <= visited && visited0 <= visited
  {
    groups, visited := groups0, visited0;
    cls := MutualClass(es, y);
    ReachesRefl(es, y);
    assert Mutual(es, y, y);
    var first :| first in cls;
    assert cls <= visited || cls !! visited by {
      ClassAllOrNothing(es, nodes, groups, y, cls);
    }
    if first in visited {
      return;
    }
    assert AreCycleGroups(es, nodes, groups + [cls]) by {
      ExtendCycleGroups(es, nodes, groups, y, cls);
    }
    visited := visited + cls;
    groups := groups + [cls];
  }
}

/**
 Transitive reachability over a name-based call graph. Functions that share a name are merged, and
 the closure of the merged graph is proved to over-approximate every finer graph it stands for.
 */
module Reachability {

  type Name = string

  /** One function definition found in the sources: its name and the names its body loads. */
  datatype Definition = Definition(name: Name, loads: set<Name>)

  // ---- the specification ----

  ghost function Succ(edges: map<Name, set<Name>>, n: Name): set<Name> {
    if n in edges then edges[n] else {}
  }

  /** A walk from a root along the edges. */
  ghost predicate IsWalk(roots: set<Name>, edges: map<Name, set<Name>>, walk: seq<Name>) {
    && walk != []
    && walk[0] in roots
    && forall i :: 0 < i < |walk| ==> walk[i] in Succ(edges, walk[i - 1])
  }

  ghost predicate IsReachable(roots: set<Name>, edges: map<Name, set<Name>>, n: Name) {
    exists walk :: IsWalk(roots, edges, walk) && walk[|walk| - 1] == n
  }

  lemma ReachableStep(roots: set<Name>, edges: map<Name, set<Name>>, n: Name, m: Name)
    requires IsReachable(roots, edges, n) && m in Succ(edges, n)
    ensures IsReachable(roots, edges, m)
  {
    var walk :| IsWalk(roots, edges, walk) && walk[|walk| - 1] == n;
    var longer := walk + [m];
    assert IsWalk(roots, edges, longer) && longer[|longer| - 1] == m;
  }

  lemma ReachableRoot(roots: set<Name>, edges: map<Name, set<Name>>, n: Name)
    requires n in roots
    ensures IsReachable(roots, edges, n)
  {
    assert IsWalk(roots, edges, [n]) && [n][|[n]| - 1] == n;
  }

  /** A set holding the roots and closed under the edges holds everything reachable. */
  lemma {:induction false} ClosedHoldsWalk(roots: set<Name>, edges: map<Name, set<Name>>, closed: set<Name>,
                                           walk: seq<Name>)
    requires roots <= closed && forall n :: n in closed ==> Succ(edges, n) <= closed
    requires IsWalk(roots, edges, walk)
    ensures walk[|walk| - 1] in closed
    decreases |walk|
  {
    if |walk| == 1 {
    } else {
      var shorter := walk[..|walk| - 1];
      assert IsWalk(roots, edges, shorter);
      ClosedHoldsWalk(roots, edges, closed, shorter);
      assert walk[|walk| - 1] in Succ(edges, walk[|walk| - 2]);
    }
  }

  // ---- the code ----

  /** Some listing of a set; Python does not say which. */
  method Listing(s: set<Name>) returns (list: seq<Name>)
    ensures forall n :: n in list <==> n in s
  {
    list := [];
    var left := s;
    while left != {}
      invariant left <= s
      invariant forall n :: n in list <==> n in s - left
    {
      var n :| n in left;
      list := list + [n];
      left := left - {n};
    }
  }

  class Graph {
    var defined: set<Name>
    var edges: map<Name, set<Name>>
    var roots: set<Name>

    constructor ()
      ensures defined == {} && edges == map[] && roots == {}
    {
      defined, edges, roots := {}, map[], {};
    }

    /** Definitions of one name pool what they load. */
    method Add(name: Name, loads: set<Name>)
      modifies this
      ensures defined == old(defined) + {name} && roots == old(roots)
      ensures edges == MergeOne(old(edges), Definition(name, loads))
    {
      defined := defined + {name};
      edges := edges[name := (if name in edges then edges[name] else {}) + loads];
    }

    method Root(name: Name)
      modifies this
      ensures roots == old(roots) + {name} && defined == old(defined) && edges == old(edges)
    {
      roots := roots + {name};
    }

    /** The closure worklist, and the definitions it leaves out. */
    method Unreachable() returns (seen: set<Name>, report: set<Name>)
      ensures forall n :: n in seen <==> IsReachable(roots, edges, n)
      ensures forall n :: n in report <==> n in defined && !IsReachable(roots, edges, n)
    {
      hide IsPending;
      seen := {};
      var frontier := Listing(roots);
      PendingAtStart(roots, edges, frontier);
      while frontier != []
        invariant IsPending(roots, edges, seen, frontier)
        decreases Universe(roots, edges) - seen, |frontier|
      {
        var name := frontier[|frontier| - 1];
        ghost var popped := frontier;
        frontier := frontier[..|frontier| - 1];
        assert popped == frontier + [name];
        PendingIsKnown(roots, edges, seen, frontier, name);
        if name in seen {
          PendingAfterSkip(roots, edges, seen, frontier, name);
          continue;
        }
        var next := Listing(if name in edges then edges[name] else {});
        PendingAfterVisit(roots, edges, seen, frontier, name, next);
        seen := seen + {name};
        frontier := frontier + next;
      }
      PendingAtEnd(roots, edges, seen);
      report := set n | n in defined && n !in seen;
    }
  }

  /** The worklist's invariant: sound so far, and nothing owed outside the frontier. */
  ghost predicate IsPending(roots: set<Name>, edges: map<Name, set<Name>>, seen: set<Name>, frontier: seq<Name>) {
    && (forall n :: n in seen || n in frontier ==> IsReachable(roots, edges, n) && n in Universe(roots, edges))
    && (forall n :: n in roots ==> n in seen || n in frontier)
    && (forall n, m :: n in seen && m in Succ(edges, n) ==> m in seen || m in frontier)
  }

  lemma PendingAtStart(roots: set<Name>, edges: map<Name, set<Name>>, frontier: seq<Name>)
    requires forall n :: n in frontier <==> n in roots
    ensures IsPending(roots, edges, {}, frontier)
  {
    forall n | n in roots
      ensures IsReachable(roots, edges, n)
    {
      ReachableRoot(roots, edges, n);
    }
  }

  lemma PendingIsKnown(roots: set<Name>, edges: map<Name, set<Name>>, seen: set<Name>, frontier: seq<Name>, name: Name)
    requires IsPending(roots, edges, seen, frontier + [name])
    ensures name in Universe(roots, edges)
  {
    assert name in frontier + [name];
  }

  lemma PendingAfterSkip(roots: set<Name>, edges: map<Name, set<Name>>, seen: set<Name>, frontier: seq<Name>,
                         name: Name)
    requires IsPending(roots, edges, seen, frontier + [name]) && name in seen
    ensures IsPending(roots, edges, seen, frontier)
  {
    hide IsReachable, Universe;
    assert forall n :: n in frontier + [name] <==> n in frontier || n == name;
  }

  lemma PendingAfterVisit(roots: set<Name>, edges: map<Name, set<Name>>, seen: set<Name>, frontier: seq<Name>,
                          name: Name, next: seq<Name>)
    requires IsPending(roots, edges, seen, frontier + [name])
    requires forall m :: m in next <==> m in Succ(edges, name)
    ensures IsPending(roots, edges, seen + {name}, frontier + next)
  {
    hide IsReachable;
    assert forall n :: n in frontier + [name] <==> n in frontier || n == name;
    assert forall n :: n in frontier + next <==> n in frontier || n in next;
    forall m | m in next
      ensures IsReachable(roots, edges, m)
    {
      ReachableStep(roots, edges, name, m);
    }
  }

  lemma PendingAtEnd(roots: set<Name>, edges: map<Name, set<Name>>, seen: set<Name>)
    requires IsPending(roots, edges, seen, [])
    ensures forall n :: n in seen <==> IsReachable(roots, edges, n)
  {
    forall n | IsReachable(roots, edges, n)
      ensures n in seen
    {
      var walk :| IsWalk(roots, edges, walk) && walk[|walk| - 1] == n;
      ClosedHoldsWalk(roots, edges, seen, walk);
    }
  }

  ghost function Universe(roots: set<Name>, edges: map<Name, set<Name>>): set<Name> {
    roots + set n, m | n in edges && m in edges[n] :: m
  }

  // ---- merging by name is the safe direction ----

  ghost function MergeOne(edges: map<Name, set<Name>>, d: Definition): map<Name, set<Name>> {
    edges[d.name := Succ(edges, d.name) + d.loads]
  }

  /** The edges after adding every definition in turn. */
  ghost function Merged(defs: seq<Definition>): map<Name, set<Name>> {
    if defs == [] then map[] else MergeOne(Merged(defs[..|defs| - 1]), defs[|defs| - 1])
  }

  /** The merged graph has an edge exactly where some definition of that name loads the other. */
  lemma {:induction false} MergedIsUnion(defs: seq<Definition>, n: Name, m: Name)
    ensures m in Succ(Merged(defs), n) <==> exists i :: 0 <= i < |defs| && defs[i].name == n && m in defs[i].loads
    decreases |defs|
  {
    if defs == [] {
    } else {
      var k := |defs| - 1;
      MergedIsUnion(defs[..k], n, m);
      if defs[k].name == n && m in defs[k].loads {
        assert m in Succ(Merged(defs), n);
      }
      if exists i :: 0 <= i < |defs| && defs[i].name == n && m in defs[i].loads {
        var i :| 0 <= i < |defs| && defs[i].name == n && m in defs[i].loads;
        if i < k { assert defs[..k][i] == defs[i]; }
      }
    }
  }

  /**
   A finer account of who calls whom, over definition sites rather than names: a call from one
   definition to another needs the callee's name among what the caller loads.
   */
  datatype Calls = Calls(entry: set<nat>, calls: set<(nat, nat)>)

  ghost predicate Refines(fine: Calls, defs: seq<Definition>, roots: set<Name>) {
    && (forall f :: f in fine.entry ==> f < |defs| && defs[f].name in roots)
    && (forall f, g :: (f, g) in fine.calls ==>
          f < |defs| && g < |defs| && defs[g].name in defs[f].loads)
  }

  ghost predicate IsCallChain(fine: Calls, chain: seq<nat>) {
    && chain != []
    && chain[0] in fine.entry
    && forall i :: 0 < i < |chain| ==> (chain[i - 1], chain[i]) in fine.calls
  }

  lemma {:induction false} CallChainProjects(fine: Calls, defs: seq<Definition>, roots: set<Name>, chain: seq<nat>)
    requires Refines(fine, defs, roots) && IsCallChain(fine, chain)
    ensures chain[|chain| - 1] < |defs| && IsReachable(roots, Merged(defs), defs[chain[|chain| - 1]].name)
    decreases |chain|
  {
    var last := chain[|chain| - 1];
    if |chain| == 1 {
      ReachableRoot(roots, Merged(defs), defs[last].name);
    } else {
      var shorter := chain[..|chain| - 1];
      var caller := chain[|chain| - 2];
      assert (caller, last) in fine.calls;
      CallChainProjects(fine, defs, roots, shorter);
      MergedIsUnion(defs, defs[caller].name, defs[last].name);
      ReachableStep(roots, Merged(defs), defs[caller].name, defs[last].name);
    }
  }

  /** Main result: no chain of real calls reaches a definition whose name is reported. */
  lemma ReportedIsUnreachable(fine: Calls, defs: seq<Definition>, roots: set<Name>, f: nat)
    requires Refines(fine, defs, roots) && f < |defs|
    requires !IsReachable(roots, Merged(defs), defs[f].name)
    ensures !exists chain :: IsCallChain(fine, chain) && chain[|chain| - 1] == f
  {
    forall chain | IsCallChain(fine, chain)
      ensures chain[|chain| - 1] != f
    {
      CallChainProjects(fine, defs, roots, chain);
    }
  }

  /** More roots or more edges never add a report. */
  lemma ReachableGrows(roots: set<Name>, edges: map<Name, set<Name>>, roots': set<Name>,
                       edges': map<Name, set<Name>>, n: Name)
    requires roots <= roots' && forall m :: Succ(edges, m) <= Succ(edges', m)
    requires IsReachable(roots, edges, n)
    ensures IsReachable(roots', edges', n)
  {
    var walk :| IsWalk(roots, edges, walk) && walk[|walk| - 1] == n;
    assert IsWalk(roots', edges', walk);
  }

  // ---- the gate ----

  ghost function NamesOf(defs: seq<Definition>): set<Name> {
    set i | 0 <= i < |defs| :: defs[i].name
  }

  /** The graph of all definitions and roots found in the sources. */
  method Build(defs: seq<Definition>, roots: set<Name>) returns (g: Graph)
    ensures fresh(g)
    ensures g.edges == Merged(defs) && g.defined == NamesOf(defs) && g.roots == roots
  {
    g := new Graph();
    assert defs[..0] == [];
    for i := 0 to |defs|
      invariant fresh(g)
      invariant g.edges == Merged(defs[..i]) && g.defined == NamesOf(defs[..i]) && g.roots == {}
    {
      g.Add(defs[i].name, defs[i].loads);
      assert defs[..i + 1][..i] == defs[..i];
      NamesGrow(defs, i);
    }
    assert defs[..|defs|] == defs;
    var left := roots;
    while left != {}
      invariant fresh(g) && left <= roots && g.roots == roots - left
      invariant g.edges == Merged(defs) && g.defined == NamesOf(defs)
    {
      var n :| n in left;
      g.Root(n);
      left := left - {n};
    }
  }

  lemma NamesGrow(defs: seq<Definition>, i: nat)
    requires i < |defs|
    ensures NamesOf(defs[..i + 1]) == NamesOf(defs[..i]) + {defs[i].name}
  {
    assert forall k :: 0 <= k <= i ==> defs[..i + 1][k] == defs[k];
    assert forall k :: 0 <= k < i ==> defs[..i][k] == defs[k];
    forall n
      ensures n in NamesOf(defs[..i + 1]) <==> n in NamesOf(defs[..i]) + {defs[i].name}
    {
      if n in NamesOf(defs[..i]) {
        var k :| 0 <= k < i && defs[..i][k].name == n;
        assert defs[..i + 1][k].name == n;
      }
      if n == defs[i].name {
        assert defs[..i + 1][i].name == n;
      }
    }
  }

  /**
   Main result for the gate: what it reports is exactly what no walk over names reaches, and no
   chain of calls in any finer call graph arrives at a definition it reports.
   */
  method Gate(defs: seq<Definition>, roots: set<Name>) returns (report: set<Name>)
    ensures forall n :: n in report <==> n in NamesOf(defs) && !IsReachable(roots, Merged(defs), n)
    ensures forall fine, chain :: Refines(fine, defs, roots) && IsCallChain(fine, chain) ==>
      chain[|chain| - 1] < |defs| && defs[chain[|chain| - 1]].name !in report
  {
    hide IsReachable, Merged, Refines, IsCallChain;
    var g := Build(defs, roots);
    var seen;
    seen, report := g.Unreachable();
    forall fine, chain | Refines(fine, defs, roots) && IsCallChain(fine, chain)
      ensures chain != [] && chain[|chain| - 1] < |defs| && defs[chain[|chain| - 1]].name !in report
    {
      assert chain != [] by { ChainIsNotEmpty(fine, chain); }
      CallChainProjects(fine, defs, roots, chain);
    }
  }

  lemma ChainIsNotEmpty(fine: Calls, chain: seq<nat>)
    requires IsCallChain(fine, chain)
    ensures chain != []
  {
  }
}

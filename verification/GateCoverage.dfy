/**
 Which make targets continuous integration runs. The gate walks prerequisites recursively and cuts
 cycles along the current path; it is proved to compute the least fixed point of the covering rule.
 */
module GateCoverage {
  import opened Options

  datatype Job = Job(workflow: string, job: string)

  /**
   The two dictionaries the gate is handed. `invoked` gives for a target the sorted listing of the
   jobs that name it; a target absent from `prereqs` has no prerequisites.
   */
  datatype Gates = Gates(prereqs: map<string, seq<string>>, invoked: map<string, seq<Job>>) {
    predicate IsInvoked(t: string) { t in invoked && invoked[t] != [] }
    function Deps(t: string): seq<string> { if t in prereqs then prereqs[t] else [] }
  }

  function JoinComma(parts: seq<string>): (s: string)
    ensures |parts| > 0 && parts[0] != "" ==> s != ""
  {
    if parts == [] then "" else if |parts| == 1 then parts[0] else parts[0] + ", " + JoinComma(parts[1..])
  }

  function JobNames(jobs: seq<Job>): (r: seq<string>)
    ensures |r| == |jobs|
    ensures forall i :: 0 <= i < |r| ==> r[i] == jobs[i].workflow + "/" + jobs[i].job
  {
    if jobs == [] then [] else [jobs[0].workflow + "/" + jobs[0].job] + JobNames(jobs[1..])
  }

  /** Each further part follows a comma and a space. */
  lemma {:induction false} JoinOneMore(parts: seq<string>, last: string)
    ensures JoinComma(parts + [last]) == if parts == [] then last else JoinComma(parts) + ", " + last
  {
    if parts == [] {
      assert parts + [last] == [last];
    } else {
      JoinOneMore(parts[1..], last);
      assert (parts + [last])[1..] == parts[1..] + [last];
    }
  }

  /** Where continuous integration runs `t`, or None; the text is never empty. */
  function Resolve(g: Gates, t: string, seen: set<string>): (r: Option<string>)
    ensures r.Some? ==> r.value != ""
    decreases |g.prereqs.Keys - seen|, 0
  {
    if t in seen then None
    else if g.IsInvoked(t) then Some(JoinComma(JobNames(g.invoked[t])))
    else if g.Deps(t) == [] then None
    else
      assert g.prereqs.Keys - seen == (g.prereqs.Keys - (seen + {t})) + {t};
      var resolved := ResolveAll(g, g.Deps(t), seen + {t});
      if forall i :: 0 <= i < |resolved| ==> resolved[i].Some? && resolved[i].value != ""
      then Some("via " + JoinComma(Parts(g.Deps(t), resolved)))
      else None
  }

  function ResolveAll(g: Gates, ts: seq<string>, seen: set<string>): (r: seq<Option<string>>)
    ensures |r| == |ts|
    ensures forall i :: 0 <= i < |r| ==> r[i] == Resolve(g, ts[i], seen)
    decreases |g.prereqs.Keys - seen|, |ts| + 1
  {
    if ts == [] then [] else [Resolve(g, ts[0], seen)] + ResolveAll(g, ts[1..], seen)
  }

  function Parts(ts: seq<string>, resolved: seq<Option<string>>): seq<string>
    requires |ts| == |resolved| && forall i :: 0 <= i < |resolved| ==> resolved[i].Some?
  {
    if ts == [] then [] else [ts[0] + " (" + resolved[0].value + ")"] + Parts(ts[1..], resolved[1..])
  }

  // ---- the specification: coverage with the targets of `out` ruled out ----

  /** Covered within `n` applications of the rule. */
  ghost predicate CoveredWithin(g: Gates, out: set<string>, n: nat, t: string) {
    && n > 0
    && t !in out
    && (|| (t in g.invoked && g.invoked[t] != [])
        || (t in g.prereqs && g.prereqs[t] != [] &&
            forall d :: d in g.prereqs[t] ==> CoveredWithin(g, out, n - 1, d)))
  }

  ghost predicate Covered(g: Gates, out: set<string>, t: string) {
    exists n: nat :: CoveredWithin(g, out, n, t)
  }

  /** The rule itself, over an arbitrary set of targets already taken to be covered. */
  ghost predicate Rule(g: Gates, out: set<string>, covered: iset<string>, t: string) {
    && t !in out
    && (|| (t in g.invoked && g.invoked[t] != [])
        || (t in g.prereqs && g.prereqs[t] != [] && forall d :: d in g.prereqs[t] ==> d in covered))
  }

  ghost function CoveredSet(g: Gates, out: set<string>): iset<string> {
    iset t | Covered(g, out, t)
  }

  lemma {:induction false} CoveredGrows(g: Gates, out: set<string>, n: nat, m: nat, t: string)
    requires CoveredWithin(g, out, n, t) && n <= m
    ensures CoveredWithin(g, out, m, t)
    decreases n
  {
    if !g.IsInvoked(t) {
      forall d | d in g.prereqs[t]
        ensures CoveredWithin(g, out, m - 1, d)
      {
        CoveredGrows(g, out, n - 1, m - 1, d);
      }
    }
  }

  lemma {:induction false} CoveredShrinks(g: Gates, out: set<string>, more: set<string>, n: nat, t: string)
    requires CoveredWithin(g, more, n, t) && out <= more
    ensures CoveredWithin(g, out, n, t)
    decreases n
  {
    if !g.IsInvoked(t) {
      forall d | d in g.prereqs[t]
        ensures CoveredWithin(g, out, n - 1, d)
      {
        CoveredShrinks(g, out, more, n - 1, d);
      }
    }
  }

  /** One bound on the depth that serves every target of a covered list. */
  lemma {:induction false} CommonDepth(g: Gates, out: set<string>, ts: seq<string>) returns (n: nat)
    requires forall d :: d in ts ==> Covered(g, out, d)
    ensures forall d :: d in ts ==> CoveredWithin(g, out, n, d)
  {
    if ts == [] {
      n := 0;
    } else {
      var m := CommonDepth(g, out, ts[1..]);
      assert Covered(g, out, ts[0]);
      var k: nat :| CoveredWithin(g, out, k, ts[0]);
      n := if k < m then m else k;
      CoveredGrows(g, out, k, n, ts[0]);
      forall d | d in ts[1..]
        ensures CoveredWithin(g, out, n, d)
      {
        CoveredGrows(g, out, m, n, d);
      }
    }
  }

  lemma CoveredByRule(g: Gates, out: set<string>, t: string)
    requires Rule(g, out, CoveredSet(g, out), t)
    ensures Covered(g, out, t)
  {
    if g.IsInvoked(t) {
      assert CoveredWithin(g, out, 1, t);
    } else {
      var n := CommonDepth(g, out, g.Deps(t));
      assert CoveredWithin(g, out, n + 1, t);
    }
  }

  lemma {:induction false} CoveredInPrefixedPoint(g: Gates, out: set<string>, s: iset<string>, n: nat, t: string)
    requires forall u :: Rule(g, out, s, u) ==> u in s
    requires CoveredWithin(g, out, n, t)
    ensures t in s
    decreases n
  {
    if !g.IsInvoked(t) {
      forall d | d in g.Deps(t)
        ensures d in s
      {
        CoveredInPrefixedPoint(g, out, s, n - 1, d);
      }
    }
    assert Rule(g, out, s, t);
  }

  /** `Covered` is the least fixed point of the rule. */
  lemma CoveredIsLeastFixedPoint(g: Gates, out: set<string>)
    ensures forall t :: Covered(g, out, t) <==> Rule(g, out, CoveredSet(g, out), t)
    ensures forall s: iset<string> ::
      (forall u :: Rule(g, out, s, u) ==> u in s) ==> CoveredSet(g, out) <= s
  {
    forall t
      ensures Covered(g, out, t) <==> Rule(g, out, CoveredSet(g, out), t)
    {
      if Covered(g, out, t) {
        var n: nat :| CoveredWithin(g, out, n, t);
        assert forall d :: CoveredWithin(g, out, n - 1, d) ==> d in CoveredSet(g, out);
      }
      if Rule(g, out, CoveredSet(g, out), t) {
        CoveredByRule(g, out, t);
      }
    }
    forall s: iset<string>, t | (forall u :: Rule(g, out, s, u) ==> u in s) && t in CoveredSet(g, out)
      ensures t in s
    {
      var n: nat :| CoveredWithin(g, out, n, t);
      CoveredInPrefixedPoint(g, out, s, n, t);
    }
  }

  /** Nothing is reported as covered that is not. */
  lemma {:induction false} ResolveIsSound(g: Gates, t: string, seen: set<string>)
    requires Resolve(g, t, seen).Some?
    ensures Covered(g, seen, t)
    decreases |g.prereqs.Keys - seen|
  {
    if g.IsInvoked(t) {
      assert CoveredWithin(g, seen, 1, t);
    } else {
      assert g.prereqs.Keys - seen == (g.prereqs.Keys - (seen + {t})) + {t};
      var deps := g.Deps(t);
      forall d | d in deps
        ensures Covered(g, seen, d)
      {
        var i :| 0 <= i < |deps| && deps[i] == d;
        assert ResolveAll(g, deps, seen + {t})[i] == Resolve(g, d, seen + {t});
        ResolveIsSound(g, d, seen + {t});
        var n: nat :| CoveredWithin(g, seen + {t}, n, d);
        CoveredShrinks(g, seen, seen + {t}, n, d);
      }
      CoveredByRule(g, seen, t);
    }
  }

  /**
   The cycle cut loses nothing: a target of least depth never needs one that is deeper, and all
   the targets on the path above it are.
   */
  lemma {:induction false} ResolveIsComplete(g: Gates, t: string, out: set<string>, path: set<string>, n: nat)
    requires CoveredWithin(g, out, n, t)
    requires forall s :: s in path ==> !CoveredWithin(g, out, n, s)
    ensures Resolve(g, t, out + path).Some?
    decreases n
  {
    if CoveredWithin(g, out, n - 1, t) {
      forall s | s in path
        ensures !CoveredWithin(g, out, n - 1, s)
      {
        if CoveredWithin(g, out, n - 1, s) { CoveredGrows(g, out, n - 1, n, s); }
      }
      ResolveIsComplete(g, t, out, path, n - 1);
    } else if !g.IsInvoked(t) {
      var path' := path + {t};
      assert out + path + {t} == out + path';
      forall s | s in path'
        ensures !CoveredWithin(g, out, n - 1, s)
      {
        if CoveredWithin(g, out, n - 1, s) { CoveredGrows(g, out, n - 1, n, s); }
      }
      forall d | d in g.Deps(t)
        ensures Resolve(g, d, out + path').Some?
      {
        ResolveIsComplete(g, d, out, path', n - 1);
      }
    }
  }

  /** Main result: the gate answers exactly for the covered targets, cyclic prerequisites or not. */
  lemma ResolveIffCovered(g: Gates, t: string, seen: set<string>)
    ensures Resolve(g, t, seen).Some? <==> Covered(g, seen, t)
  {
    if Resolve(g, t, seen).Some? {
      ResolveIsSound(g, t, seen);
    }
    if Covered(g, seen, t) {
      var n: nat :| CoveredWithin(g, seen, n, t);
      ResolveIsComplete(g, t, seen, {}, n);
      assert seen + {} == seen;
    }
  }

  // ---- the wording ----

  /** Why a target is covered: the jobs that name it, or a reason for each of its prerequisites. */
  datatype Evidence = Direct(jobs: seq<Job>) | Via(deps: seq<string>, parts: seq<Evidence>)

  /** A genuine derivation that never comes back to a target it is still deriving. */
  ghost predicate IsEvidence(g: Gates, t: string, seen: set<string>, ev: Evidence)
    decreases ev
  {
    t !in seen &&
    match ev
    case Direct(jobs) => t in g.invoked && jobs == g.invoked[t] && jobs != []
    case Via(deps, parts) =>
      && (t in g.invoked ==> g.invoked[t] == [])
      && t in g.prereqs && deps == g.prereqs[t] && deps != [] && |parts| == |deps|
      && forall i :: 0 <= i < |parts| ==> IsEvidence(g, deps[i], seen + {t}, parts[i])
  }

  function Render(ev: Evidence): (text: string)
    ensures text != "" || (ev.Direct? && ev.jobs == [])
  {
    match ev
    case Direct(jobs) => JoinComma(JobNames(jobs))
    case Via(deps, parts) => "via " + JoinComma(RenderParts(deps, parts))
  }

  function RenderParts(deps: seq<string>, parts: seq<Evidence>): seq<string>
    decreases parts
  {
    if deps == [] || parts == [] then []
    else [deps[0] + " (" + Render(parts[0]) + ")"] + RenderParts(deps[1..], parts[1..])
  }

  lemma {:induction false} PartsAreRendered(deps: seq<string>, resolved: seq<Option<string>>, parts: seq<Evidence>)
    requires |deps| == |resolved| == |parts|
    requires forall i :: 0 <= i < |deps| ==> resolved[i] == Some(Render(parts[i]))
    ensures Parts(deps, resolved) == RenderParts(deps, parts)
    decreases parts
  {
    if deps == [] {
    } else {
      PartsAreRendered(deps[1..], resolved[1..], parts[1..]);
    }
  }

  lemma {:induction false} EvidenceIsResolved(g: Gates, t: string, seen: set<string>, ev: Evidence)
    requires IsEvidence(g, t, seen, ev)
    ensures Resolve(g, t, seen) == Some(Render(ev))
    decreases ev
  {
    match ev
    case Direct(_) =>
    case Via(deps, parts) =>
      var resolved := ResolveAll(g, deps, seen + {t});
      forall i | 0 <= i < |deps|
        ensures resolved[i] == Some(Render(parts[i]))
      {
        EvidenceIsResolved(g, deps[i], seen + {t}, parts[i]);
      }
      PartsAreRendered(deps, resolved, parts);
  }

  lemma {:induction false} ResolvedHasEvidence(g: Gates, t: string, seen: set<string>) returns (ev: Evidence)
    requires Resolve(g, t, seen).Some?
    ensures IsEvidence(g, t, seen, ev)
    decreases |g.prereqs.Keys - seen|, 0
  {
    if g.IsInvoked(t) {
      ev := Direct(g.invoked[t]);
    } else {
      assert g.prereqs.Keys - seen == (g.prereqs.Keys - (seen + {t})) + {t};
      var parts := AllHaveEvidence(g, g.Deps(t), seen + {t});
      ev := Via(g.Deps(t), parts);
    }
  }

  lemma {:induction false} AllHaveEvidence(g: Gates, ts: seq<string>, seen: set<string>) returns (parts: seq<Evidence>)
    requires forall i :: 0 <= i < |ts| ==> ResolveAll(g, ts, seen)[i].Some?
    ensures |parts| == |ts| && forall i :: 0 <= i < |ts| ==> IsEvidence(g, ts[i], seen, parts[i])
    decreases |g.prereqs.Keys - seen|, |ts| + 1
  {
    if ts == [] {
      parts := [];
    } else {
      assert ResolveAll(g, ts, seen)[0].Some?;
      forall i | 0 <= i < |ts[1..]|
        ensures ResolveAll(g, ts[1..], seen)[i].Some?
      {
        assert ResolveAll(g, ts, seen)[i + 1].Some?;
      }
      var first := ResolvedHasEvidence(g, ts[0], seen);
      var rest := AllHaveEvidence(g, ts[1..], seen);
      parts := [first] + rest;
    }
  }

  /** The text returned is the printed form of a genuine derivation, and of no other. */
  lemma TextIsEvidence(g: Gates, t: string, seen: set<string>, text: string)
    ensures Resolve(g, t, seen) == Some(text) <==> exists ev :: IsEvidence(g, t, seen, ev) && Render(ev) == text
  {
    hide Resolve, IsEvidence, Render;
    if Resolve(g, t, seen).Some? {
      var ev := ResolvedHasEvidence(g, t, seen);
      EvidenceIsResolved(g, t, seen, ev);
    }
    forall ev | IsEvidence(g, t, seen, ev)
      ensures Resolve(g, t, seen) == Some(Render(ev))
    {
      EvidenceIsResolved(g, t, seen, ev);
    }
  }
}

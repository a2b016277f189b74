/**
 The bench preset store: one version list per look and per transition. A save appends; autosaves
 keep only the tail of the run they belong to.
 */
module PresetHistory {
  import opened Options
  import opened Text

  /** A saved look or take; the payload is its JSON text. */
  datatype Version = Version(payload: string, autosave: bool)

  /** A stored entry: a version list, or the bare object of the older format. */
  datatype Entry = Versions(versions: seq<Version>) | Bare(version: Version)

  const TAIL := 8
  const BODIES := ["jarvis", "ultron", "familiar", "colossus"]
  const SLOTS := ["arrival", "standby", "listening", "thinking", "working", "speaking", "error", "baseline"]

  function AsVersions(entry: Option<Entry>): seq<Version> {
    match entry
    case None => []
    case Some(Versions(versions)) => versions
    case Some(Bare(version)) => [version]
  }

  // ---- one save into one list ----

  function TrailingRun(vs: seq<Version>): (run: nat)
    ensures run <= |vs|
  {
    if vs != [] && vs[|vs| - 1].autosave then TrailingRun(vs[..|vs| - 1]) + 1 else 0
  }

  function Saved(vs: seq<Version>, v: Version): seq<Version> {
    var w := vs + [v];
    var run := TrailingRun(w);
    if v.autosave && run > TAIL then w[..|w| - run] + w[|w| - run + 1..] else w
  }

  // ---- requests against the store ----

  /** `to` is empty for a look; `wellFormed` says the tuning or the tracks are an object. */
  datatype Request = Request(body: string, slot: string, to: string, wellFormed: bool, payload: string, autosave: bool)

  /** What the handler takes, spelled out: a known body and look, or a known journey between two other looks. */
  ghost predicate IsAccepted(r: Request) {
    && r.body in {"jarvis", "ultron", "familiar", "colossus"}
    && (r.slot == "baseline" || IsRenderState(r.slot))
    && r.wellFormed
    && (r.to != "" ==> IsRenderState(r.to) && IsRenderState(r.slot) && r.to != r.slot)
  }

  ghost predicate IsRenderState(slot: string) {
    slot in {"arrival", "standby", "listening", "thinking", "working", "speaking", "error"}
  }

  function StateKey(body: string, slot: string): string {
    body + "." + slot
  }

  function TransitionKey(body: string, slot: string, to: string): string {
    body + "." + slot + "->" + to
  }

  function KeyOf(r: Request): string {
    if r.to != "" then TransitionKey(r.body, r.slot, r.to) else StateKey(r.body, r.slot)
  }

  /** What a request adds; takes are never autosaves. */
  function VersionOf(r: Request): Version {
    Version(r.payload, r.autosave && r.to == "")
  }

  function Lookup(store: map<string, Entry>, key: string): Option<Entry> {
    if key in store then Some(store[key]) else None
  }

  /** The versions stored under a key; a bare entry counts as one. */
  ghost function Stored(store: map<string, Entry>, key: string): seq<Version> {
    if key !in store then []
    else if store[key].Bare? then [store[key].version]
    else store[key].versions
  }

  ghost function Handled(store: map<string, Entry>, r: Request): map<string, Entry> {
    if IsAccepted(r) then store[KeyOf(r) := Versions(Saved(Stored(store, KeyOf(r)), VersionOf(r)))] else store
  }

  class Presets {
    var store: map<string, Entry>

    constructor ()
      ensures store == map[]
    {
      store := map[];
    }

    /** The POST handler; the reply is the new length of the list, or nothing for a refusal. */
    method Post(r: Request) returns (reply: Option<nat>)
      modifies this
      ensures store == Handled(old(store), r)
      ensures reply == if IsAccepted(r) then Some(|Stored(store, KeyOf(r))|) else None
      ensures IsAccepted(r) && KeyOf(r) in old(store) && old(store)[KeyOf(r)].Bare? ==>
        store[KeyOf(r)] == Versions([old(store)[KeyOf(r)].version, VersionOf(r)]) && reply == Some(2)
    {
      hide TrailingRun, StateKey, TransitionKey, Saved;
      ShortSave(old(store), r);
      if r.body !in BODIES || r.slot !in SLOTS { return None; }
      if r.to != "" {
        if r.to !in SLOTS || r.to == "baseline" || r.slot == "baseline" || r.to == r.slot { return None; }
        if !r.wellFormed { return None; }
        var key := TransitionKey(r.body, r.slot, r.to);
        var versions := AsVersions(Lookup(store, key)) + [Version(r.payload, false)];
        store := store[key := Versions(versions)];
        return Some(|versions|);
      }
      if !r.wellFormed { return None; }
      var key := StateKey(r.body, r.slot);
      var versions := Append(AsVersions(Lookup(store, key)), Version(r.payload, r.autosave));
      store := store[key := Versions(versions)];
      return Some(|versions|);
    }
  }

  /** A save after a single version leaves both. */
  lemma ShortSave(store: map<string, Entry>, r: Request)
    ensures |Stored(store, KeyOf(r))| == 1 ==>
      Saved(Stored(store, KeyOf(r)), VersionOf(r)) == [Stored(store, KeyOf(r))[0], VersionOf(r)]
    ensures r.to != "" ==>
      Saved(Stored(store, KeyOf(r)), VersionOf(r)) == Stored(store, KeyOf(r)) + [Version(r.payload, false)]
  {
    hide TrailingRun, KeyOf;
  }

  /** The push, and for an autosave the splice that caps its run. */
  method Append(vs: seq<Version>, v: Version) returns (versions: seq<Version>)
    ensures versions == Saved(vs, v)
  {
    versions := vs + [v];
    if v.autosave {
      var run := CountRun(versions);
      if run > TAIL {
        versions := versions[..|versions| - run] + versions[|versions| - run + 1..];
      }
    }
  }

  /** The loop that measures the trailing run. */
  method CountRun(vs: seq<Version>) returns (run: nat)
    ensures run == TrailingRun(vs)
  {
    run := 0;
    assert vs[..|vs|] == vs;
    while run < |vs| && vs[|vs| - 1 - run].autosave
      invariant run <= |vs|
      invariant TrailingRun(vs) == run + TrailingRun(vs[..|vs| - run])
    {
      assert vs[..|vs| - run][..|vs| - run - 1] == vs[..|vs| - (run + 1)];
      run := run + 1;
    }
  }

  // ---- the closed form ----

  /** All of h[i..j] are autosaves. */
  ghost predicate AllAuto(h: seq<Version>, i: nat, j: nat)
    requires i <= j <= |h|
  {
    forall k :: i <= k < j ==> h[k].autosave
  }

  /** An autosave is dropped once eight more of the same run have followed it. */
  ghost predicate IsKept(h: seq<Version>, i: nat)
    requires i < |h|
  {
    !(i + 8 < |h| && AllAuto(h, i, i + 9))
  }

  ghost function KeptBelow(h: seq<Version>, m: nat): seq<Version>
    requires m <= |h|
  {
    if m == 0 then [] else KeptBelow(h, m - 1) + if IsKept(h, m - 1) then [h[m - 1]] else []
  }

  /** A history with each maximal autosave run cut to its last eight. */
  ghost function Trimmed(h: seq<Version>): seq<Version> {
    KeptBelow(h, |h|)
  }

  /** A list after the saves `h`, one by one. */
  ghost function SavedFrom(vs: seq<Version>, h: seq<Version>): seq<Version> {
    if h == [] then vs else Saved(SavedFrom(vs, h[..|h| - 1]), h[|h| - 1])
  }

  /** The last eight of a history are all kept. */
  lemma {:induction false} TailIsKept(h: seq<Version>, m: nat, n: nat)
    requires m <= n <= |h| && |h| <= m + TAIL
    ensures KeptBelow(h, n) == KeptBelow(h, m) + h[m..n]
    decreases n - m
  {
    if m < n {
      TailIsKept(h, m, n - 1);
      assert h[m..n] == h[m..n - 1] + [h[n - 1]];
    }
  }

  /** Appending decides the fate of nothing that already had eight successors. */
  lemma {:induction false} KeptBelowIsStable(h: seq<Version>, v: Version, m: nat)
    requires m + TAIL <= |h|
    ensures KeptBelow(h + [v], m) == KeptBelow(h, m)
  {
    if m == 0 {
    } else {
      KeptBelowIsStable(h, v, m - 1);
      assert forall k :: 0 <= k < |h| ==> (h + [v])[k] == h[k];
      assert AllAuto(h + [v], m - 1, m + TAIL) <==> AllAuto(h, m - 1, m + TAIL);
    }
  }

  /** In front of eight autosaves, what is kept ends with a manual save. */
  lemma {:induction false} KeptEndsManually(h: seq<Version>, m: nat)
    requires m + TAIL <= |h| && AllAuto(h, m, m + TAIL)
    ensures KeptBelow(h, m) == [] || !KeptBelow(h, m)[|KeptBelow(h, m)| - 1].autosave
  {
    if m == 0 {
    } else if h[m - 1].autosave {
      KeptEndsManually(h, m - 1);
    }
  }

  lemma {:induction false} RunOfAuto(p: seq<Version>, t: seq<Version>)
    requires forall i :: 0 <= i < |t| ==> t[i].autosave
    requires p == [] || !p[|p| - 1].autosave
    ensures TrailingRun(p + t) == |t|
    decreases |t|
  {
    if t == [] {
      assert p + t == p;
    } else {
      RunOfAuto(p, t[..|t| - 1]);
      assert (p + t)[..|p + t| - 1] == p + t[..|t| - 1];
    }
  }

  /** A manual save within the last nine keeps the run short. */
  lemma {:induction false} RunIsShort(vs: seq<Version>, i: nat)
    requires i < |vs| && !vs[i].autosave
    ensures TrailingRun(vs) < |vs| - i
    decreases |vs|
  {
    if i < |vs| - 1 {
      RunIsShort(vs[..|vs| - 1], i);
    }
  }

  /** Old and new trimmed histories, split where the one element at stake sits. */
  lemma TrimmedSplits(h: seq<Version>, v: Version, m: nat)
    requires m + TAIL == |h|
    ensures Trimmed(h) == KeptBelow(h, m) + h[m..]
    ensures Trimmed(h + [v]) == KeptBelow(h, m) + (if IsKept(h + [v], m) then [h[m]] else []) + (h[m + 1..] + [v])
  {
    var h' := h + [v];
    TailIsKept(h, m, |h|);
    assert h[m..|h|] == h[m..];
    TailIsKept(h', m + 1, |h'|);
    KeptBelowIsStable(h, v, m);
    assert h'[m + 1..|h'|] == h[m + 1..] + [v];
  }

  /** One save keeps the list equal to the trimmed history. */
  lemma SaveTrims(h: seq<Version>, v: Version)
    ensures Saved(Trimmed(h), v) == Trimmed(h + [v])
  {
    hide TrailingRun, KeptBelow;
    if |h| < TAIL {
      ShortIsKept(h);
      ShortIsKept(h + [v]);
    } else {
      hide Trimmed, Saved;
      var m := |h| - TAIL;
      TrimmedSplits(h, v, m);
      if AllAuto(h + [v], m, m + TAIL + 1) {
        DroppedSave(h, v, m);
        assert KeptBelow(h, m) + [] == KeptBelow(h, m);
      } else {
        KeptSave(h, v, m);
        assert [h[m]] + (h[m + 1..] + [v]) == h[m..] + [v];
        assert KeptBelow(h, m) + [h[m]] + (h[m + 1..] + [v]) == KeptBelow(h, m) + h[m..] + [v];
      }
    }
  }

  lemma ShortIsKept(h: seq<Version>)
    requires |h| <= TAIL
    ensures Trimmed(h) == h
  {
    TailIsKept(h, 0, |h|);
    assert KeptBelow(h, 0) == [] && h[0..|h|] == h;
  }

  lemma DroppedSave(h: seq<Version>, v: Version, m: nat)
    requires m + TAIL == |h| && AllAuto(h + [v], m, m + TAIL + 1)
    ensures Saved(KeptBelow(h, m) + h[m..], v) == KeptBelow(h, m) + (h[m + 1..] + [v])
  {
    hide TrailingRun, KeptBelow;
    var p, t := KeptBelow(h, m), h[m..] + [v];
    assert forall k :: m <= k < m + TAIL ==> h[k] == (h + [v])[k];
    KeptEndsManually(h, m);
    assert forall i :: 0 <= i < |t| ==> t[i] == (h + [v])[m + i];
    RunOfAuto(p, t);
    assert v == t[TAIL];
    DropFirst(p, h[m..], v);
    assert h[m..][1..] == h[m + 1..];
  }

  /** A list whose run has grown past the tail loses the first of that run. */
  lemma DropFirst(p: seq<Version>, t: seq<Version>, v: Version)
    requires |t| == TAIL && v.autosave && TrailingRun(p + (t + [v])) == TAIL + 1
    ensures Saved(p + t, v) == p + (t[1..] + [v])
  {
    hide TrailingRun;
    var w := p + t + [v];
    assert w == p + (t + [v]);
    assert w[..|w| - (TAIL + 1)] == p && w[|w| - TAIL..] == t[1..] + [v];
  }

  lemma KeptSave(h: seq<Version>, v: Version, m: nat)
    requires m + TAIL == |h| && !AllAuto(h + [v], m, m + TAIL + 1)
    ensures Saved(KeptBelow(h, m) + h[m..], v) == KeptBelow(h, m) + h[m..] + [v]
  {
    hide TrailingRun;
    var p := KeptBelow(h, m);
    var w := p + h[m..] + [v];
    var k :| m <= k < m + TAIL + 1 && !(h + [v])[k].autosave;
    assert w[|p| + (k - m)] == (h + [v])[k];
    RunIsShort(w, |p| + (k - m));
  }

  /** No nine autosaves in a row. */
  ghost predicate HasShortRuns(vs: seq<Version>) {
    forall i: nat, j: nat :: j == i + 9 <= |vs| ==> !AllAuto(vs, i, j)
  }

  lemma {:induction false} ShortRunsAreKept(vs: seq<Version>, m: nat)
    requires m <= |vs| && HasShortRuns(vs)
    ensures KeptBelow(vs, m) == vs[..m]
  {
    if m == 0 {
    } else {
      ShortRunsAreKept(vs, m - 1);
      assert vs[..m] == vs[..m - 1] + [vs[m - 1]];
    }
  }

  lemma {:induction false} LongRunsAreCut(vs: seq<Version>, m: nat, i: nat)
    requires m <= |vs| && i + 9 <= |vs| && AllAuto(vs, i, i + 9)
    ensures |KeptBelow(vs, m)| <= m && (i < m ==> |KeptBelow(vs, m)| < m)
  {
    if m == 0 {
    } else {
      LongRunsAreCut(vs, m - 1, i);
    }
  }

  /** Main result for one list: after any saves it is the whole history with each run cut to its last eight. */
  lemma {:induction false} SavedFromIsTrimmed(vs: seq<Version>, h: seq<Version>)
    requires HasShortRuns(vs)
    ensures SavedFrom(vs, h) == Trimmed(vs + h)
    decreases |h|
  {
    hide KeptBelow, Saved, HasShortRuns;
    if h == [] {
      ShortRunsAreKept(vs, |vs|);
      assert vs + h == vs == vs[..|vs|];
    } else {
      var n := |h| - 1;
      SavedFromIsTrimmed(vs, h[..n]);
      SaveTrims(vs + h[..n], h[n]);
      assert vs + h[..n] + [h[n]] == vs + h;
    }
  }

  /** The exact condition on the list found: only one with nine autosaves in a row escapes the closed form. */
  lemma TrimmedIffShortRuns(vs: seq<Version>)
    ensures (forall h :: SavedFrom(vs, h) == Trimmed(vs + h)) <==> HasShortRuns(vs)
  {
    if HasShortRuns(vs) {
      forall h
        ensures SavedFrom(vs, h) == Trimmed(vs + h)
      {
        SavedFromIsTrimmed(vs, h);
      }
    } else {
      var i: nat, j: nat :| j == i + 9 <= |vs| && AllAuto(vs, i, j);
      LongRunsAreCut(vs, |vs|, i);
      assert SavedFrom(vs, []) == vs && vs + [] == vs;
    }
  }

  /** The last `n` of a list. */
  ghost function Latest(vs: seq<Version>, n: nat): seq<Version> {
    if |vs| <= n then vs else vs[|vs| - n..]
  }

  /** While only autosaves come, the run they extend keeps its last eight, or its length if it was longer. */
  lemma {:induction false} RunIsCapped(p: seq<Version>, t: seq<Version>, a: seq<Version>)
    requires p == [] || !p[|p| - 1].autosave
    requires AllAuto(t, 0, |t|) && AllAuto(a, 0, |a|)
    ensures SavedFrom(p + t, a) == p + Latest(t + a, if |t| > 8 then |t| else 8)
    decreases |a|
  {
    hide Saved, TrailingRun, Latest;
    var cap := if |t| > 8 then |t| else 8;
    if a == [] {
      LatestOfRun(t, a, cap);
      assert t + a == t;
    } else {
      var n := |a| - 1;
      RunIsCapped(p, t, a[..n]);
      LatestOfRun(t, a[..n], cap);
      CappedSave(p, Latest(t + a[..n], cap), a[n], cap);
      LatestGrows(t + a[..n], a[n], cap);
      assert t + a == t + a[..n] + [a[n]];
    }
  }

  lemma LatestOfRun(t: seq<Version>, a: seq<Version>, cap: nat)
    requires AllAuto(t, 0, |t|) && AllAuto(a, 0, |a|) && cap >= |t|
    ensures var run := Latest(t + a, cap);
      AllAuto(run, 0, |run|) && |t| <= |run| <= cap && (a == [] ==> run == t)
  {
  }

  lemma LatestGrows(s: seq<Version>, v: Version, n: nat)
    requires n > 0
    ensures Latest(Latest(s, n) + [v], n) == Latest(s + [v], n)
  {
  }

  lemma CappedSave(p: seq<Version>, run: seq<Version>, v: Version, cap: nat)
    requires p == [] || !p[|p| - 1].autosave
    requires AllAuto(run, 0, |run|) && v.autosave && |run| <= cap && cap >= 8 && (cap == 8 || |run| == cap)
    ensures Saved(p + run, v) == p + Latest(run + [v], cap)
  {
    hide TrailingRun;
    RunOfAuto(p, run + [v]);
    var w := p + run + [v];
    assert w == p + (run + [v]);
    assert w[..|p|] == p && w[|p| + 1..] == (run + [v])[1..];
  }

  lemma {:induction false} SavedInTurn(vs: seq<Version>, a: seq<Version>, b: seq<Version>)
    ensures SavedFrom(vs, a + b) == SavedFrom(SavedFrom(vs, a), b)
    decreases |b|
  {
    hide Saved;
    if b == [] {
      assert a + b == a;
    } else {
      var n := |b| - 1;
      SavedInTurn(vs, a, b[..n]);
      assert (a + b)[..|a + b| - 1] == a + b[..n];
    }
  }

  /** A run cannot reach back across a manual save. */
  lemma {:induction false} RunStaysBehind(q: seq<Version>, w: seq<Version>)
    requires w != [] && !w[0].autosave
    ensures TrailingRun(q + w) == TrailingRun(w) < |w|
    decreases |w|
  {
    if |w| == 1 {
    } else {
      RunStaysBehind(q, w[..|w| - 1]);
      assert (q + w)[..|q + w| - 1] == q + w[..|w| - 1];
    }
  }

  /** A list without its element at `k`. */
  ghost function Without(u: seq<Version>, k: nat): seq<Version>
    requires k < |u|
  {
    u[..k] + u[k + 1..]
  }

  lemma SavedIs(vs: seq<Version>, v: Version, u: seq<Version>)
    requires u == vs + [v]
    ensures Saved(vs, v) == if v.autosave && TrailingRun(u) > 8 then Without(u, |u| - TrailingRun(u)) else u
  {
    hide TrailingRun;
  }

  lemma SaveStaysBehind(q: seq<Version>, w: seq<Version>, v: Version)
    requires w + [v] != [] && !(w + [v])[0].autosave
    ensures Saved(q + w, v) == q + Saved(w, v) && Saved(w, v) != [] && Saved(w, v)[0] == (w + [v])[0]
  {
    hide TrailingRun, Saved, Without;
    var u := w + [v];
    RunStaysBehind(q, u);
    assert q + w + [v] == q + u;
    SavedIs(q + w, v, q + u);
    SavedIs(w, v, u);
    if TrailingRun(u) > 0 {
      WithoutStaysBehind(q, u, |u| - TrailingRun(u));
    }
  }

  lemma WithoutStaysBehind(q: seq<Version>, u: seq<Version>, k: nat)
    requires 0 < k < |u|
    ensures Without(q + u, |q| + k) == q + Without(u, k) && Without(u, k) != [] && Without(u, k)[0] == u[0]
  {
    assert (q + u)[..|q| + k] == q + u[..k];
    assert (q + u)[|q| + k + 1..] == u[k + 1..];
  }

  /** From the first manual save on, the list starts afresh behind what was there. */
  lemma {:induction false} ManualStartsAfresh(q: seq<Version>, m: seq<Version>)
    requires m != [] && !m[0].autosave
    ensures SavedFrom(q, m) == q + SavedFrom([], m)
    ensures SavedFrom([], m) != [] && SavedFrom([], m)[0] == m[0]
    decreases |m|
  {
    hide Saved, SavedFrom;
    var n := |m| - 1;
    SavedOneMore(q, m);
    SavedOneMore([], m);
    if n == 0 {
      SavedNothing(q);
      SavedNothing([]);
      assert m[..n] == [] && [] + [m[n]] == m && q + [] == q;
    } else {
      ManualStartsAfresh(q, m[..n]);
    }
    SaveStaysBehind(q, SavedFrom([], m[..n]), m[n]);
  }

  /**
   What any list becomes, long runs and all. Everything up to its last manual save stays; the run
   behind that and the autosaves that extend it keep their latest, eight or as many as there were;
   everything from the next manual save on is trimmed.
   */
  lemma SavedFromAny(p: seq<Version>, t: seq<Version>, a: seq<Version>, m: seq<Version>)
    requires p == [] || !p[|p| - 1].autosave
    requires AllAuto(t, 0, |t|) && AllAuto(a, 0, |a|)
    requires m == [] || !m[0].autosave
    ensures SavedFrom(p + t, a + m) == p + Latest(t + a, if |t| > 8 then |t| else 8) + Trimmed(m)
  {
    hide Saved, Trimmed, Latest, SavedFrom;
    SavedInTurn(p + t, a, m);
    RunIsCapped(p, t, a);
    SavedFromIsTrimmed([], m);
    assert [] + m == m;
    if m == [] {
      SavedNothing(SavedFrom(p + t, a));
      SavedNothing([]);
    } else {
      ManualStartsAfresh(SavedFrom(p + t, a), m);
    }
  }

  /** So nine autosaves found in a row stay nine: the next one only moves the window. */
  lemma LongRunStaysLong(t: seq<Version>, v: Version)
    requires |t| == 9 && AllAuto(t, 0, 9) && v.autosave
    ensures SavedFrom(t, [v]) == t[1..] + [v] && !HasShortRuns(SavedFrom(t, [v]))
  {
    hide SavedFrom;
    RunIsCapped([], t, [v]);
    assert [] + t == t;
    var now := Latest(t + [v], 9);
    assert now == t[1..] + [v] && [] + now == now;
    assert AllAuto(now, 0, 9);
  }

  lemma SavedNothing(vs: seq<Version>)
    ensures SavedFrom(vs, []) == vs
  {
  }

  ghost function Manual(h: seq<Version>): seq<Version> {
    if h == [] then []
    else Manual(h[..|h| - 1]) + if h[|h| - 1].autosave then [] else [h[|h| - 1]]
  }

  lemma {:induction false} ManualConcat(a: seq<Version>, b: seq<Version>)
    ensures Manual(a + b) == Manual(a) + Manual(b)
    decreases |b|
  {
    if b == [] {
      assert a + b == a;
    } else {
      ManualConcat(a, b[..|b| - 1]);
      assert (a + b)[..|a + b| - 1] == a + b[..|b| - 1];
    }
  }

  lemma {:induction false} RunIsAuto(vs: seq<Version>)
    ensures forall i :: |vs| - TrailingRun(vs) <= i < |vs| ==> vs[i].autosave
    decreases |vs|
  {
    if vs == [] {
    } else {
      RunIsAuto(vs[..|vs| - 1]);
    }
  }

  lemma SaveKeepsManual(vs: seq<Version>, v: Version)
    ensures Manual(Saved(vs, v)) == Manual(vs) + Manual([v])
  {
    hide Manual, TrailingRun;
    var w := vs + [v];
    ManualConcat(vs, [v]);
    var k := |w| - TrailingRun(w);
    if v.autosave && TrailingRun(w) > TAIL {
      RunIsAuto(w);
      ManualConcat(w[..k], w[k + 1..]);
      ManualConcat(w[..k], [w[k]] + w[k + 1..]);
      ManualConcat([w[k]], w[k + 1..]);
      ManualOfOne(w[k]);
      assert w == w[..k] + ([w[k]] + w[k + 1..]);
    }
  }

  lemma ManualOfOne(v: Version)
    ensures Manual([v]) == if v.autosave then [] else [v]
  {
    assert [v][..0] == [];
  }

  /** Manual saves are never lost or reordered, whatever the list held before. */
  lemma {:induction false} ManualSavesSurvive(vs: seq<Version>, h: seq<Version>)
    ensures Manual(SavedFrom(vs, h)) == Manual(vs) + Manual(h)
    decreases |h|
  {
    hide Saved, SavedFrom, Manual;
    if h == [] {
      SavedNothing(vs);
      ManualOfNone();
    } else {
      var n := |h| - 1;
      ManualSavesSurvive(vs, h[..n]);
      SavedOneMore(vs, h);
      SaveKeepsManual(SavedFrom(vs, h[..n]), h[n]);
      ManualConcat(h[..n], [h[n]]);
      assert h[..n] + [h[n]] == h;
    }
  }

  lemma SavedOneMore(vs: seq<Version>, h: seq<Version>)
    requires h != []
    ensures SavedFrom(vs, h) == Saved(SavedFrom(vs, h[..|h| - 1]), h[|h| - 1])
  {
  }

  lemma ManualOfNone()
    ensures Manual([]) == []
  {
  }

  // ---- the whole store ----

  /** What was accepted under `key`, in order. */
  ghost function History(rs: seq<Request>, key: string): seq<Version> {
    if rs == [] then []
    else
      var r := rs[|rs| - 1];
      History(rs[..|rs| - 1], key) + if IsAccepted(r) && KeyOf(r) == key then [VersionOf(r)] else []
  }

  ghost function StoreAfter(store: map<string, Entry>, rs: seq<Request>): map<string, Entry> {
    if rs == [] then store else Handled(StoreAfter(store, rs[..|rs| - 1]), rs[|rs| - 1])
  }

  /** From any store, each key sees exactly the saves accepted under it. */
  lemma {:induction false} StoreIsSavedHistory(store: map<string, Entry>, rs: seq<Request>, key: string)
    ensures Stored(StoreAfter(store, rs), key) == SavedFrom(Stored(store, key), History(rs, key))
    decreases |rs|
  {
    hide Saved, IsAccepted, KeyOf;
    if rs == [] {
    } else {
      var n := |rs| - 1;
      StoreIsSavedHistory(store, rs[..n], key);
      var was := History(rs[..n], key);
      if IsAccepted(rs[n]) && KeyOf(rs[n]) == key {
        assert History(rs, key) == was + [VersionOf(rs[n])];
        assert History(rs, key)[..|was|] == was;
      } else {
        assert History(rs, key) == was;
      }
    }
  }

  /**
   Main result for the store: every key holds what was stored there followed by what was accepted
   under it, trimmed, whatever else was posted; for every run exactly if no long run was stored.
   */
  lemma StoreIsTrimmedHistory(store: map<string, Entry>, key: string)
    ensures (forall rs :: Stored(StoreAfter(store, rs), key) == Trimmed(Stored(store, key) + History(rs, key)))
       <==> HasShortRuns(Stored(store, key))
  {
    hide Trimmed, SavedFrom, HasShortRuns;
    var vs := Stored(store, key);
    if HasShortRuns(vs) {
      forall rs
        ensures Stored(StoreAfter(store, rs), key) == Trimmed(vs + History(rs, key))
      {
        StoreIsSavedHistory(store, rs, key);
        SavedFromIsTrimmed(vs, History(rs, key));
      }
    } else {
      FoundLongRun(vs);
      var none: seq<Request> := [];
      assert StoreAfter(store, none) == store && vs + History(none, key) == vs;
      assert Stored(StoreAfter(store, none), key) != Trimmed(vs + History(none, key));
    }
  }

  lemma FoundLongRun(vs: seq<Version>)
    requires !HasShortRuns(vs)
    ensures Trimmed(vs) != vs
  {
    var i: nat, j: nat :| j == i + 9 <= |vs| && AllAuto(vs, i, j);
    LongRunsAreCut(vs, |vs|, i);
  }

  /** A key not yet stored, or stored in the older format, has no long run. */
  lemma FreshKeysAreTrimmed(store: map<string, Entry>, rs: seq<Request>, key: string)
    requires key !in store || store[key].Bare?
    ensures Stored(StoreAfter(store, rs), key)
         == Trimmed((if key in store then [store[key].version] else []) + History(rs, key))
  {
    StoreIsSavedHistory(store, rs, key);
    SavedFromIsTrimmed(Stored(store, key), History(rs, key));
  }

  ghost predicate IsPlain(s: string) {
    '.' !in s && '-' !in s
  }

  lemma NamesArePlain(s: string)
    requires s in BODIES || s in SLOTS
    ensures IsPlain(s)
  {
  }

  /** Reading a key back: the body before the dot, and the destination after the arrow. */
  lemma StateKeyReads(body: string, slot: string)
    requires IsPlain(body) && IsPlain(slot)
    ensures Split(StateKey(body, slot), '.') == [body, slot] && Split(slot, '-') == [slot]
  {
    hide Split;
    SplitAtFirst(body, slot, '.');
    SplitWhole(slot, '.');
    SplitWhole(slot, '-');
  }

  lemma TransitionKeyReads(body: string, slot: string, to: string)
    requires IsPlain(body) && IsPlain(slot) && IsPlain(to)
    ensures Split(TransitionKey(body, slot, to), '.') == [body, slot + "->" + to]
    ensures Split(slot + "->" + to, '-') == [slot, ">" + to]
  {
    hide Split;
    var rest := slot + "->" + to;
    assert TransitionKey(body, slot, to) == body + ['.'] + rest;
    SplitAtFirst(body, rest, '.');
    SplitWhole(rest, '.');
    assert rest == slot + ['-'] + (">" + to);
    SplitAtFirst(slot, ">" + to, '-');
    SplitWhole(">" + to, '-');
  }

  lemma KeyReads(r: Request)
    requires IsAccepted(r)
    ensures Split(KeyOf(r), '.') == [r.body, if r.to == "" then r.slot else r.slot + "->" + r.to]
    ensures Split(Split(KeyOf(r), '.')[1], '-') == if r.to == "" then [r.slot] else [r.slot, ">" + r.to]
  {
    hide Split, IsPlain, StateKey, TransitionKey;
    NamesArePlain(r.body);
    NamesArePlain(r.slot);
    if r.to == "" {
      StateKeyReads(r.body, r.slot);
    } else {
      NamesArePlain(r.to);
      TransitionKeyReads(r.body, r.slot, r.to);
    }
  }

  /** Two accepted requests share a key exactly when they name the same look or the same transition. */
  lemma KeysNeverCollide(r: Request, q: Request)
    requires IsAccepted(r) && IsAccepted(q)
    ensures KeyOf(r) == KeyOf(q) <==> r.body == q.body && r.slot == q.slot && r.to == q.to
  {
    hide Split, StateKey, TransitionKey, IsAccepted;
    KeyReads(r);
    KeyReads(q);
    if KeyOf(r) == KeyOf(q) {
      assert r.body == Split(KeyOf(r), '.')[0] == q.body;
      var parts := Split(Split(KeyOf(r), '.')[1], '-');
      assert r.slot == parts[0] == q.slot;
      assert (">" + r.to)[1..] == r.to && (">" + q.to)[1..] == q.to;
    }
  }

  /** A transition's takes are all kept, in any store: none of them is an autosave. */
  lemma TakesAreAllKept(store: map<string, Entry>, rs: seq<Request>, r: Request)
    requires IsAccepted(r) && r.to != ""
    ensures Stored(StoreAfter(store, rs), KeyOf(r)) == Stored(store, KeyOf(r)) + History(rs, KeyOf(r))
  {
    hide IsAccepted, KeyOf;
    StoreIsSavedHistory(store, rs, KeyOf(r));
    TakesAreManual(rs, r);
    ManualsAreAppended(Stored(store, KeyOf(r)), History(rs, KeyOf(r)));
  }

  lemma {:induction false} TakesAreManual(rs: seq<Request>, r: Request)
    requires IsAccepted(r) && r.to != ""
    ensures forall i :: 0 <= i < |History(rs, KeyOf(r))| ==> !History(rs, KeyOf(r))[i].autosave
    decreases |rs|
  {
    if rs == [] {
    } else {
      var last := rs[|rs| - 1];
      TakesAreManual(rs[..|rs| - 1], r);
      if IsAccepted(last) { KeysNeverCollide(last, r); }
    }
  }

  lemma {:induction false} ManualsAreAppended(vs: seq<Version>, h: seq<Version>)
    requires forall i :: 0 <= i < |h| ==> !h[i].autosave
    ensures SavedFrom(vs, h) == vs + h
    decreases |h|
  {
    hide TrailingRun;
    if h == [] {
    } else {
      ManualsAreAppended(vs, h[..|h| - 1]);
    }
  }
}

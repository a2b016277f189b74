/**
 The byte stream whose hash pins the generated protocol schemas: every file of a directory tree,
 in path order, as its relative path, a space, the digest of its canonical JSON and a line feed.
 */
module BundleDigest {
  import opened Options
  import opened Text

  /** A directory entry as the scan sees it; a file stands for the digest of its canonical JSON. */
  datatype Node = File(digest: string) | Dir(entries: seq<Entry>) | Link | Special

  datatype Entry = Entry(name: string, node: Node)

  datatype Found = Found(path: seq<string>, digest: string)

  predicate IsPortable(component: string) {
    component != "" && forall c :: c in component ==>
      'a' <= c <= 'z' || 'A' <= c <= 'Z' || '0' <= c <= '9' || c in "._-"
  }

  /** `path.suffix == ".json"`: a name that is all suffix has none. */
  predicate IsJsonName(name: string) {
    |name| > 5 && name[|name| - 5..] == ".json"
  }

  predicate IsPortablePath(path: seq<string>) {
    forall i :: 0 <= i < |path| ==> IsPortable(path[i])
  }

  /** Letters, digits, dot, underscore and hyphen, by code. */
  ghost predicate IsPortableCode(n: int) {
    97 <= n <= 122 || 65 <= n <= 90 || 48 <= n <= 57 || n == 46 || n == 95 || n == 45
  }

  lemma PortableIffListed(name: string)
    ensures IsPortable(name) <==> name != "" && forall i :: 0 <= i < |name| ==> IsPortableCode(name[i] as int)
  {
    if IsPortable(name) {
      assert forall i :: 0 <= i < |name| ==> name[i] in name;
    }
    if forall i :: 0 <= i < |name| ==> IsPortableCode(name[i] as int) {
      forall c | c in name
        ensures 'a' <= c <= 'z' || 'A' <= c <= 'Z' || '0' <= c <= '9' || c in "._-"
      {
        var i :| 0 <= i < |name| && name[i] == c;
        assert IsPortableCode(name[i] as int);
      }
    }
  }

  /** A file's name is something and then `.json`. */
  lemma JsonNameIffSuffixed(name: string)
    ensures IsJsonName(name) <==> exists stem :: stem != "" && name == stem + ".json"
  {
    if IsJsonName(name) {
      var stem := name[..|name| - 5];
      assert stem != "" && name == stem + ".json";
    }
    if stem :| stem != "" && name == stem + ".json" {
      assert name[|name| - 5..] == ".json";
    }
  }

  function PathText(f: Found): string {
    Join(f.path, '/')
  }

  // ---- what a tree holds ----

  /** Every file below a directory, with its path from the root. */
  ghost function FilesOf(entries: seq<Entry>, at: seq<string>): multiset<Found> {
    if entries == [] then multiset{}
    else FilesIn(entries[0], at) + FilesOf(entries[1..], at)
  }

  ghost function FilesIn(e: Entry, at: seq<string>): multiset<Found> {
    match e.node
    case File(digest) => multiset{Found(at + [e.name], digest)}
    case Dir(entries) => FilesOf(entries, at + [e.name])
    case _ => multiset{}
  }

  /** Nothing the scan refuses: links, special files, non-JSON names, unportable paths. */
  ghost predicate IsValid(entries: seq<Entry>, at: seq<string>) {
    entries == [] || (IsValidEntry(entries[0], at) && IsValid(entries[1..], at))
  }

  ghost predicate IsValidEntry(e: Entry, at: seq<string>) {
    match e.node
    case File(_) => IsJsonName(e.name) && IsPortablePath(at + [e.name])
    case Dir(entries) => IsValid(entries, at + [e.name])
    case _ => false
  }

  /** Directories below and including this one. */
  ghost function DirCount(entries: seq<Entry>): nat {
    if entries == [] then 1
    else (if entries[0].node.Dir? then DirCount(entries[0].node.entries) else 0) + DirCount(entries[1..])
  }

  // ---- the scan ----

  datatype Pending = Pending(at: seq<string>, entries: seq<Entry>)

  ghost function PendingFiles(ps: seq<Pending>): multiset<Found> {
    if ps == [] then multiset{}
    else PendingFiles(ps[..|ps| - 1]) + FilesOf(ps[|ps| - 1].entries, ps[|ps| - 1].at)
  }

  ghost predicate PendingValid(ps: seq<Pending>) {
    forall i :: 0 <= i < |ps| ==> IsValid(ps[i].entries, ps[i].at)
  }

  ghost function PendingDirs(ps: seq<Pending>): nat {
    if ps == [] then 0 else PendingDirs(ps[..|ps| - 1]) + DirCount(ps[|ps| - 1].entries)
  }

  /** The stack of directories still to list; each is popped once and its files collected. */
  method Scan(root: seq<Entry>) returns (r: Option<seq<Found>>)
    ensures r.Some? <==> IsValid(root, [])
    ensures r.Some? ==> multiset(r.value) == FilesOf(root, [])
  {
    hide FilesOf, IsValid, DirCount;
    var pending := [Pending([], root)];
    var files: seq<Found> := [];
    assert pending[..0] == [];
    while pending != []
      invariant multiset(files) + PendingFiles(pending) == FilesOf(root, [])
      invariant PendingValid(pending) <==> IsValid(root, [])
      decreases PendingDirs(pending)
    {
      var dir := pending[|pending| - 1];
      ghost var ps := pending;
      pending := pending[..|pending| - 1];
      PopValid(ps);
      var ok, more, found := ListDirectory(dir);
      if !ok {
        return None;
      }
      PushAll(pending, more);
      pending := pending + more;
      files := files + found;
    }
    return Some(files);
  }

  lemma PopValid(ps: seq<Pending>)
    requires ps != []
    ensures PendingValid(ps) <==> PendingValid(ps[..|ps| - 1]) && IsValid(ps[|ps| - 1].entries, ps[|ps| - 1].at)
  {
    hide IsValid;
    var n := |ps| - 1;
    if PendingValid(ps[..n]) && IsValid(ps[n].entries, ps[n].at) {
      forall i | 0 <= i < |ps|
        ensures IsValid(ps[i].entries, ps[i].at)
      {
        if i < n { assert ps[..n][i] == ps[i]; }
      }
    }
  }

  lemma {:induction false} PushAll(ps: seq<Pending>, more: seq<Pending>)
    ensures PendingFiles(ps + more) == PendingFiles(ps) + PendingFiles(more)
    ensures PendingValid(ps + more) <==> PendingValid(ps) && PendingValid(more)
    ensures PendingDirs(ps + more) == PendingDirs(ps) + PendingDirs(more)
    decreases |more|
  {
    hide FilesOf, IsValid, DirCount, PendingFiles, PendingValid, PendingDirs;
    if more == [] {
      NothingPending([]);
      assert ps + more == ps;
    } else {
      var n := |more| - 1;
      PushAll(ps, more[..n]);
      PushOne(ps + more[..n], more[n]);
      PushOne(more[..n], more[n]);
      assert more[..n] + [more[n]] == more;
      assert ps + more[..n] + [more[n]] == ps + more;
    }
  }

  /** One directory: its files, and its subdirectories for later. */
  method ListDirectory(dir: Pending) returns (ok: bool, more: seq<Pending>, found: seq<Found>)
    ensures ok ==> (IsValid(dir.entries, dir.at) <==> PendingValid(more))
    ensures !ok ==> !IsValid(dir.entries, dir.at)
    ensures ok ==> multiset(found) + PendingFiles(more) == FilesOf(dir.entries, dir.at)
    ensures ok ==> PendingDirs(more) + 1 == DirCount(dir.entries)
  {
    hide PendingFiles, PendingDirs, PendingValid, FilesOf, FilesIn, IsValid, DirCount;
    ok, more, found := true, [], [];
    var i := 0;
    NothingPending(dir.at);
    assert dir.entries[0..] == dir.entries;
    while i < |dir.entries|
      invariant 0 <= i <= |dir.entries|
      invariant multiset(found) + PendingFiles(more) + FilesOf(dir.entries[i..], dir.at) == FilesOf(dir.entries, dir.at)
      invariant IsValid(dir.entries, dir.at) <==> PendingValid(more) && IsValid(dir.entries[i..], dir.at)
      invariant PendingDirs(more) + DirCount(dir.entries[i..]) == DirCount(dir.entries)
    {
      var e := dir.entries[i];
      ghost var rest := dir.entries[i..];
      assert rest[0] == e && rest[1..] == dir.entries[i + 1..];
      FirstEntry(rest, dir.at);
      if e.node.Link? || e.node.Special? {
        return false, more, found;
      }
      if e.node.Dir? {
        var sub := Pending(dir.at + [e.name], e.node.entries);
        PushOne(more, sub);
        more := more + [sub];
      } else {
        if !IsJsonName(e.name) || !IsPortablePath(dir.at + [e.name]) {
          return false, more, found;
        }
        found := found + [Found(dir.at + [e.name], e.node.digest)];
      }
      i := i + 1;
    }
    assert dir.entries[i..] == [];
  }

  lemma NothingPending(at: seq<string>)
    ensures PendingFiles([]) == multiset{} && PendingValid([]) && PendingDirs([]) == 0
    ensures FilesOf([], at) == multiset{} && IsValid([], at) && DirCount([]) == 1
  {
  }

  lemma PushOne(ps: seq<Pending>, p: Pending)
    ensures PendingFiles(ps + [p]) == PendingFiles(ps) + FilesOf(p.entries, p.at)
    ensures PendingValid(ps + [p]) <==> PendingValid(ps) && IsValid(p.entries, p.at)
    ensures PendingDirs(ps + [p]) == PendingDirs(ps) + DirCount(p.entries)
  {
    hide FilesOf, IsValid, DirCount;
    var all := ps + [p];
    assert all[..|all| - 1] == ps && all[|all| - 1] == p;
    PopValid(all);
  }

  /** The first entry's share in what its directory holds. */
  lemma FirstEntry(entries: seq<Entry>, at: seq<string>)
    requires entries != []
    ensures var e := entries[0]; var rest := entries[1..];
      && (e.node.File? ==>
            && FilesOf(entries, at) == multiset{Found(at + [e.name], e.node.digest)} + FilesOf(rest, at)
            && (IsValid(entries, at) <==> IsJsonName(e.name) && IsPortablePath(at + [e.name]) && IsValid(rest, at))
            && DirCount(entries) == DirCount(rest))
      && (e.node.Dir? ==>
            && FilesOf(entries, at) == FilesOf(e.node.entries, at + [e.name]) + FilesOf(rest, at)
            && (IsValid(entries, at) <==> IsValid(e.node.entries, at + [e.name]) && IsValid(rest, at))
            && DirCount(entries) == DirCount(e.node.entries) + DirCount(rest))
      && (e.node.Link? || e.node.Special? ==> !IsValid(entries, at))
  {
  }

  // ---- path order ----

  predicate LexLeq(a: string, b: string) {
    a == "" || (b != "" && (a[0] < b[0] || (a[0] == b[0] && LexLeq(a[1..], b[1..]))))
  }

  /** The order of strings: a prefix first, otherwise by the first character that differs. */
  lemma {:induction false} LexIsFirstDifference(a: string, b: string)
    ensures LexLeq(a, b) <==> a <= b || exists i: nat :: DiffersFirst(a, b, i)
  {
    if a == "" || b == "" {
    } else {
      LexIsFirstDifference(a[1..], b[1..]);
      assert a <= b <==> a[0] == b[0] && a[1..] <= b[1..];
      if a[0] < b[0] {
        assert DiffersFirst(a, b, 0);
      }
      if i: nat :| DiffersFirst(a, b, i) {
        if i > 0 {
          DifferenceMoves(a, b, i);
        }
      }
      if a[0] == b[0] {
        if i: nat :| DiffersFirst(a[1..], b[1..], i) {
          DifferenceMoves(a, b, i + 1);
        }
      }
    }
  }

  /** Position `i` is the first difference, and `a` has the smaller character there. */
  ghost predicate DiffersFirst(a: string, b: string, i: nat) {
    i < |a| && i < |b| && a[..i] == b[..i] && a[i] < b[i]
  }

  lemma DifferenceMoves(a: string, b: string, i: nat)
    requires a != "" && b != "" && i > 0
    ensures DiffersFirst(a, b, i) <==> a[0] == b[0] && DiffersFirst(a[1..], b[1..], i - 1)
  {
    if i < |a| && i < |b| {
      assert a[..i] == [a[0]] + a[1..][..i - 1] && b[..i] == [b[0]] + b[1..][..i - 1];
      assert a[1..][..i - 1] == a[..i][1..] && b[1..][..i - 1] == b[..i][1..];
    }
  }

  lemma {:induction false} LexTotal(a: string, b: string)
    ensures LexLeq(a, b) || LexLeq(b, a)
  {
    if a == "" || b == "" {
    } else {
      LexTotal(a[1..], b[1..]);
    }
  }

  lemma {:induction false} LexAntisymmetric(a: string, b: string)
    requires LexLeq(a, b) && LexLeq(b, a)
    ensures a == b
  {
    if a == "" || b == "" {
    } else {
      LexAntisymmetric(a[1..], b[1..]);
      assert a == [a[0]] + a[1..] && b == [b[0]] + b[1..];
    }
  }

  lemma {:induction false} LexTransitive(a: string, b: string, c: string)
    requires LexLeq(a, b) && LexLeq(b, c)
    ensures LexLeq(a, c)
  {
    if a == "" {
    } else if a[0] == b[0] == c[0] {
      LexTransitive(a[1..], b[1..], c[1..]);
    }
  }

  ghost predicate InOrder(fs: seq<Found>) {
    forall i, j :: 0 <= i < j < |fs| ==> LexLeq(PathText(fs[i]), PathText(fs[j]))
  }

  function Insert(f: Found, fs: seq<Found>): seq<Found> {
    if fs == [] || LexLeq(PathText(f), PathText(fs[0])) then [f] + fs else [fs[0]] + Insert(f, fs[1..])
  }

  /** `sorted(files, key=...)` */
  function SortByPath(fs: seq<Found>): seq<Found> {
    if fs == [] then [] else Insert(fs[0], SortByPath(fs[1..]))
  }

  lemma {:induction false} InsertKeeps(f: Found, fs: seq<Found>)
    requires InOrder(fs)
    ensures multiset(Insert(f, fs)) == multiset{f} + multiset(fs) && InOrder(Insert(f, fs))
  {
    hide PathText, LexLeq;
    if fs == [] {
    } else {
      assert fs == [fs[0]] + fs[1..];
      if LexLeq(PathText(f), PathText(fs[0])) {
        forall i | 0 <= i < |fs|
          ensures LexLeq(PathText(f), PathText(fs[i]))
        {
          if i > 0 { LexTransitive(PathText(f), PathText(fs[0]), PathText(fs[i])); }
        }
      } else {
        LexTotal(PathText(f), PathText(fs[0]));
        InsertKeeps(f, fs[1..]);
        var rest := Insert(f, fs[1..]);
        forall i | 0 <= i < |rest|
          ensures LexLeq(PathText(fs[0]), PathText(rest[i]))
        {
          assert rest[i] in multiset(rest);
          assert rest[i] == f || rest[i] in fs[1..];
        }
      }
    }
  }

  lemma {:induction false} SortSorts(fs: seq<Found>)
    ensures multiset(SortByPath(fs)) == multiset(fs) && InOrder(SortByPath(fs))
  {
    if fs == [] {
    } else {
      SortSorts(fs[1..]);
      InsertKeeps(fs[0], SortByPath(fs[1..]));
      assert fs == [fs[0]] + fs[1..];
    }
  }

  /** Distinct files have distinct path texts. */
  ghost predicate PathsAreKeys(fs: multiset<Found>) {
    && (forall f :: f in fs ==> fs[f] == 1)
    && (forall f, g :: f in fs && g in fs && PathText(f) == PathText(g) ==> f == g)
  }

  /** Only one ordering of such files exists. */
  lemma {:induction false} OrderIsUnique(a: seq<Found>, b: seq<Found>)
    requires InOrder(a) && InOrder(b) && multiset(a) == multiset(b) && PathsAreKeys(multiset(a))
    ensures a == b
  {
    hide PathText, LexLeq, InOrder, PathsAreKeys;
    assert |a| == |multiset(a)| == |b|;
    if a == [] {
    } else {
      SameFirst(a, b);
      TailKeepsOrder(a);
      TailKeepsOrder(b);
      OrderIsUnique(a[1..], b[1..]);
      assert a == [a[0]] + a[1..] && b == [b[0]] + b[1..];
    }
  }

  /** The first in order precedes, and is preceded by, the first of the other listing. */
  lemma SameFirst(a: seq<Found>, b: seq<Found>)
    requires a != [] && b != [] && InOrder(a) && InOrder(b) && multiset(a) == multiset(b) && PathsAreKeys(multiset(a))
    ensures a[0] == b[0]
  {
    hide PathText, LexLeq;
    assert a[0] in multiset(b) && b[0] in multiset(a);
    FirstIsLeast(a, b[0]);
    FirstIsLeast(b, a[0]);
    LexAntisymmetric(PathText(a[0]), PathText(b[0]));
  }

  lemma FirstIsLeast(a: seq<Found>, f: Found)
    requires a != [] && InOrder(a) && f in a
    ensures LexLeq(PathText(a[0]), PathText(f))
  {
    hide PathText, LexLeq;
    var i :| 0 <= i < |a| && a[i] == f;
    if i == 0 { LexTotal(PathText(f), PathText(f)); }
  }

  lemma FewerAreKeys(fs: multiset<Found>, fewer: multiset<Found>)
    requires PathsAreKeys(fs) && fewer <= fs
    ensures PathsAreKeys(fewer)
  {
    hide PathText;
    forall f | f in fewer
      ensures f in fs && fewer[f] == 1
    {
      assert 0 < fewer[f] <= fs[f] == 1;
    }
  }

  lemma TailInOrder(a: seq<Found>)
    requires a != [] && InOrder(a)
    ensures InOrder(a[1..])
  {
    hide PathText, LexLeq;
    forall i, j | 0 <= i < j < |a[1..]|
      ensures LexLeq(PathText(a[1..][i]), PathText(a[1..][j]))
    {
      assert a[1..][i] == a[i + 1] && a[1..][j] == a[j + 1];
    }
  }

  lemma TailKeepsOrder(a: seq<Found>)
    requires a != [] && InOrder(a) && PathsAreKeys(multiset(a))
    ensures InOrder(a[1..]) && PathsAreKeys(multiset(a[1..]))
    ensures multiset(a[1..]) == multiset(a) - multiset{a[0]}
  {
    hide PathText, LexLeq, InOrder, PathsAreKeys;
    assert a == [a[0]] + a[1..];
    assert multiset(a) == multiset{a[0]} + multiset(a[1..]);
    FewerAreKeys(multiset(a), multiset(a[1..]));
    TailInOrder(a);
  }

  // ---- the stream ----

  /** All the files of a tree, in path order. */
  ghost predicate IsOrderedListing(fs: seq<Found>, root: seq<Entry>) {
    multiset(fs) == FilesOf(root, []) && InOrder(fs)
  }

  function Line(f: Found): string {
    PathText(f) + " " + f.digest + "\n"
  }

  function Stream(fs: seq<Found>): string {
    if fs == [] then "" else Line(fs[0]) + Stream(fs[1..])
  }

  /** Python's `_canonical_bundle_sha256` up to the hash: the stream and the file count. */
  method BundleStream(root: seq<Entry>) returns (r: Option<string>, count: nat)
    ensures r.Some? <==> IsValid(root, [])
    ensures r.Some? ==> exists fs :: IsOrderedListing(fs, root) && r.value == Stream(fs) && count == |fs|
  {
    hide InOrder, IsValid, FilesOf, Stream, PathText;
    var scanned := Scan(root);
    if scanned.None? { return None, 0; }
    var files := SortByPath(scanned.value);
    SortSorts(scanned.value);
    assert IsOrderedListing(files, root);
    var out := "";
    assert files[0..] == files && "" + Stream(files) == Stream(files);
    for i := 0 to |files|
      invariant Stream(files) == out + Stream(files[i..])
    {
      StreamStep(files, i, out);
      out := out + PathText(files[i]);
      out := out + " ";
      out := out + files[i].digest;
      out := out + "\n";
    }
    assert files[|files|..] == [];
    StreamIsEmpty([]);
    return Some(out), |files|;
  }

  lemma StreamStep(fs: seq<Found>, i: nat, out: string)
    requires i < |fs|
    ensures out + Stream(fs[i..]) == out + PathText(fs[i]) + " " + fs[i].digest + "\n" + Stream(fs[i + 1..])
  {
    hide PathText;
    assert fs[i..][1..] == fs[i + 1..];
    assert Stream(fs[i..]) == PathText(fs[i]) + " " + fs[i].digest + "\n" + Stream(fs[i + 1..]);
  }

  lemma StreamIsEmpty(fs: seq<Found>)
    ensures Stream(fs) == "" <==> fs == []
  {
  }

  lemma SameUpTo(a: string, b: string, c: char, x: string, y: string)
    requires c !in a && c !in b && a + [c] + x == b + [c] + y
    ensures a == b && x == y
  {
    SplitIndex(a, b, c, x, y);
    assert a == (a + [c] + x)[..|a|] && b == (b + [c] + y)[..|b|];
    assert x == (a + [c] + x)[|a| + 1..] && y == (b + [c] + y)[|b| + 1..];
  }

  lemma SplitIndex(a: string, b: string, c: char, x: string, y: string)
    requires c !in a && c !in b && a + [c] + x == b + [c] + y
    ensures |a| == |b|
  {
    var s := a + [c] + x;
    assert s[|a|] == c && s[|b|] == c;
    assert forall i :: 0 <= i < |a| ==> s[i] == a[i];
    assert forall i :: 0 <= i < |b| ==> s[i] == b[i];
  }

  ghost predicate IsFramed(f: Found) {
    ' ' !in PathText(f) && '\n' !in f.digest
  }

  /** A path cannot contain the space and a digest cannot contain the line feed, so the stream parses one way. */
  lemma {:induction false} StreamParses(a: seq<Found>, b: seq<Found>)
    requires forall f :: f in a || f in b ==> IsFramed(f)
    requires Stream(a) == Stream(b)
    ensures |a| == |b|
    ensures forall i :: 0 <= i < |a| ==> PathText(a[i]) == PathText(b[i]) && a[i].digest == b[i].digest
  {
    hide PathText;
    StreamIsEmpty(a);
    StreamIsEmpty(b);
    if a == [] {
    } else {
      var ra, rb := Stream(a[1..]), Stream(b[1..]);
      assert IsFramed(a[0]) && IsFramed(b[0]);
      var xa, xb := a[0].digest + ['\n'] + ra, b[0].digest + ['\n'] + rb;
      assert Stream(a) == PathText(a[0]) + [' '] + xa;
      assert Stream(b) == PathText(b[0]) + [' '] + xb;
      SameUpTo(PathText(a[0]), PathText(b[0]), ' ', xa, xb);
      SameUpTo(a[0].digest, b[0].digest, '\n', ra, rb);
      StreamParses(a[1..], b[1..]);
      forall i | 0 <= i < |a|
        ensures PathText(a[i]) == PathText(b[i]) && a[i].digest == b[i].digest
      {
        if i > 0 { assert a[i] == a[1..][i - 1] && b[i] == b[1..][i - 1]; }
      }
    }
  }

  // ---- trees of a file system ----

  ghost predicate IsHex(s: string) {
    forall c :: c in s ==> '0' <= c <= '9' || 'a' <= c <= 'f'
  }

  /** What the file system and the hash guarantee: names differ within a directory, digests are hexadecimal. */
  ghost predicate IsTree(entries: seq<Entry>) {
    entries == [] ||
    (&& (forall i :: 0 < i < |entries| ==> entries[i].name != entries[0].name)
     && IsTree(entries[1..])
     && match entries[0].node
        case File(digest) => IsHex(digest)
        case Dir(below) => IsTree(below)
        case _ => true)
  }

  /** Every file found below `at` lies on a path through one of the entries' names. */
  ghost predicate LiesUnder(f: Found, at: seq<string>, name: string) {
    |at| < |f.path| && f.path[..|at|] == at && f.path[|at|] == name
  }

  lemma {:induction false} FoundUnder(entries: seq<Entry>, at: seq<string>, f: Found)
    requires f in FilesOf(entries, at)
    ensures exists i :: 0 <= i < |entries| && LiesUnder(f, at, entries[i].name)
    ensures IsTree(entries) ==> IsHex(f.digest)
    ensures IsValid(entries, at) ==> IsPortablePath(f.path)
    decreases entries
  {
    if f in FilesIn(entries[0], at) {
      FoundIn(entries[0], at, f);
    } else {
      FoundUnder(entries[1..], at, f);
      var i :| 0 <= i < |entries[1..]| && LiesUnder(f, at, entries[1..][i].name);
      assert LiesUnder(f, at, entries[i + 1].name);
    }
  }

  lemma {:induction false} FoundIn(e: Entry, at: seq<string>, f: Found)
    requires f in FilesIn(e, at)
    ensures LiesUnder(f, at, e.name)
    ensures e.node.File? ==> f == Found(at + [e.name], e.node.digest)
    ensures e.node.Dir? && IsTree(e.node.entries) ==> IsHex(f.digest)
    ensures IsValidEntry(e, at) ==> IsPortablePath(f.path)
    decreases e
  {
    if e.node.Dir? {
      FoundUnder(e.node.entries, at + [e.name], f);
      var i :| 0 <= i < |e.node.entries| && LiesUnder(f, at + [e.name], e.node.entries[i].name);
      assert f.path[..|at|] == f.path[..|at| + 1][..|at|] == at;
      assert f.path[|at|] == f.path[..|at| + 1][|at|] == e.name;
    }
  }

  /** Each file is found exactly once and its path determines it. */
  lemma {:induction false} FoundOnce(entries: seq<Entry>, at: seq<string>)
    requires IsTree(entries)
    ensures forall f :: f in FilesOf(entries, at) ==> FilesOf(entries, at)[f] == 1
    ensures forall f, g :: f in FilesOf(entries, at) && g in FilesOf(entries, at) && f.path == g.path ==> f == g
    decreases entries
  {
    if entries == [] {
    } else {
      var e, rest := entries[0], entries[1..];
      FoundOnce(rest, at);
      if e.node.Dir? { FoundOnce(e.node.entries, at + [e.name]); }
      forall f, g | f in FilesIn(e, at) && g in FilesOf(rest, at)
        ensures f.path != g.path
      {
        FoundIn(e, at, f);
        FoundUnder(rest, at, g);
        var i :| 0 <= i < |rest| && LiesUnder(g, at, rest[i].name);
        assert rest[i].name == entries[i + 1].name;
      }
    }
  }

  lemma {:induction false} JoinHasNone(parts: seq<string>, c: char)
    requires c != '/' && forall i :: 0 <= i < |parts| ==> c !in parts[i]
    ensures c !in Join(parts, '/')
  {
    if parts == [] {
    } else {
      JoinHasNone(parts[1..], c);
    }
  }

  lemma PortableText(f: Found)
    requires IsPortablePath(f.path) && f.path != []
    ensures ' ' !in PathText(f) && Split(PathText(f), '/') == f.path
  {
    JoinHasNone(f.path, ' ');
    SplitUndoesJoin(f.path, '/');
  }

  lemma TreeIsKeyed(root: seq<Entry>)
    requires IsTree(root) && IsValid(root, [])
    ensures PathsAreKeys(FilesOf(root, []))
    ensures forall f :: f in FilesOf(root, []) ==> IsFramed(f) && Split(PathText(f), '/') == f.path
  {
    hide PathText, FilesOf, IsTree, IsValid;
    FoundOnce(root, []);
    forall f | f in FilesOf(root, [])
      ensures IsFramed(f) && Split(PathText(f), '/') == f.path
    {
      FoundUnder(root, [], f);
      PortableText(f);
    }
  }

  /** The line of one file, without its line feed, read back. */
  ghost predicate LineReads(line: string, f: Found) {
    Split(line, ' ') == [Join(f.path, '/'), f.digest] && Split(Join(f.path, '/'), '/') == f.path
  }

  /** The stream, cut at its line feeds, is one line per file and the empty rest. */
  ghost predicate StreamReads(lines: seq<string>, fs: seq<Found>) {
    && |lines| == |fs| + 1 && lines[|fs|] == ""
    && forall i :: 0 <= i < |fs| ==> LineReads(lines[i], fs[i])
  }

  /** Path, space, digest, line feed, for each file in turn: the stream of an acceptable tree can be read back. */
  lemma {:induction false} StreamReadsBack(fs: seq<Found>)
    requires forall f :: f in fs ==> IsPortablePath(f.path) && f.path != [] && IsHex(f.digest)
    ensures StreamReads(Split(Stream(fs), '\n'), fs)
  {
    hide Split, IsPortablePath, IsHex, LineReads;
    if fs == [] {
      SplitWhole("", '\n');
    } else {
      assert fs[0] in fs;
      var line, rest := PathText(fs[0]) + [' '] + fs[0].digest, Stream(fs[1..]);
      LineReadsBack(fs[0]);
      assert Stream(fs) == line + ['\n'] + rest;
      SplitAtFirst(line, rest, '\n');
      StreamReadsBack(fs[1..]);
      var lines := [line] + Split(rest, '\n');
      forall i | 0 <= i < |fs|
        ensures LineReads(lines[i], fs[i])
      {
        if i > 0 { assert lines[i] == Split(rest, '\n')[i - 1] && fs[i] == fs[1..][i - 1]; }
      }
    }
  }

  lemma LineReadsBack(f: Found)
    requires IsPortablePath(f.path) && f.path != [] && IsHex(f.digest)
    ensures LineReads(PathText(f) + [' '] + f.digest, f) && '\n' !in PathText(f) + [' '] + f.digest
  {
    hide Split;
    PortableText(f);
    JoinHasNone(f.path, '\n');
    SplitAtFirst(PathText(f), f.digest, ' ');
    SplitWhole(f.digest, ' ');
  }

  /** So can that of the files of a tree in order. */
  lemma TreeStreamReadsBack(root: seq<Entry>, fs: seq<Found>)
    requires IsTree(root) && IsValid(root, []) && IsOrderedListing(fs, root)
    ensures StreamReads(Split(Stream(fs), '\n'), fs)
  {
    hide FilesOf, IsTree, IsValid, InOrder, PathText, Stream, Split, StreamReads;
    forall f | f in fs
      ensures IsPortablePath(f.path) && f.path != [] && IsHex(f.digest)
    {
      assert f in multiset(fs);
      FoundUnder(root, [], f);
    }
    StreamReadsBack(fs);
  }

  /**
   Main result: two acceptable trees give the same stream exactly when they hold the same files
   with the same digests.
   */
  lemma StreamIffSameFiles(r: seq<Entry>, s: seq<Entry>, a: seq<Found>, b: seq<Found>)
    requires IsTree(r) && IsValid(r, []) && IsTree(s) && IsValid(s, [])
    requires IsOrderedListing(a, r) && IsOrderedListing(b, s)
    ensures Stream(a) == Stream(b) <==> FilesOf(r, []) == FilesOf(s, [])
  {
    hide FilesOf, IsTree, IsValid, InOrder, PathText, Stream;
    TreeIsKeyed(r);
    TreeIsKeyed(s);
    if FilesOf(r, []) == FilesOf(s, []) {
      OrderIsUnique(a, b);
    }
    if Stream(a) == Stream(b) {
      forall f | f in a || f in b
        ensures IsFramed(f)
      {
        assert f in multiset(a) || f in multiset(b);
      }
      StreamParses(a, b);
      forall i | 0 <= i < |a|
        ensures a[i] == b[i]
      {
        assert a[i] in multiset(a) && b[i] in multiset(b);
        assert a[i].path == Split(PathText(a[i]), '/') == b[i].path;
      }
      assert a == b;
    }
  }

  // ---- enumeration order ----

  /** The same directory listed in another order, at every depth. */
  ghost predicate Reorders(r: seq<Entry>, s: seq<Entry>)
    decreases r
  {
    if r == [] then s == []
    else exists j :: 0 <= j < |s| && SameEntry(r[0], s[j]) && Reorders(r[1..], Without(s, j))
  }

  ghost predicate SameEntry(e: Entry, f: Entry)
    decreases e
  {
    e.name == f.name &&
    if e.node.Dir? && f.node.Dir? then Reorders(e.node.entries, f.node.entries) else e.node == f.node
  }

  ghost function Without(s: seq<Entry>, j: nat): seq<Entry>
    requires j < |s|
  {
    s[..j] + s[j + 1..]
  }

  lemma {:induction false} TakeOut(s: seq<Entry>, j: nat, at: seq<string>)
    requires j < |s|
    ensures FilesOf(s, at) == FilesIn(s[j], at) + FilesOf(Without(s, j), at)
    ensures IsValid(s, at) <==> IsValidEntry(s[j], at) && IsValid(Without(s, j), at)
    decreases j
  {
    hide FilesIn, IsValidEntry;
    var w := Without(s, j);
    if j == 0 {
      assert w == s[1..];
    } else {
      assert s[1..][j - 1] == s[j] && w[0] == s[0] && w[1..] == Without(s[1..], j - 1);
      TakeOut(s[1..], j - 1, at);
    }
  }

  lemma {:induction false} ReorderKeepsFiles(r: seq<Entry>, s: seq<Entry>, at: seq<string>)
    requires Reorders(r, s)
    ensures FilesOf(r, at) == FilesOf(s, at)
    ensures IsValid(r, at) <==> IsValid(s, at)
    decreases r, 0
  {
    if r == [] {
    } else {
      var j :| 0 <= j < |s| && SameEntry(r[0], s[j]) && Reorders(r[1..], Without(s, j));
      hide FilesIn, IsValidEntry, SameEntry;
      SameEntryKeepsFiles(r[0], s[j], at);
      ReorderKeepsFiles(r[1..], Without(s, j), at);
      TakeOut(s, j, at);
    }
  }

  lemma {:induction false} SameEntryKeepsFiles(e: Entry, f: Entry, at: seq<string>)
    requires SameEntry(e, f)
    ensures FilesIn(e, at) == FilesIn(f, at)
    ensures IsValidEntry(e, at) <==> IsValidEntry(f, at)
    decreases e, 1
  {
    if e.node.Dir? && f.node.Dir? {
      ReorderKeepsFiles(e.node.entries, f.node.entries, at + [e.name]);
    }
  }

  /** Main result on order: however the directories of one tree are enumerated, the stream is the same. */
  lemma EnumerationCannotShow(r: seq<Entry>, s: seq<Entry>, a: seq<Found>, b: seq<Found>)
    requires Reorders(r, s) && IsTree(r)
    ensures IsValid(r, []) <==> IsValid(s, [])
    ensures IsValid(r, []) && IsOrderedListing(a, r) && IsOrderedListing(b, s) ==> Stream(a) == Stream(b) && |a| == |b|
  {
    hide Reorders, FilesOf, IsTree, IsValid, InOrder, PathText, Stream;
    ReorderKeepsFiles(r, s, []);
    if IsValid(r, []) && IsOrderedListing(a, r) && IsOrderedListing(b, s) {
      TreeIsKeyed(r);
      OrderIsUnique(a, b);
    }
  }
}

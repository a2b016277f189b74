/** Removing the assets an exported character bundle will not contain from its manifest. */
module Manifest {
  import opened Json

  datatype Asset = Asset(file: string, digest: string)

  /** A node that names a file left out of the artifact. */
  predicate NamesAbsent(node: Json, absent: set<string>) {
    node.HasString("file") && node.StringAt("file") in absent
  }

  predicate IsContainer(node: Json) {
    node.Arr? || node.Obj?
  }

  predicate IsEmpty(node: Json) {
    (node.Arr? && node.items == []) || (node.Obj? && node.fields == map[])
  }

  /** Whether a member survives, given its original and pruned values. */
  predicate KeepsMember(value: Json, pruned: Json) {
    && pruned != Null
    && !(IsContainer(pruned) && IsEmpty(pruned) && IsContainer(value) && !IsEmpty(value))
  }

  /** Python's `prune`; its None and JSON's null are the same value. */
  function Prune(node: Json, absent: set<string>): Json {
    match node
    case Obj(fields) =>
      if NamesAbsent(node, absent) then Null
      else Obj(map k | k in fields && KeepsMember(fields[k], Prune(fields[k], absent)) :: Prune(fields[k], absent))
    case Arr(items) => Arr(PruneItems(items, absent))
    case _ => node
  }

  function PruneItems(items: seq<Json>, absent: set<string>): seq<Json> {
    if items == [] then []
    else
      var head, rest := Prune(items[0], absent), PruneItems(items[1..], absent);
      if head == Null then rest else [head] + rest
  }

  /** The pair a node itself carries. */
  function OwnAssets(node: Json): set<Asset> {
    if node.HasString("file") && node.HasString("sha256")
    then {Asset(node.StringAt("file"), node.StringAt("sha256"))} else {}
  }

  /** Every pair anywhere in a manifest. */
  function Assets(node: Json): set<Asset> {
    match node
    case Obj(fields) => OwnAssets(node) + (set k, a | k in fields && a in Assets(fields[k]) :: a)
    case Arr(items) => set i, a | 0 <= i < |items| && a in Assets(items[i]) :: a
    case _ => {}
  }

  /** Every pair at a node with no absent-file node at or above it. */
  function PresentAssets(node: Json, absent: set<string>): set<Asset> {
    match node
    case Obj(fields) =>
      if NamesAbsent(node, absent) then {}
      else OwnAssets(node) + (set k, a | k in fields && a in PresentAssets(fields[k], absent) :: a)
    case Arr(items) => set i, a | 0 <= i < |items| && a in PresentAssets(items[i], absent) :: a
    case _ => {}
  }

  /** Nothing is null and no node names an absent file, at any depth. */
  predicate IsClean(node: Json, absent: set<string>) {
    match node
    case Null => false
    case Obj(fields) => !NamesAbsent(node, absent) && forall k :: k in fields ==> IsClean(fields[k], absent)
    case Arr(items) => forall i :: 0 <= i < |items| ==> IsClean(items[i], absent)
    case _ => true
  }

  lemma {:induction false} PruneItemsMembers(items: seq<Json>, absent: set<string>)
    ensures forall p :: p in PruneItems(items, absent) <==>
      p != Null && exists i :: 0 <= i < |items| && p == Prune(items[i], absent)
  {
    if items == [] {
    } else {
      PruneItemsMembers(items[1..], absent);
      forall i | 0 <= i < |items|
        ensures Prune(items[i], absent) != Null ==> Prune(items[i], absent) in PruneItems(items, absent)
      {
        if i > 0 { assert items[1..][i - 1] == items[i]; }
      }
    }
  }

  /** A container that prunes to an empty one carried no surviving pair. */
  lemma EmptyHasNoAssets(node: Json)
    requires node == Null || IsEmpty(node)
    ensures Assets(node) == {}
  {
  }

  /** Main result: the pairs that survive are exactly those with no absent file at or above them. */
  lemma {:induction false} PruneKeepsPresentAssets(node: Json, absent: set<string>)
    ensures Assets(Prune(node, absent)) == PresentAssets(node, absent)
    decreases node
  {
    match node
    case Obj(fields) =>
      if !NamesAbsent(node, absent) {
        var out := Prune(node, absent);
        forall k | k in fields
          ensures Assets(Prune(fields[k], absent)) == PresentAssets(fields[k], absent)
          ensures k !in out.fields ==> PresentAssets(fields[k], absent) == {}
        {
          PruneKeepsPresentAssets(fields[k], absent);
          if k !in out.fields { EmptyHasNoAssets(Prune(fields[k], absent)); }
        }
        StringsSurvive(node, absent, "file");
        StringsSurvive(node, absent, "sha256");
      }
    case Arr(items) =>
      var kept := PruneItems(items, absent);
      PruneItemsMembers(items, absent);
      forall i | 0 <= i < |items|
        ensures Assets(Prune(items[i], absent)) == PresentAssets(items[i], absent)
      {
        PruneKeepsPresentAssets(items[i], absent);
      }
      forall a
        ensures a in Assets(Arr(kept)) <==> a in PresentAssets(node, absent)
      {
        if a in Assets(Arr(kept)) {
          var j :| 0 <= j < |kept| && a in Assets(kept[j]);
          assert kept[j] in kept;
          var i :| 0 <= i < |items| && kept[j] == Prune(items[i], absent);
          assert a in PresentAssets(items[i], absent);
        }
        if a in PresentAssets(node, absent) {
          var i :| 0 <= i < |items| && a in PresentAssets(items[i], absent);
          var p := Prune(items[i], absent);
          assert p in kept;
          var j :| 0 <= j < |kept| && kept[j] == p;
          assert a in Assets(kept[j]);
        }
      }
    case _ =>
  }

  lemma StringsSurvive(node: Json, absent: set<string>, key: string)
    requires node.Obj? && !NamesAbsent(node, absent)
    ensures Prune(node, absent).HasString(key) <==> node.HasString(key)
    ensures node.HasString(key) ==> Prune(node, absent).StringAt(key) == node.StringAt(key)
  {
  }

  /** What is left names no absent file and holds no null, at any depth. */
  lemma {:induction false} PruneIsClean(node: Json, absent: set<string>)
    ensures Prune(node, absent) == Null || IsClean(Prune(node, absent), absent)
    decreases node
  {
    match node
    case Obj(fields) =>
      if !NamesAbsent(node, absent) {
        forall k | k in fields
          ensures Prune(fields[k], absent) == Null || IsClean(Prune(fields[k], absent), absent)
        {
          PruneIsClean(fields[k], absent);
        }
        StringsSurvive(node, absent, "file");
      }
    case Arr(items) =>
      PruneItemsMembers(items, absent);
      var kept := PruneItems(items, absent);
      forall j | 0 <= j < |kept|
        ensures IsClean(kept[j], absent)
      {
        assert kept[j] in kept;
        var i :| 0 <= i < |items| && kept[j] == Prune(items[i], absent);
        PruneIsClean(items[i], absent);
      }
    case _ =>
  }

  lemma {:induction false} CleanItemsAreFixed(items: seq<Json>, absent: set<string>)
    requires forall i :: 0 <= i < |items| ==> IsClean(items[i], absent)
    ensures PruneItems(items, absent) == items
    decreases items, 0
  {
    if items == [] {
    } else {
      CleanIsFixed(items[0], absent);
      CleanItemsAreFixed(items[1..], absent);
    }
  }

  lemma {:induction false} CleanIsFixed(node: Json, absent: set<string>)
    requires IsClean(node, absent)
    ensures Prune(node, absent) == node
    decreases node, 1
  {
    match node
    case Obj(fields) =>
      forall k | k in fields
        ensures Prune(fields[k], absent) == fields[k] && KeepsMember(fields[k], fields[k])
      {
        CleanIsFixed(fields[k], absent);
      }
      assert Prune(node, absent).fields == fields;
    case Arr(items) =>
      CleanItemsAreFixed(items, absent);
    case _ =>
  }

  /** Pruning changes a manifest exactly when there was something to remove. */
  lemma PruneFixesExactlyClean(node: Json, absent: set<string>)
    ensures Prune(node, absent) == node <==> node == Null || IsClean(node, absent)
  {
    PruneIsClean(node, absent);
    if IsClean(node, absent) {
      CleanIsFixed(node, absent);
    }
  }

  lemma PruneIsIdempotent(node: Json, absent: set<string>)
    ensures Prune(Prune(node, absent), absent) == Prune(node, absent)
  {
    PruneIsClean(node, absent);
    PruneFixesExactlyClean(Prune(node, absent), absent);
  }

  /** A list element is kept unless it is null or itself names an absent file. */
  predicate IsPresent(node: Json, absent: set<string>) {
    node != Null && !NamesAbsent(node, absent)
  }

  /** Something is left of a member: a scalar, a container empty all along, or one with something left in it. */
  predicate IsRetained(value: Json, absent: set<string>) {
    match value
    case Null => false
    case Obj(fields) =>
      !NamesAbsent(value, absent) && (fields == map[] || exists k :: k in fields && IsRetained(fields[k], absent))
    case Arr(items) => items == [] || exists i :: 0 <= i < |items| && IsPresent(items[i], absent)
    case _ => true
  }

  lemma PresentIffNotNull(node: Json, absent: set<string>)
    ensures Prune(node, absent) != Null <==> IsPresent(node, absent)
  {
  }

  lemma {:induction false} KeptIffRetained(value: Json, absent: set<string>)
    ensures KeepsMember(value, Prune(value, absent)) <==> IsRetained(value, absent)
    decreases value
  {
    match value
    case Obj(fields) =>
      if !NamesAbsent(value, absent) {
        var out := Prune(value, absent).fields;
        forall k | k in fields
          ensures k in out <==> IsRetained(fields[k], absent)
        {
          KeptIffRetained(fields[k], absent);
        }
        if k :| k in fields && IsRetained(fields[k], absent) {
          assert k in out;
        } else {
          assert out == map[];
        }
      }
    case Arr(items) =>
      var kept := PruneItems(items, absent);
      PruneItemsMembers(items, absent);
      if i :| 0 <= i < |items| && IsPresent(items[i], absent) {
        PresentIffNotNull(items[i], absent);
        assert Prune(items[i], absent) in kept;
      } else {
        if kept != [] {
          assert kept[0] in kept;
          var i :| 0 <= i < |items| && kept[0] == Prune(items[i], absent);
          PresentIffNotNull(items[i], absent);
        }
      }
    case _ =>
  }

  /** Exactly which members of an object survive: no null, no absent file, and no parent left newly empty. */
  lemma PruneKeepsRetainedMembers(node: Json, absent: set<string>, k: string)
    requires node.Obj? && !NamesAbsent(node, absent)
    ensures k in Prune(node, absent).fields <==> k in node.fields && IsRetained(node.fields[k], absent)
    ensures k in Prune(node, absent).fields ==> Prune(node, absent).fields[k] == Prune(node.fields[k], absent)
  {
    if k in node.fields { KeptIffRetained(node.fields[k], absent); }
  }

  /** What a list drops, read off the value itself: a null, or an object whose `file` is one of the absent ones. */
  ghost predicate IsDropped(item: Json, absent: set<string>) {
    item == Null || (item.Obj? && "file" in item.fields && exists f :: f in absent && item.fields["file"] == Str(f))
  }

  lemma DroppedIffNotPresent(item: Json, absent: set<string>)
    ensures IsDropped(item, absent) <==> !IsPresent(item, absent)
    ensures IsDropped(item, absent) <==> Prune(item, absent) == Null
  {
    if NamesAbsent(item, absent) {
      assert item.fields["file"] == Str(item.StringAt("file"));
    }
  }

  /** The positions of a list that are not dropped, each once and in order. */
  ghost predicate AreSurvivors(at: seq<nat>, items: seq<Json>, absent: set<string>) {
    && (forall j, k :: 0 <= j < k < |at| ==> at[j] < at[k])
    && (forall i: nat :: i in at <==> i < |items| && !IsDropped(items[i], absent))
  }

  /** The pruned forms of the items at the given positions, in that order. */
  ghost predicate ArePruned(kept: seq<Json>, at: seq<nat>, items: seq<Json>, absent: set<string>)
    requires forall i :: i in at ==> i < |items|
  {
    |kept| == |at| && forall j :: 0 <= j < |at| ==> at[j] in at && kept[j] == Prune(items[at[j]], absent)
  }

  lemma {:induction false} SurvivorsOf(items: seq<Json>, absent: set<string>) returns (at: seq<nat>)
    ensures AreSurvivors(at, items, absent) && ArePruned(PruneItems(items, absent), at, items, absent)
  {
    hide Prune, IsDropped;
    if items == [] {
      at := [];
    } else {
      hide AreSurvivors, ArePruned;
      var was := SurvivorsOf(items[1..], absent);
      DroppedIffNotPresent(items[0], absent);
      at := OneFurther(was);
      MovedSurvivors(was, at, items, absent);
      MovedPruned(was, at, PruneItems(items[1..], absent), items, absent);
      if !IsDropped(items[0], absent) {
        at := [0] + at;
      }
    }
  }

  lemma OneFurther(was: seq<nat>) returns (moved: seq<nat>)
    ensures |moved| == |was| && forall j :: 0 <= j < |was| ==> moved[j] == was[j] + 1
  {
    moved := seq(|was|, j requires 0 <= j < |was| => was[j] + 1);
  }

  lemma MovedPruned(was: seq<nat>, moved: seq<nat>, kept: seq<Json>, items: seq<Json>, absent: set<string>)
    requires items != [] && (forall i :: i in was ==> i < |items[1..]|) && ArePruned(kept, was, items[1..], absent)
    requires |moved| == |was| && forall j :: 0 <= j < |was| ==> moved[j] == was[j] + 1
    ensures (forall i :: i in moved ==> i < |items|) && ArePruned(kept, moved, items, absent)
    ensures ArePruned([Prune(items[0], absent)] + kept, [0] + moved, items, absent)
  {
    hide Prune;
    forall j | 0 <= j < |was|
      ensures moved[j] < |items| && kept[j] == Prune(items[moved[j]], absent)
    {
      assert was[j] in was && items[moved[j]] == items[1..][was[j]];
    }
  }

  /** The survivors of the tail, counted from the whole list, with the head in front if it survives. */
  lemma MovedSurvivors(was: seq<nat>, moved: seq<nat>, items: seq<Json>, absent: set<string>)
    requires items != [] && AreSurvivors(was, items[1..], absent)
    requires |moved| == |was| && forall j :: 0 <= j < |was| ==> moved[j] == was[j] + 1
    ensures AreSurvivors(if IsDropped(items[0], absent) then moved else [0] + moved, items, absent)
    ensures forall i :: i in was ==> i < |items[1..]|
  {
    hide IsDropped;
    var at := if IsDropped(items[0], absent) then moved else [0] + moved;
    forall i: nat
      ensures i in at <==> i < |items| && !IsDropped(items[i], absent)
    {
      MovedMember(was, moved, i);
      if i > 0 {
        assert i < |items| ==> items[1..][i - 1] == items[i];
      }
    }
    assert forall j, k :: 0 <= j < k < |was| ==> was[j] < was[k];
    assert forall j, k :: 0 <= j < k < |moved| ==> moved[j] < moved[k];
  }

  lemma MovedMember(was: seq<nat>, moved: seq<nat>, i: nat)
    requires |moved| == |was| && forall j :: 0 <= j < |was| ==> moved[j] == was[j] + 1
    ensures i in moved <==> i > 0 && i - 1 in was
  {
    if i > 0 && i - 1 in was {
      var j :| 0 <= j < |was| && was[j] == i - 1;
      assert moved[j] == i;
    }
  }

  /** A pruned list is its surviving items in their order, each pruned, and nothing more. */
  lemma PrunedListKeepsOrder(items: seq<Json>, absent: set<string>)
    ensures Prune(Arr(items), absent).Arr?
    ensures var kept := Prune(Arr(items), absent).items;
      exists at :: AreSurvivors(at, items, absent) && ArePruned(kept, at, items, absent)
  {
    hide IsDropped;
    var at := SurvivorsOf(items, absent);
  }

  // ---- listing the assets of a manifest ----

  ghost function OwnPairs(node: Json): seq<Asset> {
    if node.HasString("file") && node.HasString("sha256")
    then [Asset(node.StringAt("file"), node.StringAt("sha256"))] else []
  }

  ghost function Flatten(parts: seq<seq<Asset>>): seq<Asset> {
    if parts == [] then [] else Flatten(parts[..|parts| - 1]) + parts[|parts| - 1]
  }

  /** The keys of a dictionary, each once, in some order. */
  ghost predicate IsListing(keys: seq<string>, all: set<string>) {
    && (forall k :: k in keys <==> k in all)
    && (forall i, j :: 0 <= i < j < |keys| ==> keys[i] != keys[j])
  }

  /** The pairs of a manifest in document order, for some order of the members of each dictionary. */
  ghost predicate InDocumentOrder(node: Json, pairs: seq<Asset>)
    decreases node, 1
  {
    match node
    case Obj(fields) =>
      exists keys, parts ::
        IsListing(keys, fields.Keys) && MembersInOrder(node, keys, parts) && pairs == OwnPairs(node) + Flatten(parts)
    case Arr(items) => exists parts :: ItemsInOrder(node, parts) && |parts| == |items| && pairs == Flatten(parts)
    case _ => pairs == []
  }

  ghost predicate MembersInOrder(node: Json, keys: seq<string>, parts: seq<seq<Asset>>)
    requires node.Obj?
    decreases node, 0
  {
    |parts| == |keys| &&
    forall i :: 0 <= i < |keys| ==> keys[i] in node.fields && InDocumentOrder(node.fields[keys[i]], parts[i])
  }

  /** The first parts of a list, one for each item. */
  ghost predicate ItemsInOrder(node: Json, parts: seq<seq<Asset>>)
    requires node.Arr?
    decreases node, 0
  {
    |parts| <= |node.items| && forall i :: 0 <= i < |parts| ==> InDocumentOrder(node.items[i], parts[i])
  }

  /** Assigning each pair in turn: for a file listed twice the later digest stays. */
  ghost function Written(was: map<string, string>, pairs: seq<Asset>): map<string, string> {
    if pairs == [] then was
    else
      var last := pairs[|pairs| - 1];
      Written(was, pairs[..|pairs| - 1])[last.file := last.digest]
  }

  lemma {:induction false} WrittenInTurn(was: map<string, string>, a: seq<Asset>, b: seq<Asset>)
    ensures Written(was, a + b) == Written(Written(was, a), b)
    decreases b
  {
    if b == [] {
      assert a + b == a;
    } else {
      var n := |b| - 1;
      WrittenInTurn(was, a, b[..n]);
      assert (a + b)[..|a + b| - 1] == a + b[..n];
    }
  }

  lemma FlattenOneMore(parts: seq<seq<Asset>>, part: seq<Asset>)
    ensures Flatten(parts + [part]) == Flatten(parts) + part
  {
    assert (parts + [part])[..|parts|] == parts;
  }

  lemma {:induction false} FlattenHolds(parts: seq<seq<Asset>>, a: Asset)
    ensures a in Flatten(parts) <==> exists i :: 0 <= i < |parts| && a in parts[i]
  {
    if parts == [] {
    } else {
      var n := |parts| - 1;
      FlattenHolds(parts[..n], a);
      if a in parts[n] {
      } else if i :| 0 <= i < |parts| && a in parts[i] {
        assert parts[..n][i] == parts[i];
      }
    }
  }

  /** Python's `collect_manifest_assets`: the pairs written in document order. */
  method Collect(node: Json, was: map<string, string>) returns (out: map<string, string>, ghost pairs: seq<Asset>)
    ensures InDocumentOrder(node, pairs) && out == Written(was, pairs)
    ensures was == map[] ==> (IsExactly(out, Assets(node)) <==> IsConsistent(Assets(node)))
    decreases node, 1
  {
    hide IsExactly, IsConsistent, Assets, Written;
    match node {
      case Obj(_) =>
        out, pairs := CollectMembers(node, was);
      case Arr(_) =>
        out, pairs := CollectItems(node, was);
      case _ =>
        out, pairs := was, [];
        WrittenNothing(was);
    }
    OrderHoldsAssets(node, pairs);
    WrittenIsExact(pairs, Assets(node));
  }

  lemma WrittenNothing(was: map<string, string>)
    ensures Written(was, []) == was
  {
  }

  method CollectMembers(node: Json, was: map<string, string>)
    returns (out: map<string, string>, ghost pairs: seq<Asset>)
    requires node.Obj?
    ensures InDocumentOrder(node, pairs) && out == Written(was, pairs)
    decreases node, 0
  {
    hide Flatten, Written, OwnPairs, InDocumentOrder, IsListing, MembersInOrder, IsExactly, IsConsistent, Assets;
    out := was;
    if node.HasString("file") && node.HasString("sha256") {
      out := out[node.StringAt("file") := node.StringAt("sha256")];
    }
    WrittenOwn(node, was);
    ghost var keys, parts: seq<seq<Asset>> := [], [];
    pairs := OwnPairs(node);
    FlattenNothing();
    NoneListed(node);
    var left := node.fields.Keys;
    while left != {}
      invariant left <= node.fields.Keys && IsListing(keys, node.fields.Keys - left)
      invariant MembersInOrder(node, keys, parts)
      invariant pairs == OwnPairs(node) + Flatten(parts) && out == Written(was, pairs)
    {
      var k :| k in left;
      ghost var part;
      out, part := Collect(node.fields[k], out);
      WrittenInTurn(was, pairs, part);
      FlattenOneMore(parts, part);
      MemberListed(node, keys, parts, k, part, left);
      keys, parts, left := keys + [k], parts + [part], left - {k};
      pairs := pairs + part;
    }
    assert node.fields.Keys - left == node.fields.Keys;
    ListedInOrder(node, keys, parts);
  }

  lemma NoneListed(node: Json)
    requires node.Obj?
    ensures IsListing([], node.fields.Keys - node.fields.Keys) && MembersInOrder(node, [], [])
  {
  }

  lemma MemberListed(node: Json, keys: seq<string>, parts: seq<seq<Asset>>, k: string, part: seq<Asset>,
                     left: set<string>)
    requires node.Obj? && k in left && left <= node.fields.Keys
    requires IsListing(keys, node.fields.Keys - left) && MembersInOrder(node, keys, parts)
    requires InDocumentOrder(node.fields[k], part)
    ensures IsListing(keys + [k], node.fields.Keys - (left - {k})) && MembersInOrder(node, keys + [k], parts + [part])
  {
    hide InDocumentOrder;
    assert k !in keys;
  }

  lemma ListedInOrder(node: Json, keys: seq<string>, parts: seq<seq<Asset>>)
    requires node.Obj? && IsListing(keys, node.fields.Keys) && MembersInOrder(node, keys, parts)
    ensures InDocumentOrder(node, OwnPairs(node) + Flatten(parts))
  {
  }

  lemma FlattenNothing()
    ensures Flatten([]) == []
  {
  }

  lemma WrittenOwn(node: Json, was: map<string, string>)
    ensures Written(was, OwnPairs(node)) ==
      if node.HasString("file") && node.HasString("sha256")
      then was[node.StringAt("file") := node.StringAt("sha256")] else was
  {
    if node.HasString("file") && node.HasString("sha256") {
      assert OwnPairs(node)[..0] == [];
    }
  }

  method CollectItems(node: Json, was: map<string, string>)
    returns (out: map<string, string>, ghost pairs: seq<Asset>)
    requires node.Arr?
    ensures InDocumentOrder(node, pairs) && out == Written(was, pairs)
    decreases node, 0
  {
    hide Flatten, InDocumentOrder;
    out, pairs := was, [];
    ghost var parts: seq<seq<Asset>> := [];
    FlattenNothing();
    WrittenNothing(was);
    hide Written;
    for i := 0 to |node.items|
      invariant |parts| == i && ItemsInOrder(node, parts)
      invariant pairs == Flatten(parts) && out == Written(was, pairs)
    {
      ghost var part;
      out, part := Collect(node.items[i], out);
      WrittenInTurn(was, pairs, part);
      FlattenOneMore(parts, part);
      parts, pairs := parts + [part], pairs + part;
    }
    ItemsListedInOrder(node, parts);
  }

  lemma ItemsListedInOrder(node: Json, parts: seq<seq<Asset>>)
    requires node.Arr? && |parts| == |node.items| && ItemsInOrder(node, parts)
    ensures InDocumentOrder(node, Flatten(parts))
  {
  }

  /** Whatever the order of the members, the pairs are the same ones. */
  lemma {:induction false} OrderHoldsAssets(node: Json, pairs: seq<Asset>)
    requires InDocumentOrder(node, pairs)
    ensures forall a :: a in pairs <==> a in Assets(node)
    decreases node
  {
    match node
    case Obj(fields) =>
      var keys, parts :|
        IsListing(keys, fields.Keys) && MembersInOrder(node, keys, parts) && pairs == OwnPairs(node) + Flatten(parts);
      forall i, a | 0 <= i < |keys|
        ensures a in parts[i] <==> a in Assets(fields[keys[i]])
      {
        OrderHoldsAssets(fields[keys[i]], parts[i]);
      }
      forall a
        ensures a in pairs <==> a in Assets(node)
      {
        FlattenHolds(parts, a);
        if k :| k in fields && a in Assets(fields[k]) {
          var i :| 0 <= i < |keys| && keys[i] == k;
          assert a in parts[i];
        }
      }
    case Arr(items) =>
      var parts :| ItemsInOrder(node, parts) && |parts| == |items| && pairs == Flatten(parts);
      forall i, a | 0 <= i < |items|
        ensures a in parts[i] <==> a in Assets(items[i])
      {
        OrderHoldsAssets(items[i], parts[i]);
      }
      forall a
        ensures a in pairs <==> a in Assets(node)
      {
        FlattenHolds(parts, a);
      }
    case _ =>
  }

  /** No file is listed with two digests. */
  ghost predicate IsConsistent(found: set<Asset>) {
    forall a, b :: a in found && b in found && a.file == b.file ==> a == b
  }

  /** The dictionary holds these pairs and no others. */
  ghost predicate IsExactly(out: map<string, string>, found: set<Asset>) {
    forall a: Asset :: a in found <==> a.file in out && out[a.file] == a.digest
  }

  lemma {:induction false} WrittenHolds(pairs: seq<Asset>)
    ensures forall a :: a in pairs ==> a.file in Written(map[], pairs)
    ensures forall f :: f in Written(map[], pairs) ==> Asset(f, Written(map[], pairs)[f]) in pairs
  {
    if pairs == [] {
    } else {
      var n := |pairs| - 1;
      WrittenHolds(pairs[..n]);
      assert pairs == pairs[..n] + [pairs[n]];
    }
  }

  /** The dictionary is exactly the set of pairs if and only if no file has two digests. */
  lemma WrittenIsExact(pairs: seq<Asset>, found: set<Asset>)
    requires forall a :: a in pairs <==> a in found
    ensures IsExactly(Written(map[], pairs), found) <==> IsConsistent(found)
  {
    hide Written;
    var out := Written(map[], pairs);
    WrittenHolds(pairs);
    if IsConsistent(found) {
      forall a: Asset
        ensures a in found <==> a.file in out && out[a.file] == a.digest
      {
        if a in found {
          assert Asset(a.file, out[a.file]) in found;
        }
      }
    }
  }
}

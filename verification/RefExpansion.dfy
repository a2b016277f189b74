/**
 What the guarded inliner means: unguarded expansion wherever that terminates. The guard fires
 exactly where it does not.
 */
module RefExpansion {
  import opened Json
  import opened JsonPointer
  import opened Options
  import opened RefInliner

  /** Inlining with no memory of what was seen; None when `depth` expansions do not suffice. */
  ghost function Inline(doc: Json, node: Json, depth: nat): Option<Json>
    decreases depth, node, 1
  {
    match node
    case Obj(fields) =>
      if node.HasString(REF) then
        var target := Target(doc, node.StringAt(REF));
        if depth == 0 then None
        else if target == Null then Some(Obj(map[]))
        else
          var resolved := Inline(doc, target, depth - 1);
          if resolved.None? || !resolved.value.Obj? then resolved
          else
            var extra := InlineMembers(doc, node, fields.Keys - {REF}, depth);
            if extra.None? then None else Some(Obj(resolved.value.fields + extra.value))
      else
        var all := InlineMembers(doc, node, fields.Keys, depth);
        if all.None? then None else Some(Obj(all.value))
    case Arr(items) =>
      if exists i :: 0 <= i < |items| && Inline(doc, items[i], depth).None? then None
      else Some(Arr(seq(|items|, i requires 0 <= i < |items| => Inline(doc, items[i], depth).value)))
    case _ => Some(node)
  }

  ghost function InlineMembers(doc: Json, node: Json, keys: set<string>, depth: nat): Option<map<string, Json>>
    requires node.Obj? && keys <= node.fields.Keys
    decreases depth, node, 0
  {
    if exists k :: k in keys && Inline(doc, node.fields[k], depth).None? then None
    else Some(map k | k in keys :: Inline(doc, node.fields[k], depth).value)
  }

  lemma {:induction false} InlineGrows(doc: Json, node: Json, d: nat, e: nat)
    requires Inline(doc, node, d).Some? && d <= e
    ensures Inline(doc, node, e) == Inline(doc, node, d)
    decreases d, node, 1
  {
    hide InlineMembers;
    match node
    case Obj(fields) =>
      if node.HasString(REF) {
        var target := Target(doc, node.StringAt(REF));
        if target != Null {
          InlineGrows(doc, target, d - 1, e - 1);
          if Inline(doc, target, d - 1).value.Obj? {
            MembersGrow(doc, node, fields.Keys - {REF}, d, e);
          }
        }
      } else {
        MembersGrow(doc, node, fields.Keys, d, e);
      }
    case Arr(items) =>
      forall i | 0 <= i < |items|
        ensures Inline(doc, items[i], e) == Inline(doc, items[i], d)
      {
        InlineGrows(doc, items[i], d, e);
      }
      assert Inline(doc, node, e).value.items == Inline(doc, node, d).value.items;
    case _ =>
  }

  lemma {:induction false} MembersGrow(doc: Json, node: Json, keys: set<string>, d: nat, e: nat)
    requires node.Obj? && keys <= node.fields.Keys && InlineMembers(doc, node, keys, d).Some? && d <= e
    ensures InlineMembers(doc, node, keys, e) == InlineMembers(doc, node, keys, d)
    decreases d, node, 0
  {
    hide Inline;
    forall k | k in keys
      ensures Inline(doc, node.fields[k], e) == Inline(doc, node.fields[k], d)
    {
      InlineGrows(doc, node.fields[k], d, e);
    }
    assert InlineMembers(doc, node, keys, e).Some?;
    assert InlineMembers(doc, node, keys, e).value == InlineMembers(doc, node, keys, d).value;
  }

  /** The seen guard fires somewhere on the way to the result, siblings that are dropped unread not included. */
  ghost predicate Fires(doc: Json, node: Json, seen: set<string>)
    decreases Refs(doc) + Refs(node) - seen, node, 1
  {
    match node
    case Obj(fields) =>
      if node.HasString(REF) then
        var ref := node.StringAt(REF);
        ref in seen ||
        (Target(doc, ref) != Null &&
         (TargetRefs(doc, ref);
          assert ref in Refs(doc) + Refs(node) - seen;
          || Fires(doc, Target(doc, ref), seen + {ref})
          || (Deref(doc, Target(doc, ref), seen + {ref}).Obj? && FiresIn(doc, node, fields.Keys - {REF}, seen))))
      else FiresIn(doc, node, fields.Keys, seen)
    case Arr(items) => exists i :: 0 <= i < |items| && Fires(doc, items[i], seen)
    case _ => false
  }

  ghost predicate FiresIn(doc: Json, node: Json, keys: set<string>, seen: set<string>)
    requires node.Obj? && keys <= node.fields.Keys
    decreases Refs(doc) + Refs(node) - seen, node, 0
  {
    exists k :: k in keys && Fires(doc, node.fields[k], seen)
  }

  /** No target of a seen reference can be inlined in fewer expansions than `depth`. */
  ghost predicate Deeper(doc: Json, seen: set<string>, depth: nat) {
    depth > 0 ==> forall s :: s in seen ==> Inline(doc, Target(doc, s), depth - 1).None?
  }

  ghost function LeastDepth(doc: Json, node: Json, d: nat): (least: nat)
    requires Inline(doc, node, d).Some?
    ensures least <= d && Inline(doc, node, least).Some?
    ensures least > 0 ==> Inline(doc, node, least - 1).None?
  {
    if d > 0 && Inline(doc, node, d - 1).Some? then LeastDepth(doc, node, d - 1) else d
  }

  lemma {:induction false} InlineMatches(doc: Json, node: Json, seen: set<string>, depth: nat)
    requires Inline(doc, node, depth).Some? && Deeper(doc, seen, depth)
    ensures Inline(doc, node, depth) == Some(Deref(doc, node, seen)) && !Fires(doc, node, seen)
    decreases depth, node, 1
  {
    hide InlineMembers, DerefMembers, FiresIn, Refs;
    match node
    case Obj(fields) =>
      if node.HasString(REF) {
        var ref := node.StringAt(REF);
        var target := Target(doc, ref);
        if target != Null {
          RefMatches(doc, node, ref, seen, depth);
          var resolved := Deref(doc, target, seen + {ref});
          if resolved.Obj? {
            MembersMatch(doc, node, fields.Keys - {REF}, seen, depth);
            NoSiblings(doc, node, resolved.fields, seen);
          }
        }
      } else {
        MembersMatch(doc, node, fields.Keys, seen, depth);
      }
    case Arr(items) =>
      forall i | 0 <= i < |items|
        ensures Inline(doc, items[i], depth) == Some(Deref(doc, items[i], seen)) && !Fires(doc, items[i], seen)
      {
        InlineMatches(doc, items[i], seen, depth);
      }
      assert Inline(doc, node, depth).value.items == Deref(doc, node, seen).items;
    case _ =>
  }

  /** A reference about to be expanded is not on the path, and its expansion matches. */
  lemma {:induction false} RefMatches(doc: Json, node: Json, ref: string, seen: set<string>, depth: nat)
    requires node.HasString(REF) && ref == node.StringAt(REF)
    requires depth > 0 && Inline(doc, Target(doc, ref), depth - 1).Some? && Deeper(doc, seen, depth)
    ensures ref !in seen
    ensures Inline(doc, Target(doc, ref), depth - 1) == Some(Deref(doc, Target(doc, ref), seen + {ref}))
    ensures !Fires(doc, Target(doc, ref), seen + {ref})
    decreases depth, node, 0
  {
    hide Inline, Deref, Fires;
    var target := Target(doc, ref);
    var d := LeastDepth(doc, target, depth - 1);
    InlineGrows(doc, target, d, depth - 1);
    DeeperBelow(doc, seen, ref, d, depth);
    InlineMatches(doc, target, seen + {ref}, d);
  }

  lemma NoSiblings(doc: Json, node: Json, fields: map<string, Json>, seen: set<string>)
    requires node.Obj?
    ensures node.fields.Keys - {REF} == {} ==>
      fields + DerefMembers(doc, node, node.fields.Keys - {REF}, seen) == fields
  {
  }

  lemma {:induction false} MembersMatch(doc: Json, node: Json, keys: set<string>, seen: set<string>, depth: nat)
    requires node.Obj? && keys <= node.fields.Keys
    requires InlineMembers(doc, node, keys, depth).Some? && Deeper(doc, seen, depth)
    ensures InlineMembers(doc, node, keys, depth) == Some(DerefMembers(doc, node, keys, seen))
    ensures !FiresIn(doc, node, keys, seen)
    decreases depth, node, 0
  {
    hide Inline, Deref, Deeper, Fires;
    forall k | k in keys
      ensures Inline(doc, node.fields[k], depth) == Some(Deref(doc, node.fields[k], seen))
      ensures !Fires(doc, node.fields[k], seen)
    {
      InlineMatches(doc, node.fields[k], seen, depth);
    }
    assert InlineMembers(doc, node, keys, depth).value == DerefMembers(doc, node, keys, seen);
  }

  lemma DeeperBelow(doc: Json, seen: set<string>, ref: string, d: nat, depth: nat)
    requires Deeper(doc, seen, depth) && d < depth
    requires d > 0 ==> Inline(doc, Target(doc, ref), d - 1).None?
    ensures Deeper(doc, seen + {ref}, d)
  {
    if d > 0 {
      forall s | s in seen
        ensures Inline(doc, Target(doc, s), d - 1).None?
      {
        if Inline(doc, Target(doc, s), d - 1).Some? {
          InlineGrows(doc, Target(doc, s), d - 1, depth - 1);
        }
      }
    }
  }

  /** Main result on meaning: wherever naive inlining terminates, the guarded inliner agrees with it. */
  lemma DerefAgreesWithInline(doc: Json, node: Json, depth: nat)
    requires Inline(doc, node, depth).Some?
    ensures Deref(doc, node, {}) == Inline(doc, node, depth).value
  {
    InlineMatches(doc, node, {}, depth);
  }

  // ---- exactly when the guard fires ----

  /** A run in which the guard stays quiet expands each reference of `all` at most once on any path. */
  lemma {:induction false} QuietIsInlined(doc: Json, node: Json, seen: set<string>, all: set<string>, depth: nat)
    requires !Fires(doc, node, seen)
    requires Refs(doc) + Refs(node) <= all && |all - seen| <= depth
    ensures Inline(doc, node, depth) == Some(Deref(doc, node, seen))
    decreases depth, node, 2
  {
    if node.HasString(REF) {
      QuietReference(doc, node, seen, all, depth);
    } else if node.Obj? {
      hide InlineMembers, DerefMembers, FiresIn, Refs;
      QuietMembers(doc, node, node.fields.Keys, seen, all, depth);
    } else if node.Arr? {
      var items := node.items;
      forall i | 0 <= i < |items|
        ensures Inline(doc, items[i], depth) == Some(Deref(doc, items[i], seen))
      {
        QuietIsInlined(doc, items[i], seen, all, depth);
      }
      assert Inline(doc, node, depth).value.items == Deref(doc, node, seen).items;
    }
  }

  lemma {:induction false} QuietReference(doc: Json, node: Json, seen: set<string>, all: set<string>, depth: nat)
    requires node.HasString(REF) && !Fires(doc, node, seen)
    requires Refs(doc) + Refs(node) <= all && |all - seen| <= depth
    ensures Inline(doc, node, depth) == Some(Deref(doc, node, seen))
    decreases depth, node, 1
  {
    var ref := node.StringAt(REF);
    assert ref in Refs(node);
    hide InlineMembers, DerefMembers, FiresIn, Refs;
    OneFewerLeft(all, seen, ref);
    if Target(doc, ref) != Null {
      QuietTarget(doc, node, ref, seen, all, depth);
      var resolved := Deref(doc, Target(doc, ref), seen + {ref});
      if resolved.Obj? {
        QuietMembers(doc, node, node.fields.Keys - {REF}, seen, all, depth);
        NoSiblings(doc, node, resolved.fields, seen);
      }
    }
  }

  lemma OneFewerLeft(all: set<string>, seen: set<string>, ref: string)
    requires ref in all && ref !in seen
    ensures |all - (seen + {ref})| == |all - seen| - 1
  {
    assert all - (seen + {ref}) == (all - seen) - {ref};
  }

  lemma {:induction false} QuietTarget(doc: Json, node: Json, ref: string, seen: set<string>,
                                       all: set<string>, depth: nat)
    requires node.HasString(REF) && ref == node.StringAt(REF)
    requires !Fires(doc, Target(doc, ref), seen + {ref})
    requires Refs(doc) <= all && depth > 0 && |all - (seen + {ref})| <= depth - 1
    ensures Inline(doc, Target(doc, ref), depth - 1) == Some(Deref(doc, Target(doc, ref), seen + {ref}))
    decreases depth, node, 0
  {
    hide Inline, Deref, Fires, Refs, Target;
    TargetRefs(doc, ref);
    QuietIsInlined(doc, Target(doc, ref), seen + {ref}, all, depth - 1);
  }

  lemma {:induction false} QuietMembers(doc: Json, node: Json, keys: set<string>, seen: set<string>,
                                        all: set<string>, depth: nat)
    requires node.Obj? && keys <= node.fields.Keys && !FiresIn(doc, node, keys, seen)
    requires Refs(doc) + Refs(node) <= all && |all - seen| <= depth
    ensures InlineMembers(doc, node, keys, depth) == Some(DerefMembers(doc, node, keys, seen))
    decreases depth, node, 0
  {
    hide Inline, Deref, Fires;
    forall k | k in keys
      ensures Inline(doc, node.fields[k], depth) == Some(Deref(doc, node.fields[k], seen))
    {
      QuietIsInlined(doc, node.fields[k], seen, all, depth);
    }
    assert InlineMembers(doc, node, keys, depth).value == DerefMembers(doc, node, keys, seen);
  }

  /** Main result on cycles: the guard fires if and only if unguarded inlining never terminates. */
  lemma FiresIffNeverInlined(doc: Json, node: Json)
    ensures Fires(doc, node, {}) <==> forall depth: nat :: Inline(doc, node, depth).None?
  {
    hide Fires, Inline, Deref, Refs;
    var all := Refs(doc) + Refs(node);
    if !Fires(doc, node, {}) {
      assert all - {} == all;
      QuietIsInlined(doc, node, {}, all, |all|);
    }
    forall depth: nat | Inline(doc, node, depth).Some?
      ensures !Fires(doc, node, {})
    {
      InlineMatches(doc, node, {}, depth);
    }
  }

  // ---- what a cycle becomes ----

  /** Members of objects that are not references, one inside the other. */
  ghost predicate IsPath(node: Json, keys: seq<string>)
    decreases keys
  {
    keys == [] ||
    (node.Obj? && !node.HasString(REF) && keys[0] in node.fields && IsPath(node.fields[keys[0]], keys[1..]))
  }

  lemma {:induction false} PathIsInlined(doc: Json, node: Json, keys: seq<string>, seen: set<string>)
    requires IsPath(node, keys)
    ensures Follow(Deref(doc, node, seen), keys) == Deref(doc, Follow(node, keys), seen)
    ensures Fires(doc, Follow(node, keys), seen) ==> Fires(doc, node, seen)
    decreases keys
  {
    if keys == [] {
    } else {
      ShapeIsKept(doc, node, seen);
      PathIsInlined(doc, node.fields[keys[0]], keys[1..], seen);
      assert Fires(doc, node.fields[keys[0]], seen) ==> FiresIn(doc, node, node.fields.Keys, seen);
    }
  }

  /**
   The reference at `node`, the first path inside its target to another reference, the next path
   inside that one's target, and so on, until a reference already passed. No sibling hides a path.
   */
  ghost predicate Returns(doc: Json, node: Json, paths: seq<seq<string>>, seen: set<string>)
    decreases paths
  {
    node.HasString(REF) &&
    var ref := node.StringAt(REF);
    if paths == [] then ref in seen
    else
      var target, path := Target(doc, ref), paths[0];
      && ref !in seen && path != [] && (path[0] == REF || path[0] !in node.fields)
      && target.Obj? && IsPath(target, path)
      && Returns(doc, Follow(target, path), paths[1..], seen + {ref})
  }

  ghost function Concat(paths: seq<seq<string>>): seq<string> {
    if paths == [] then [] else paths[0] + Concat(paths[1..])
  }

  lemma {:induction false} FollowInTurn(node: Json, a: seq<string>, b: seq<string>)
    ensures Follow(node, a + b) == Follow(Follow(node, a), b)
    decreases a
  {
    if a == [] {
      assert a + b == b;
    } else {
      assert (a + b)[0] == a[0] && (a + b)[1..] == a[1..] + b;
      if node.Obj? && a[0] in node.fields {
        FollowInTurn(node.fields[a[0]], a[1..], b);
      } else {
        assert b == [] || !Null.Obj?;
      }
    }
  }

  /** Main result on cycles of any length, through any members: the returning reference and its siblings are emptied. */
  lemma {:induction false} CycleBecomesEmpty(doc: Json, node: Json, paths: seq<seq<string>>, seen: set<string>)
    requires Returns(doc, node, paths, seen)
    ensures Follow(Deref(doc, node, seen), Concat(paths)) == Obj(map[])
    ensures Fires(doc, node, seen)
    decreases paths
  {
    if paths == [] {
    } else {
      var ref := node.StringAt(REF);
      var target, path := Target(doc, ref), paths[0];
      var after := seen + {ref};
      CycleBecomesEmpty(doc, Follow(target, path), paths[1..], after);
      PathIsInlined(doc, target, path, after);
      FollowInTurn(Deref(doc, target, after), path, Concat(paths[1..]));
      ReferenceOpens(doc, node, seen, Concat(paths));
    }
  }

  /** A reference is read through to its target along keys its siblings do not hide. */
  lemma ReferenceOpens(doc: Json, node: Json, seen: set<string>, keys: seq<string>)
    requires node.HasString(REF) && node.StringAt(REF) !in seen && Target(doc, node.StringAt(REF)).Obj?
    requires !Target(doc, node.StringAt(REF)).HasString(REF)
    requires keys != [] && (keys[0] == REF || keys[0] !in node.fields)
    ensures Follow(Deref(doc, node, seen), keys)
         == Follow(Deref(doc, Target(doc, node.StringAt(REF)), seen + {node.StringAt(REF)}), keys)
  {
    hide DerefMembers, Refs;
    SiblingsWin(doc, node, seen);
    ShapeIsKept(doc, Target(doc, node.StringAt(REF)), seen + {node.StringAt(REF)});
  }

  /** In particular a schema that refers back to itself, at any depth and with any siblings, is emptied there. */
  lemma SelfReferenceBecomesEmpty(doc: Json, ref: string, path: seq<string>)
    requires Target(doc, ref).Obj? && path != [] && IsPath(Target(doc, ref), path)
    requires Follow(Target(doc, ref), path).HasString(REF) && Follow(Target(doc, ref), path).StringAt(REF) == ref
    ensures Follow(Deref(doc, Obj(map[REF := Str(ref)]), {}), path) == Obj(map[])
    ensures Fires(doc, Obj(map[REF := Str(ref)]), {})
  {
    var node := Obj(map[REF := Str(ref)]);
    assert node.HasString(REF) && node.StringAt(REF) == ref && [path][1..] == [];
    assert Returns(doc, Follow(Target(doc, ref), path), [], {} + {ref});
    assert Returns(doc, node, [path], {});
    CycleBecomesEmpty(doc, node, [path], {});
    assert Concat([path]) == path + Concat([]) == path;
  }

  // ---- acyclic documents ----

  /** Each reference is mentioned by the target of the one before it, the first by the root. */
  ghost predicate IsChain(doc: Json, root: Json, chain: seq<string>) {
    forall i :: 0 <= i < |chain| ==> chain[i] in Mentioned(doc, root, chain[..i])
  }

  /** What the end of a chain mentions. */
  ghost function Mentioned(doc: Json, root: Json, chain: seq<string>): set<string> {
    if chain == [] then Refs(root) else Refs(Target(doc, chain[|chain| - 1]))
  }

  ghost predicate IsAcyclic(doc: Json, root: Json) {
    forall chain, i, j :: IsChain(doc, root, chain) && 0 <= i < j < |chain| ==> chain[i] != chain[j]
  }

  lemma {:induction false} AcyclicIsQuiet(doc: Json, root: Json, node: Json, chain: seq<string>, seen: set<string>)
    requires IsAcyclic(doc, root) && IsChain(doc, root, chain) && seen == (set r | r in chain)
    requires Refs(node) <= Mentioned(doc, root, chain)
    ensures !Fires(doc, node, seen)
    decreases Refs(doc) + Refs(node) - seen, node
  {
    hide IsAcyclic, IsChain, Mentioned, Deref;
    match node
    case Obj(fields) =>
      forall k | k in fields
        ensures !Fires(doc, fields[k], seen)
      {
        AcyclicIsQuiet(doc, root, fields[k], chain, seen);
      }
      if node.HasString(REF) {
        var ref := node.StringAt(REF);
        LongerChain(doc, root, chain, ref);
        NoRepeat(doc, root, chain, ref);
        TargetRefs(doc, ref);
        assert ref in Refs(doc) + Refs(node) - seen;
        assert (set r | r in chain + [ref]) == seen + {ref};
        AcyclicIsQuiet(doc, root, Target(doc, ref), chain + [ref], seen + {ref});
      }
    case Arr(items) =>
      forall i | 0 <= i < |items|
        ensures !Fires(doc, items[i], seen)
      {
        AcyclicIsQuiet(doc, root, items[i], chain, seen);
      }
    case _ =>
  }

  lemma NoRepeat(doc: Json, root: Json, chain: seq<string>, ref: string)
    requires IsAcyclic(doc, root) && IsChain(doc, root, chain + [ref])
    ensures ref !in chain
  {
    hide IsChain;
    var longer := chain + [ref];
    forall i | 0 <= i < |chain|
      ensures chain[i] != ref
    {
      assert longer[i] != longer[|chain|];
    }
  }

  lemma LongerChain(doc: Json, root: Json, chain: seq<string>, ref: string)
    requires IsChain(doc, root, chain) && ref in Mentioned(doc, root, chain)
    ensures IsChain(doc, root, chain + [ref]) && Mentioned(doc, root, chain + [ref]) == Refs(Target(doc, ref))
  {
    hide Refs, Target;
    var longer := chain + [ref];
    forall i | 0 <= i < |longer|
      ensures longer[i] in Mentioned(doc, root, longer[..i])
    {
      assert longer[..i] == if i < |chain| then chain[..i] else chain;
    }
  }

  lemma AcyclicNeverFires(doc: Json, node: Json)
    requires IsAcyclic(doc, node)
    ensures !Fires(doc, node, {})
  {
    hide Fires, IsAcyclic, Refs;
    assert IsChain(doc, node, []) && Mentioned(doc, node, []) == Refs(node);
    AcyclicIsQuiet(doc, node, node, [], {});
  }

  /** On an acyclic document the guard never fires: the result is the full expansion. */
  lemma AcyclicIsFullyInlined(doc: Json, node: Json)
    requires IsAcyclic(doc, node)
    ensures !Fires(doc, node, {})
    ensures Inline(doc, node, |Refs(doc) + Refs(node)|) == Some(Deref(doc, node, {}))
  {
    hide Fires, Inline, Deref, IsAcyclic, Refs;
    var all := Refs(doc) + Refs(node);
    AcyclicNeverFires(doc, node);
    assert all - {} == all;
    QuietIsInlined(doc, node, {}, all, |all|);
  }
}

/**
 Inlining of local `$ref` pointers in an OpenAPI document. The document may be cyclic; a reference
 met again below its own expansion becomes an empty object.
 */
module RefInliner {
  import opened Json
  import opened JsonPointer

  const REF := "$ref"

  /** Every string `$ref` anywhere in a value. */
  ghost function Refs(node: Json): set<string> {
    match node
    case Obj(fields) =>
      (if node.HasString(REF) then {node.StringAt(REF)} else {})
      + set k, r | k in fields && r in Refs(fields[k]) :: r
    case Arr(items) => set i, r | 0 <= i < |items| && r in Refs(items[i]) :: r
    case _ => {}
  }

  lemma {:induction false} FollowedRefs(doc: Json, keys: seq<string>)
    ensures Refs(Follow(doc, keys)) <= Refs(doc)
  {
    if keys == [] {
    } else if doc.Obj? && keys[0] in doc.fields {
      FollowedRefs(doc.fields[keys[0]], keys[1..]);
    }
  }

  lemma TargetRefs(doc: Json, ref: string)
    ensures Refs(Target(doc, ref)) <= Refs(doc)
  {
    if "#/" <= ref { FollowedRefs(doc, Tokens(ref)); }
  }

  /** Python's `_deref`. Each step either consumes an unseen reference or descends into the node. */
  function Deref(doc: Json, node: Json, seen: set<string>): Json
    decreases Refs(doc) + Refs(node) - seen, node, 1
  {
    match node
    case Obj(fields) =>
      if node.HasString(REF) then
        var ref := node.StringAt(REF);
        var target := Target(doc, ref);
        if ref in seen || target == Null then Obj(map[])
        else
          TargetRefs(doc, ref);
          assert ref in Refs(doc) + Refs(node) - seen;
          var resolved := Deref(doc, target, seen + {ref});
          var extra := fields.Keys - {REF};
          if extra != {} && resolved.Obj?
          then Obj(resolved.fields + DerefMembers(doc, node, extra, seen))
          else resolved
      else Obj(DerefMembers(doc, node, fields.Keys, seen))
    case Arr(items) => Arr(seq(|items|, i requires 0 <= i < |items| => Deref(doc, items[i], seen)))
    case _ => node
  }

  /** The named members of an object, each inlined. */
  function DerefMembers(doc: Json, node: Json, keys: set<string>, seen: set<string>): map<string, Json>
    requires node.Obj? && keys <= node.fields.Keys
    decreases Refs(doc) + Refs(node) - seen, node, 0
  {
    map k | k in keys :: Deref(doc, node.fields[k], seen)
  }

  /** The siblings of a reference are inlined as the object they form without it. */
  lemma SiblingsAreAnObject(doc: Json, node: Json, seen: set<string>)
    requires node.Obj?
    ensures Deref(doc, Obj(node.fields - {REF}), seen) == Obj(DerefMembers(doc, node, node.fields.Keys - {REF}, seen))
  {
    var extra := Obj(node.fields - {REF});
    assert extra.fields.Keys == node.fields.Keys - {REF};
    assert DerefMembers(doc, extra, extra.fields.Keys, seen) == DerefMembers(doc, node, node.fields.Keys - {REF}, seen);
  }

  // ---- each kind of node, wherever the seen guard fires ----

  /** Lists keep their length and order, objects without a reference their keys; scalars are left alone. */
  lemma ShapeIsKept(doc: Json, node: Json, seen: set<string>)
    requires !node.HasString(REF)
    ensures node.Arr? ==> Deref(doc, node, seen).Arr? && |Deref(doc, node, seen).items| == |node.items|
    ensures node.Arr? ==> forall i :: 0 <= i < |node.items| ==>
      Deref(doc, node, seen).items[i] == Deref(doc, node.items[i], seen)
    ensures node.Obj? ==> Deref(doc, node, seen).Obj? && Deref(doc, node, seen).fields.Keys == node.fields.Keys
    ensures node.Obj? ==> forall k :: k in node.fields ==>
      Deref(doc, node, seen).fields[k] == Deref(doc, node.fields[k], seen)
    ensures !node.Arr? && !node.Obj? ==> Deref(doc, node, seen) == node
  {
  }

  /** A reference already seen reads like one that leads nowhere: an empty object, siblings and all dropped. */
  lemma SeenReadsLikeMissing(doc: Json, fields: map<string, Json>, ref: string, missing: string, seen: set<string>)
    requires ref in seen && missing !in seen && Target(doc, missing) == Null
    ensures Deref(doc, Obj(fields["$ref" := Str(ref)]), seen) == Deref(doc, Obj(fields["$ref" := Str(missing)]), seen)
    ensures Deref(doc, Obj(fields["$ref" := Str(ref)]), seen) == Obj(map[])
  {
  }

  /** Siblings win over the members of an inlined object and are dropped beside anything else. */
  lemma SiblingsWin(doc: Json, node: Json, seen: set<string>)
    requires node.HasString(REF) && node.StringAt(REF) !in seen && Target(doc, node.StringAt(REF)) != Null
    ensures var ref := node.StringAt(REF); var resolved := Deref(doc, Target(doc, ref), seen + {ref});
      var result := Deref(doc, node, seen);
      if !resolved.Obj? then result == resolved
      else
        && result.Obj?
        && (forall k :: k in result.fields <==> k in resolved.fields || (k in node.fields && k != REF))
        && (forall k :: k in node.fields && k != REF ==> result.fields[k] == Deref(doc, node.fields[k], seen))
        && (forall k :: k in resolved.fields && (k == REF || k !in node.fields) ==>
              result.fields[k] == resolved.fields[k])
  {
    var extra := node.fields.Keys - {REF};
    assert forall k :: k in node.fields ==> k == REF || k in extra;
  }

  // ---- self-containment ----

  /** No string `$ref` at any depth. */
  ghost predicate IsSelfContained(node: Json) {
    match node
    case Obj(fields) =>
      !("$ref" in fields && fields["$ref"].Str?) && forall k :: k in fields ==> IsSelfContained(fields[k])
    case Arr(items) => forall i :: 0 <= i < |items| ==> IsSelfContained(items[i])
    case _ => true
  }

  /** The chain of references that starts at this node ends on a bare string. */
  ghost predicate Lands(doc: Json, node: Json, seen: set<string>)
    decreases Refs(doc) + Refs(node) - seen
  {
    node.HasString(REF) &&
    var ref := node.StringAt(REF);
    ref !in seen &&
    (Target(doc, ref).Str? ||
     (TargetRefs(doc, ref);
      assert ref in Refs(doc) + Refs(node) - seen;
      Lands(doc, Target(doc, ref), seen + {ref})))
  }

  /** No object in the node has a `$ref` member that is itself a reference landing on a bare string. */
  ghost predicate IsPlain(doc: Json, node: Json)
    decreases node
  {
    match node
    case Obj(fields) =>
      && (REF in fields ==> !Lands(doc, fields[REF], {}))
      && (forall k :: k in fields ==> IsPlain(doc, fields[k]))
    case Arr(items) => forall i :: 0 <= i < |items| ==> IsPlain(doc, items[i])
    case _ => true
  }

  /** `part` is the node itself or something nested in it. */
  ghost predicate IsWithin(part: Json, node: Json)
    decreases node
  {
    part == node ||
    match node
    case Obj(fields) => exists k :: k in fields && IsWithin(part, fields[k])
    case Arr(items) => exists i :: 0 <= i < |items| && IsWithin(part, items[i])
    case _ => false
  }

  lemma {:induction false} DerefIsString(doc: Json, node: Json, seen: set<string>)
    ensures Deref(doc, node, seen).Str? <==> node.Str? || Lands(doc, node, seen)
    decreases Refs(doc) + Refs(node) - seen
  {
    hide DerefMembers;
    if node.HasString(REF) && node.StringAt(REF) !in seen {
      var ref := node.StringAt(REF);
      TargetRefs(doc, ref);
      assert ref in Refs(doc) + Refs(node) - seen;
      DerefIsString(doc, Target(doc, ref), seen + {ref});
    }
  }

  lemma {:induction false} LandsWithLessSeen(doc: Json, node: Json, seen: set<string>, more: set<string>)
    requires Lands(doc, node, more) && seen <= more
    ensures Lands(doc, node, seen)
    decreases Refs(doc) + Refs(node) - more
  {
    var ref := node.StringAt(REF);
    if !Target(doc, ref).Str? {
      TargetRefs(doc, ref);
      assert ref in Refs(doc) + Refs(node) - more;
      LandsWithLessSeen(doc, Target(doc, ref), seen + {ref}, more + {ref});
    }
  }

  lemma {:induction false} FollowedIsPlain(doc: Json, node: Json, keys: seq<string>)
    requires IsPlain(doc, node)
    ensures IsPlain(doc, Follow(node, keys))
    decreases keys
  {
    if keys == [] {
    } else if node.Obj? && keys[0] in node.fields {
      FollowedIsPlain(doc, node.fields[keys[0]], keys[1..]);
    }
  }

  lemma TargetIsPlain(doc: Json, ref: string)
    requires IsPlain(doc, doc)
    ensures IsPlain(doc, Target(doc, ref))
  {
    if "#/" <= ref { FollowedIsPlain(doc, doc, Tokens(ref)); }
  }

  lemma {:induction false} DerefIsSelfContained(doc: Json, node: Json, seen: set<string>)
    requires IsPlain(doc, doc) && IsPlain(doc, node)
    ensures IsSelfContained(Deref(doc, node, seen))
    decreases Refs(doc) + Refs(node) - seen, node, 1
  {
    hide Lands;
    match node
    case Obj(fields) =>
      hide DerefMembers;
      if node.HasString(REF) {
        var ref := node.StringAt(REF);
        if ref !in seen && Target(doc, ref) != Null {
          TargetRefs(doc, ref);
          assert ref in Refs(doc) + Refs(node) - seen;
          TargetIsPlain(doc, ref);
          DerefIsSelfContained(doc, Target(doc, ref), seen + {ref});
          MembersAreSelfContained(doc, node, fields.Keys - {REF}, seen);
          var resolved := Deref(doc, Target(doc, ref), seen + {ref});
          if resolved.Obj? {
            MergeIsSelfContained(resolved.fields, DerefMembers(doc, node, fields.Keys - {REF}, seen));
          }
        }
      } else {
        MembersAreSelfContained(doc, node, fields.Keys, seen);
      }
    case Arr(items) =>
      forall i | 0 <= i < |items|
        ensures IsSelfContained(Deref(doc, items[i], seen))
      {
        DerefIsSelfContained(doc, items[i], seen);
      }
    case _ =>
  }

  lemma MergeIsSelfContained(fields: map<string, Json>, extra: map<string, Json>)
    requires IsSelfContained(Obj(fields)) && REF !in extra
    requires forall k :: k in extra ==> IsSelfContained(extra[k])
    ensures IsSelfContained(Obj(fields + extra))
  {
  }

  lemma {:induction false} MembersAreSelfContained(doc: Json, node: Json, keys: set<string>, seen: set<string>)
    requires node.Obj? && keys <= node.fields.Keys && IsPlain(doc, doc) && IsPlain(doc, node)
    ensures DerefMembers(doc, node, keys, seen).Keys == keys
    ensures forall k :: k in keys ==> IsSelfContained(DerefMembers(doc, node, keys, seen)[k])
    ensures REF in keys && !node.HasString(REF) ==> !DerefMembers(doc, node, keys, seen)[REF].Str?
    decreases Refs(doc) + Refs(node) - seen, node, 0
  {
    hide Lands, Deref;
    forall k | k in keys
      ensures IsSelfContained(Deref(doc, node.fields[k], seen))
    {
      DerefIsSelfContained(doc, node.fields[k], seen);
    }
    if REF in keys && !node.HasString(REF) {
      var v := node.fields[REF];
      DerefIsString(doc, v, seen);
      if Lands(doc, v, seen) { LandsWithLessSeen(doc, v, {}, seen); }
    }
  }

  lemma {:induction false} WithinIsPlain(doc: Json, part: Json, node: Json)
    requires IsPlain(doc, node) && IsWithin(part, node)
    ensures IsPlain(doc, part)
    decreases node
  {
    if part != node {
      match node
      case Obj(fields) =>
        var k :| k in fields && IsWithin(part, fields[k]);
        WithinIsPlain(doc, part, fields[k]);
      case Arr(items) =>
        var i :| 0 <= i < |items| && IsWithin(part, items[i]);
        WithinIsPlain(doc, part, items[i]);
    }
  }

  /** Where a node is not plain there is an object in it that the inliner turns into a string `$ref`. */
  lemma {:induction false} OffendingObject(doc: Json, node: Json) returns (part: Json)
    requires !IsPlain(doc, node)
    ensures IsWithin(part, node) && part.Obj? && REF in part.fields && Lands(doc, part.fields[REF], {})
    decreases node
  {
    match node
    case Obj(fields) =>
      if REF in fields && Lands(doc, fields[REF], {}) {
        part := node;
      } else {
        var k :| k in fields && !IsPlain(doc, fields[k]);
        part := OffendingObject(doc, fields[k]);
      }
    case Arr(items) =>
      var i :| 0 <= i < |items| && !IsPlain(doc, items[i]);
      part := OffendingObject(doc, items[i]);
  }

  lemma OffenderIsNotSelfContained(doc: Json, part: Json)
    requires part.Obj? && REF in part.fields && Lands(doc, part.fields[REF], {})
    ensures !IsSelfContained(Deref(doc, part, {}))
  {
    hide Lands;
    DerefIsString(doc, part.fields[REF], {});
    assert !part.HasString(REF) by { LandingIsAnObject(doc, part.fields[REF]); }
    assert DerefMembers(doc, part, part.fields.Keys, {})[REF] == Deref(doc, part.fields[REF], {});
  }

  lemma LandingIsAnObject(doc: Json, node: Json)
    requires Lands(doc, node, {})
    ensures node.Obj?
  {
  }

  /**
   Main result on self-containment, over the nodes the generator inlines, which are all parts of
   the document: all of them come out self-contained if and only if no object anywhere in the
   document has a `$ref` member that is itself a reference landing on a bare string.
   */
  lemma SelfContainedIffPlain(doc: Json)
    ensures IsPlain(doc, doc) <==> forall part :: IsWithin(part, doc) ==> IsSelfContained(Deref(doc, part, {}))
  {
    hide Lands, Deref;
    if IsPlain(doc, doc) {
      forall part | IsWithin(part, doc)
        ensures IsSelfContained(Deref(doc, part, {}))
      {
        WithinIsPlain(doc, part, doc);
        DerefIsSelfContained(doc, part, {});
      }
    } else {
      var part := OffendingObject(doc, doc);
      OffenderIsNotSelfContained(doc, part);
    }
  }

  ghost predicate NoStringTargets(doc: Json, refs: set<string>) {
    forall r :: r in refs ==> !Target(doc, r).Str?
  }

  lemma {:induction false} LandsOnString(doc: Json, node: Json, seen: set<string>)
    requires Lands(doc, node, seen)
    ensures !NoStringTargets(doc, Refs(doc) + Refs(node))
    decreases Refs(doc) + Refs(node) - seen
  {
    var ref := node.StringAt(REF);
    assert ref in Refs(node);
    if !Target(doc, ref).Str? {
      TargetRefs(doc, ref);
      LandsOnString(doc, Target(doc, ref), seen + {ref});
    }
  }

  /** In particular a document none of whose references lands on a bare string is plain. */
  lemma {:induction false} NoStringTargetsIsPlain(doc: Json, node: Json)
    requires NoStringTargets(doc, Refs(doc) + Refs(node))
    ensures IsPlain(doc, node)
    decreases node
  {
    hide Lands;
    match node
    case Obj(fields) =>
      forall k | k in fields
        ensures IsPlain(doc, fields[k]) && !Lands(doc, fields[k], {})
      {
        NoStringTargetsIsPlain(doc, fields[k]);
        if Lands(doc, fields[k], {}) { LandsOnString(doc, fields[k], {}); }
      }
    case Arr(items) =>
      forall i | 0 <= i < |items|
        ensures IsPlain(doc, items[i])
      {
        NoStringTargetsIsPlain(doc, items[i]);
      }
    case _ =>
  }

  /** A self-contained value is left alone, whatever document it is read against. */
  lemma {:induction false} SelfContainedIsFixed(doc: Json, node: Json, seen: set<string>)
    requires IsSelfContained(node)
    ensures Deref(doc, node, seen) == node
    decreases node
  {
    match node
    case Obj(fields) =>
      forall k | k in fields
        ensures Deref(doc, fields[k], seen) == fields[k]
      {
        SelfContainedIsFixed(doc, fields[k], seen);
      }
      assert Deref(doc, node, seen).fields == fields;
    case Arr(items) =>
      forall i | 0 <= i < |items|
        ensures Deref(doc, items[i], seen) == items[i]
      {
        SelfContainedIsFixed(doc, items[i], seen);
      }
      assert Deref(doc, node, seen).items == items;
    case _ =>
  }

  /** Inlining twice, the second time against any document at all, changes nothing. */
  lemma DerefIsIdempotent(doc: Json, node: Json, other: Json, seen: set<string>)
    requires IsPlain(doc, doc) && IsPlain(doc, node)
    ensures Deref(other, Deref(doc, node, {}), seen) == Deref(doc, node, {})
  {
    DerefIsSelfContained(doc, node, {});
    SelfContainedIsFixed(other, Deref(doc, node, {}), seen);
  }
}

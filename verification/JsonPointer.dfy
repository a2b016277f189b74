/** Local reference pointers: the evaluator of the adapter generator against sections 3 and 4 of RFC 6901. */
module JsonPointer {
  import opened Json
  import opened Text

  /** The evaluator's decoding of one token: `~1` first, then `~0`. */
  function Unescape(token: string): string {
    ReplaceAll(ReplaceAll(token, "~1", "/"), "~0", "~")
  }

  /** The same decoding in one pass, as section 4 of RFC 6901 means it; a stray tilde stands for itself. */
  ghost function Decoded(token: string): string {
    if token == "" then ""
    else if "~1" <= token then "/" + Decoded(token[2..])
    else if "~0" <= token then "~" + Decoded(token[2..])
    else [token[0]] + Decoded(token[1..])
  }

  /** Two replacements in a row are one pass, for every token, well formed or not. */
  lemma {:induction false} UnescapeIsOnePass(token: string)
    ensures Unescape(token) == Decoded(token)
    decreases |token|
  {
    hide ReplaceAll;
    if token == "" {
      NothingToUnescape();
    } else {
      ReplaceHead(token, "~1", "/");
      var rest := ReplaceAll(token[1..], "~1", "/");
      UnescapeIsOnePass(token[1..]);
      if "~1" <= token {
        UnescapeIsOnePass(token[2..]);
        PlainCharKept('/', ReplaceAll(token[2..], "~1", "/"), "~0", "~");
      } else if "~0" <= token {
        UnescapeIsOnePass(token[2..]);
        assert token[1] == '0' && token[1..][1..] == token[2..];
        ReplaceHead(token[1..], "~1", "/");
        var s, after := [token[0]] + rest, ReplaceAll(token[2..], "~1", "/");
        assert s == "~0" + after && s[2..] == after;
        ReplaceHead(s, "~0", "~");
      } else if token[0] != '~' {
        PlainCharKept(token[0], rest, "~0", "~");
      } else {
        StrayTilde(token[1..]);
      }
    }
  }

  lemma NothingToUnescape()
    ensures Unescape("") == ""
  {
  }

  /** Behind a tilde that starts no escape, no zero can appear. */
  lemma StrayTilde(t: string)
    requires t == "" || (t[0] != '0' && t[0] != '1')
    ensures var rest := ReplaceAll(t, "~1", "/"); ReplaceAll("~" + rest, "~0", "~") == "~" + ReplaceAll(rest, "~0", "~")
  {
    hide ReplaceAll;
    var rest := ReplaceAll(t, "~1", "/");
    if t == "" {
      NothingIsReplaced();
    } else {
      ReplaceHead(t, "~1", "/");
    }
    var s := "~" + rest;
    assert s[1..] == rest;
    assert rest != "" ==> s[1] == rest[0] != '0';
    assert "~0"[1] == '0' && !("~0" <= s);
    ReplaceHead(s, "~0", "~");
  }

  lemma NothingIsReplaced()
    ensures ReplaceAll("", "~1", "/") == ""
  {
  }

  function Tokens(ref: string): (keys: seq<string>)
    requires "#/" <= ref
    ensures keys != []
  {
    UnescapeAll(Split(ref[2..], '/'))
  }

  function UnescapeAll(tokens: seq<string>): (keys: seq<string>)
    ensures |keys| == |tokens|
    ensures forall i :: 0 <= i < |keys| ==> keys[i] == Unescape(tokens[i])
  {
    if tokens == [] then [] else [Unescape(tokens[0])] + UnescapeAll(tokens[1..])
  }

  /** Descending through object members; a missing member gives Python's None, which is JSON's null. */
  function Follow(doc: Json, keys: seq<string>): Json {
    if keys == [] then doc
    else if doc.Obj? && keys[0] in doc.fields then Follow(doc.fields[keys[0]], keys[1..])
    else Null
  }

  function Target(doc: Json, ref: string): Json {
    if "#/" <= ref then Follow(doc, Tokens(ref)) else Null
  }

  /** The values passed on the way from `doc` to `end`, each a member of the one before. */
  ghost predicate IsChain(nodes: seq<Json>, keys: seq<string>, doc: Json, end: Json) {
    && |nodes| == |keys| + 1 && nodes[0] == doc && nodes[|keys|] == end
    && forall i :: 0 <= i < |keys| ==>
      nodes[i].Obj? && keys[i] in nodes[i].fields && nodes[i].fields[keys[i]] == nodes[i + 1]
  }

  lemma {:induction false} FollowedIsChain(doc: Json, keys: seq<string>)
    requires Follow(doc, keys) != Null
    ensures exists nodes :: IsChain(nodes, keys, doc, Follow(doc, keys))
  {
    if keys == [] {
      assert IsChain([doc], keys, doc, doc);
    } else {
      var next := doc.fields[keys[0]];
      FollowedIsChain(next, keys[1..]);
      var nodes :| IsChain(nodes, keys[1..], next, Follow(doc, keys));
      assert IsChain([doc] + nodes, keys, doc, Follow(doc, keys));
    }
  }

  lemma {:induction false} ChainIsFollowed(nodes: seq<Json>, keys: seq<string>, doc: Json, end: Json)
    requires IsChain(nodes, keys, doc, end)
    ensures Follow(doc, keys) == end
    decreases keys
  {
    if keys == [] {
    } else {
      assert nodes[0].fields[keys[0]] == nodes[0 + 1];
      assert IsChain(nodes[1..], keys[1..], nodes[1], end) by {
        assert forall i :: 0 <= i < |keys| - 1 ==> keys[1..][i] == keys[i + 1] && nodes[1..][i] == nodes[i + 1];
      }
      ChainIsFollowed(nodes[1..], keys[1..], nodes[1], end);
    }
  }

  /** Keys lead to a value other than null exactly along existing members. */
  lemma FollowIffChain(doc: Json, keys: seq<string>, end: Json)
    requires end != Null
    ensures Follow(doc, keys) == end <==> exists nodes :: IsChain(nodes, keys, doc, end)
  {
    hide IsChain, Follow;
    if Follow(doc, keys) == end {
      FollowedIsChain(doc, keys);
    }
    if nodes :| IsChain(nodes, keys, doc, end) {
      ChainIsFollowed(nodes, keys, doc, end);
    }
  }

  lemma ChainIffFollowed(doc: Json, ref: string)
    ensures Target(doc, ref) != Null ==>
      "#/" <= ref && exists nodes :: IsChain(nodes, Tokens(ref), doc, Target(doc, ref))
  {
    hide IsChain, Follow;
    if Target(doc, ref) != Null { FollowedIsChain(doc, Tokens(ref)); }
  }

  /** Python's `_pointer`, cursor and all. */
  method Evaluate(doc: Json, ref: string) returns (found: Json)
    ensures found == Target(doc, ref)
    ensures found != Null ==> "#/" <= ref && exists nodes :: IsChain(nodes, Tokens(ref), doc, found)
  {
    ChainIffFollowed(doc, ref);
    if !("#/" <= ref) { return Null; }
    var tokens := Split(ref[2..], '/');
    ghost var keys := Tokens(ref);
    var cursor := doc;
    for i := 0 to |tokens|
      invariant Follow(doc, keys) == Follow(cursor, keys[i..])
    {
      var part := Unescape(tokens[i]);
      assert keys[i..][0] == part && keys[i..][1..] == keys[i + 1..];
      if cursor.Obj? && part in cursor.fields {
        cursor := cursor.fields[part];
      } else {
        return Null;
      }
    }
    return cursor;
  }

  // ---- RFC 6901 printing, and the round trip ----

  function EscapeChar(c: char): string {
    if c == '~' then "~0" else if c == '/' then "~1" else [c]
  }

  function Escape(key: string): string {
    if key == "" then "" else EscapeChar(key[0]) + Escape(key[1..])
  }

  function EscapeAll(keys: seq<string>): (tokens: seq<string>)
    ensures |tokens| == |keys|
    ensures forall i :: 0 <= i < |keys| ==> tokens[i] == Escape(keys[i])
  {
    if keys == [] then [] else [Escape(keys[0])] + EscapeAll(keys[1..])
  }

  function Print(keys: seq<string>): string {
    "#/" + Join(EscapeAll(keys), '/')
  }

  /** Escaping of tildes alone: what is left between the evaluator's two replacements. */
  function EscapeTildes(key: string): string {
    if key == "" then "" else (if key[0] == '~' then "~0" else [key[0]]) + EscapeTildes(key[1..])
  }

  lemma {:induction false} SlashesReturn(key: string)
    ensures ReplaceAll(Escape(key), "~1", "/") == EscapeTildes(key)
  {
    if key == "" {
    } else {
      var rest := Escape(key[1..]);
      SlashesReturn(key[1..]);
      if key[0] == '~' {
        var s := "~0" + rest;
        assert s[1..] == "0" + rest && s[..2] == "~0";
        PlainCharKept('0', rest, "~1", "/");
      } else if key[0] == '/' {
        assert ("~1" + rest)[..2] == "~1" && ("~1" + rest)[2..] == rest;
      } else {
        PlainCharKept(key[0], rest, "~1", "/");
      }
    }
  }

  lemma {:induction false} TildesReturn(key: string)
    ensures ReplaceAll(EscapeTildes(key), "~0", "~") == key
  {
    if key == "" {
    } else {
      var rest := EscapeTildes(key[1..]);
      TildesReturn(key[1..]);
      if key[0] == '~' {
        assert ("~0" + rest)[..2] == "~0" && ("~0" + rest)[2..] == rest;
      } else {
        PlainCharKept(key[0], rest, "~0", "~");
      }
    }
  }

  /** The decoding order undoes the escaping of every string. */
  lemma UnescapeUndoesEscape(key: string)
    ensures Unescape(Escape(key)) == key
  {
    SlashesReturn(key);
    TildesReturn(key);
  }

  lemma {:induction false} EscapeHasNoSlash(key: string)
    ensures '/' !in Escape(key)
  {
    if key == "" {
    } else {
      EscapeHasNoSlash(key[1..]);
    }
  }

  /** Main result: a printed pointer is read back as the same keys and leads where they lead. */
  lemma PrintedPointerFollowsKeys(doc: Json, keys: seq<string>)
    requires keys != []
    ensures Tokens(Print(keys)) == keys
    ensures Target(doc, Print(keys)) == Follow(doc, keys)
  {
    var tokens := EscapeAll(keys);
    forall i | 0 <= i < |keys|
      ensures '/' !in tokens[i] && Unescape(tokens[i]) == keys[i]
    {
      EscapeHasNoSlash(keys[i]);
      UnescapeUndoesEscape(keys[i]);
    }
    SplitUndoesJoin(tokens, '/');
    assert Print(keys)[2..] == Join(tokens, '/');
  }

  /** Decoding in the other order would read the key `~1` as `/`. */
  lemma OrderOfDecodingMatters()
    ensures ReplaceAll(ReplaceAll(Escape("~1"), "~0", "~"), "~1", "/") == "/"
    ensures Unescape(Escape("~1")) == "~1"
  {
    UnescapeUndoesEscape("~1");
    assert Escape("~1"[1..]) == "1" + Escape("") == "1";
    assert Escape("~1") == "~01";
    assert ReplaceAll("~01", "~0", "~") == "~" + ReplaceAll("1", "~0", "~") == "~1";
    assert ReplaceAll("~1", "~1", "/") == "/" + ReplaceAll("", "~1", "/") == "/";
  }
}

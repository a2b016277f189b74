/**
 Filling the path template of a generated operation, one `replace` per parameter, with values
 percent-encoded per sections 2.1 and 2.3 of RFC 3986.
 */
module PathTemplate {
  import opened Bytes
  import opened Text

  // ---- percent-encoding ----

  predicate IsUnreserved(c: char) {
    'a' <= c <= 'z' || 'A' <= c <= 'Z' || '0' <= c <= '9' || c in "-._~"
  }

  function HexDigit(d: nat): (c: char)
    requires d < 16
    ensures '0' <= c <= '9' || 'A' <= c <= 'F'
  {
    if d < 10 then ('0' as int + d) as char else ('A' as int + d - 10) as char
  }

  function HexValue(c: char): nat {
    if '0' <= c <= '9' then c as int - '0' as int
    else if 'A' <= c <= 'F' then c as int - 'A' as int + 10
    else 0
  }

  function QuoteByte(b: Byte): string {
    if IsUnreserved(b as char) then [b as char] else ['%', HexDigit(b / 16), HexDigit(b % 16)]
  }

  /** `quote(value, safe="")` over the UTF-8 bytes of the value. */
  function Quote(value: seq<Byte>): string {
    if value == [] then "" else QuoteByte(value[0]) + Quote(value[1..])
  }

  /** Percent-decoding, for strings `Quote` can produce. */
  function Unquote(s: string): seq<nat> {
    if s == "" then []
    else if s[0] == '%' && |s| >= 3 then [16 * HexValue(s[1]) + HexValue(s[2])] + Unquote(s[3..])
    else [s[0] as int] + Unquote(s[1..])
  }

  lemma {:induction false} UnquoteUndoesQuote(value: seq<Byte>)
    ensures Unquote(Quote(value)) == value
  {
    if value == [] {
    } else {
      var b, rest := value[0], Quote(value[1..]);
      UnquoteUndoesQuote(value[1..]);
      var s := QuoteByte(b) + rest;
      if IsUnreserved(b as char) {
        assert s[1..] == rest && s[0] == b as char;
      } else {
        assert s[3..] == rest && s[1] == HexDigit(b / 16) && s[2] == HexDigit(b % 16);
        assert 16 * (b / 16) + b % 16 == b;
      }
    }
  }

  lemma {:induction false} QuotedAlphabet(value: seq<Byte>)
    ensures forall c :: c in Quote(value) ==>
      'a' <= c <= 'z' || 'A' <= c <= 'Z' || '0' <= c <= '9' || c == '-' || c == '.' || c == '_' || c == '~' || c == '%'
  {
    if value == [] {
    } else {
      QuotedAlphabet(value[1..]);
    }
  }

  /** The unreserved characters of section 2.3 of RFC 3986, by code. */
  ghost predicate IsUnreservedCode(n: nat) {
    97 <= n <= 122 || 65 <= n <= 90 || 48 <= n <= 57 || n == 45 || n == 46 || n == 95 || n == 126
  }

  lemma {:induction false} UnreservedIsKept(value: seq<Byte>)
    requires forall i :: 0 <= i < |value| ==> IsUnreservedCode(value[i])
    ensures |Quote(value)| == |value| && forall i :: 0 <= i < |value| ==> Quote(value)[i] == value[i] as char
  {
    if value == [] {
    } else {
      UnreservedIsKept(value[1..]);
    }
  }

  // ---- the code ----

  datatype Outcome = Missing(name: string) | Filled(path: string)

  function Placeholder(name: string): string {
    "{" + name + "}"
  }

  /** The replacements in the order of `names`. */
  function FillFrom(path: string, names: seq<string>, params: map<string, seq<Byte>>): Outcome
    decreases names
  {
    if names == [] then Filled(path)
    else if names[0] !in params then Missing(names[0])
    else FillFrom(ReplaceAll(path, Placeholder(names[0]), Quote(params[names[0]])), names[1..], params)
  }

  /** The loop at the head of `_invoke`. */
  method Fill(template: string, names: seq<string>, params: map<string, seq<Byte>>) returns (r: Outcome)
    ensures r == FillFrom(template, names, params)
  {
    var path := template;
    for i := 0 to |names|
      invariant FillFrom(path, names[i..], params) == FillFrom(template, names, params)
    {
      var name := names[i];
      assert names[i..][0] == name && names[i..][1..] == names[i + 1..];
      if name !in params { return Missing(name); }
      path := ReplaceAll(path, Placeholder(name), Quote(params[name]));
    }
    return Filled(path);
  }

  // ---- what it means ----

  datatype Segment = Literal(text: string) | Hole(name: string)

  function Show(segments: seq<Segment>): string {
    if segments == [] then ""
    else
      (match segments[0] case Literal(text) => text case Hole(name) => Placeholder(name)) + Show(segments[1..])
  }

  predicate BraceFree(s: string) {
    '{' !in s && '}' !in s
  }

  predicate IsTemplate(segments: seq<Segment>) {
    forall i :: 0 <= i < |segments| ==>
      match segments[i] case Literal(text) => BraceFree(text) case Hole(name) => BraceFree(name)
  }

  /** Simultaneous substitution: every hole named in `env` at once. */
  function Substitute(segments: seq<Segment>, env: map<string, string>): (r: seq<Segment>)
    ensures |r| == |segments|
  {
    if segments == [] then []
    else
      [match segments[0]
       case Literal(_) => segments[0]
       case Hole(name) => if name in env then Literal(env[name]) else segments[0]]
      + Substitute(segments[1..], env)
  }

  function Quoted(names: seq<string>, params: map<string, seq<Byte>>): map<string, string> {
    map n | n in names && n in params :: Quote(params[n])
  }

  /** Text without an opening brace is copied by a placeholder's replacement. */
  lemma {:induction false} BraceFreeTextKept(text: string, rest: string, name: string, rep: string)
    requires '{' !in text
    ensures ReplaceAll(text + rest, Placeholder(name), rep) == text + ReplaceAll(rest, Placeholder(name), rep)
  {
    if text == "" {
      assert text + rest == rest;
    } else {
      var s := text + rest;
      assert s[1..] == text[1..] + rest;
      BraceFreeTextKept(text[1..], rest, name, rep);
      if |s| >= |name| + 2 { assert s[..|name| + 2][0] == text[0]; }
      assert ReplaceAll(s, Placeholder(name), rep) == [s[0]] + ReplaceAll(s[1..], Placeholder(name), rep);
      var after := ReplaceAll(rest, Placeholder(name), rep);
      assert [s[0]] + (text[1..] + after) == text + after;
    }
  }

  /** A placeholder matches at a hole only when the whole name is the same. */
  lemma HoleMatches(hole: string, name: string, rest: string)
    requires BraceFree(hole) && BraceFree(name)
    ensures Placeholder(name) <= Placeholder(hole) + rest <==> name == hole
  {
    var s, p := Placeholder(hole) + rest, Placeholder(name);
    assert name == hole ==> s == p + rest;
    if p <= s {
      assert forall i :: 0 <= i < |hole| ==> s[i + 1] == hole[i];
      assert forall i :: 0 <= i < |name| ==> s[i + 1] == p[i + 1] == name[i];
      assert s[|name| + 1] == p[|name| + 1] == '}' && s[|hole| + 1] == '}';
      assert |name| >= |hole|;
      assert |hole| >= |name|;
    }
  }

  lemma HoleReplaced(hole: string, name: string, rest: string, value: string)
    requires BraceFree(hole) && BraceFree(name)
    ensures ReplaceAll(Placeholder(hole) + rest, Placeholder(name), value)
         == (if hole == name then value else Placeholder(hole)) + ReplaceAll(rest, Placeholder(name), value)
  {
    hide ReplaceAll, BraceFree;
    var s, p := Placeholder(hole) + rest, Placeholder(name);
    HoleMatches(hole, name, rest);
    ReplaceHead(s, p, value);
    if hole == name {
      assert s[|p|..] == rest;
    } else {
      var tail := hole + "}";
      assert s[1..] == tail + rest;
      assert '{' !in tail by { TailOpensNothing(hole); }
      BraceFreeTextKept(tail, rest, name, value);
      assert "{" + (tail + ReplaceAll(rest, p, value)) == Placeholder(hole) + ReplaceAll(rest, p, value);
    }
  }

  lemma TailOpensNothing(hole: string)
    requires BraceFree(hole)
    ensures '{' !in hole + "}"
  {
  }

  lemma {:induction false} PlainReplacement(segments: seq<Segment>, name: string, value: string)
    requires IsTemplate(segments) && BraceFree(name)
    ensures ReplaceAll(Show(segments), Placeholder(name), value) == Show(Substitute(segments, map[name := value]))
  {
    hide Placeholder, ReplaceAll;
    if segments == [] {
      NothingToReplace(name, value);
    } else {
      var rest := Show(segments[1..]);
      PlainReplacement(segments[1..], name, value);
      assert Substitute(segments, map[name := value])[1..] == Substitute(segments[1..], map[name := value]);
      match segments[0]
      case Literal(text) => BraceFreeTextKept(text, rest, name, value);
      case Hole(hole) => HoleReplaced(hole, name, rest, value);
    }
  }

  lemma NothingToReplace(name: string, value: string)
    ensures ReplaceAll("", Placeholder(name), value) == ""
  {
  }

  lemma ShowOne(s: Segment)
    ensures Show([s]) == match s case Literal(text) => text case Hole(name) => Placeholder(name)
  {
    assert Show([s][1..]) == "";
  }

  // ---- names with braces in them ----

  /** The braces of `s` can be read inside template text, starting as `inside` says and ending in a hole. */
  predicate SpansHoles(s: string, inside: bool) {
    if s == "" then inside
    else if s[0] == '{' then !inside && SpansHoles(s[1..], true)
    else if s[0] == '}' then inside && SpansHoles(s[1..], false)
    else SpansHoles(s[1..], inside)
  }

  /** A name whose placeholder cannot be mistaken for several holes with text between them. */
  predicate IsSafeName(name: string) {
    BraceFree(name) || !SpansHoles(name, true)
  }

  /** Template text read character by character: holes open, close and do not nest. */
  predicate IsTemplateText(s: string, inside: bool) {
    if s == "" then !inside
    else if s[0] == '{' then !inside && IsTemplateText(s[1..], true)
    else if s[0] == '}' then inside && IsTemplateText(s[1..], false)
    else IsTemplateText(s[1..], inside)
  }

  lemma {:induction false} TextContinues(s: string, rest: string, inside: bool)
    requires BraceFree(s)
    ensures IsTemplateText(s + rest, inside) == IsTemplateText(rest, inside)
  {
    if s == "" {
      assert s + rest == rest;
    } else {
      assert (s + rest)[1..] == s[1..] + rest;
      TextContinues(s[1..], rest, inside);
    }
  }

  lemma {:induction false} ShowIsText(segments: seq<Segment>)
    requires IsTemplate(segments)
    ensures IsTemplateText(Show(segments), false)
  {
    if segments == [] {
    } else {
      var rest := Show(segments[1..]);
      ShowIsText(segments[1..]);
      match segments[0]
      case Literal(text) => TextContinues(text, rest, false);
      case Hole(name) =>
        TextContinues(name, "}" + rest, true);
        assert ("}" + rest)[1..] == rest;
        assert (Placeholder(name) + rest)[1..] == name + ("}" + rest);
    }
  }

  /** Up to a closing brace, text that reads as a template ends inside a hole. */
  lemma {:induction false} TextSpansHoles(s: string, rest: string, inside: bool)
    requires IsTemplateText(s + "}" + rest, inside)
    ensures SpansHoles(s, inside)
  {
    var t := s + "}" + rest;
    if s == "" {
      assert t[0] == '}';
    } else {
      assert t[0] == s[0] && t[1..] == s[1..] + "}" + rest;
      TextSpansHoles(s[1..], rest, if s[0] == '{' then true else if s[0] == '}' then false else inside);
    }
  }

  lemma {:induction false} NeverMatches(s: string, inside: bool, name: string, value: string)
    requires IsTemplateText(s, inside) && !SpansHoles(name, true)
    ensures ReplaceAll(s, Placeholder(name), value) == s
    decreases s
  {
    var p := Placeholder(name);
    if |s| >= |p| {
      if s[..|p|] == p {
        assert s[0] == p[0] == '{' && !inside;
        assert s == p + s[|p|..];
        assert s[1..] == name + "}" + s[|p|..];
        TextSpansHoles(name, s[|p|..], true);
      } else {
        NeverMatches(s[1..], if s[0] == '{' then true else if s[0] == '}' then false else inside, name, value);
        assert [s[0]] + s[1..] == s;
      }
    }
  }

  lemma {:induction false} SubstituteOther(segments: seq<Segment>, name: string, value: string)
    requires IsTemplate(segments) && !BraceFree(name)
    ensures Substitute(segments, map[name := value]) == segments
  {
    if segments == [] {
    } else {
      SubstituteOther(segments[1..], name, value);
    }
  }

  /** One `replace` fills exactly the holes of that name. */
  lemma OneReplacement(segments: seq<Segment>, name: string, value: string)
    requires IsTemplate(segments) && IsSafeName(name)
    ensures ReplaceAll(Show(segments), Placeholder(name), value) == Show(Substitute(segments, map[name := value]))
  {
    if BraceFree(name) {
      PlainReplacement(segments, name, value);
    } else {
      ShowIsText(segments);
      NeverMatches(Show(segments), false, name, value);
      SubstituteOther(segments, name, value);
    }
  }

  /** `s` with the unfinished segment read so far put back in front of it. */
  function Unread(s: string, inside: bool, part: string): string {
    if inside then "{" + part + s else part + s
  }

  /** Text that reads as a template is the text of one. */
  lemma {:induction false} TextHasTemplate(s: string, inside: bool, part: string) returns (segments: seq<Segment>)
    requires IsTemplateText(s, inside) && BraceFree(part)
    ensures IsTemplate(segments) && Show(segments) == Unread(s, inside, part)
    decreases s
  {
    hide Show, IsTemplate, Placeholder, Unread;
    if s == "" {
      segments := [Literal(part)];
      NoSegments();
      Prepended(Literal(part), []);
      assert [Literal(part)] + [] == segments;
    } else if s[0] == '{' || s[0] == '}' {
      var rest := TextHasTemplate(s[1..], !inside, "");
      var first := if inside then Hole(part) else Literal(part);
      segments := [first] + rest;
      Prepended(first, rest);
    } else {
      segments := TextHasTemplate(s[1..], inside, part + [s[0]]);
    }
    ReadOn(s, inside, part);
  }

  lemma ReadOn(s: string, inside: bool, part: string)
    ensures s == "" && !inside ==> Unread(s, inside, part) == part + ""
    ensures s != "" && s[0] == '{' && !inside ==> Unread(s, inside, part) == part + Unread(s[1..], true, "")
    ensures s != "" && s[0] == '}' && inside ==>
      Unread(s, inside, part) == Placeholder(part) + Unread(s[1..], false, "")
    ensures s != "" ==> Unread(s, inside, part) == Unread(s[1..], inside, part + [s[0]])
  {
    if s != "" {
      assert s == [s[0]] + s[1..];
      assert part + s == part + [s[0]] + s[1..];
    }
  }

  lemma NoSegments()
    ensures IsTemplate([])
  {
  }

  lemma Prepended(first: Segment, rest: seq<Segment>)
    requires IsTemplate(rest) && (match first case Literal(text) => BraceFree(text) case Hole(name) => BraceFree(name))
    ensures IsTemplate([first] + rest) && Show([first] + rest) == Show([first]) + Show(rest)
    ensures first.Literal? ==> Show([first]) == first.text
    ensures first.Hole? ==> Show([first]) == Placeholder(first.name)
    ensures Show([]) == ""
  {
    hide Placeholder;
    ShowOne(first);
    assert ([first] + rest)[1..] == rest;
  }

  lemma {:induction false} SpanIsText(s: string, inside: bool)
    requires SpansHoles(s, inside)
    ensures IsTemplateText(s + "}", inside)
  {
    if s == "" {
      assert s + "}" == "}";
    } else {
      assert (s + "}")[1..] == s[1..] + "}";
      SpanIsText(s[1..], if s[0] == '{' then true else if s[0] == '}' then false else inside);
    }
  }

  /** The exact condition: a name is safe if and only if its replacement is right on every template. */
  lemma ReplacementIsRightIffSafe(name: string)
    ensures IsSafeName(name) <==> forall segments, value :: IsTemplate(segments) ==>
      ReplaceAll(Show(segments), Placeholder(name), value) == Show(Substitute(segments, map[name := value]))
  {
    if IsSafeName(name) {
      forall segments, value | IsTemplate(segments)
        ensures ReplaceAll(Show(segments), Placeholder(name), value) == Show(Substitute(segments, map[name := value]))
      {
        OneReplacement(segments, name, value);
      }
    } else {
      var p := Placeholder(name);
      SpanIsText(name, true);
      assert p[1..] == name + "}";
      var segments := TextHasTemplate(p, false, "");
      assert Show(segments) == p;
      SubstituteOther(segments, name, "");
      assert p[..|p|] == p && ReplaceAll(p, p, "") == "";
    }
  }
}

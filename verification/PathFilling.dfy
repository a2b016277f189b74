/**
 The loop over the path parameters: when one replacement after another is the simultaneous
 substitution the template asks for.
 */
module PathFilling {
  import opened Bytes
  import opened PathTemplate
  import opened Text

  lemma {:induction false} SubstituteTwice(segments: seq<Segment>, name: string, value: string,
                                           env: map<string, string>)
    requires name in env ==> env[name] == value
    ensures Substitute(Substitute(segments, map[name := value]), env) == Substitute(segments, env[name := value])
  {
    if segments == [] {
    } else {
      SubstituteTwice(segments[1..], name, value, env);
    }
  }

  lemma {:induction false} SubstituteNothing(segments: seq<Segment>)
    ensures Substitute(segments, map[]) == segments
  {
    if segments == [] {
    } else {
      SubstituteNothing(segments[1..]);
    }
  }

  lemma {:induction false} SubstituteKeepsTemplate(segments: seq<Segment>, name: string, value: string)
    requires IsTemplate(segments) && BraceFree(value)
    ensures IsTemplate(Substitute(segments, map[name := value]))
  {
    if segments == [] {
    } else {
      SubstituteKeepsTemplate(segments[1..], name, value);
      var r := Substitute(segments, map[name := value]);
      assert r[1..] == Substitute(segments[1..], map[name := value]);
      forall i | 0 <= i < |r|
        ensures match r[i] case Literal(text) => BraceFree(text) case Hole(name) => BraceFree(name)
      {
        if i > 0 { assert r[i] == r[1..][i - 1]; }
      }
    }
  }

  // ---- which holes a name spans ----

  /** The holes that text closes, `part` being what is already read of the one it starts in. */
  function TextHoles(s: string, inside: bool, part: string): set<string> {
    if s == "" then {}
    else if s[0] == '{' then TextHoles(s[1..], true, "")
    else if s[0] == '}' then {part} + TextHoles(s[1..], false, "")
    else TextHoles(s[1..], inside, if inside then part + [s[0]] else "")
  }

  /** The holes that lie between the braces of a placeholder of this name. */
  function SpannedHoles(name: string): set<string> {
    TextHoles(name + "}", true, "")
  }

  function HoleNames(segments: seq<Segment>): set<string> {
    set i | 0 <= i < |segments| && segments[i].Hole? :: segments[i].name
  }

  lemma {:induction false} PrefixHoles(s: string, rest: string, inside: bool, part: string)
    ensures TextHoles(s, inside, part) <= TextHoles(s + rest, inside, part)
    decreases s
  {
    if s == "" {
      assert s + rest == rest;
    } else {
      var t := s + rest;
      assert t[0] == s[0] && t[1..] == s[1..] + rest;
      if s[0] == '{' {
        PrefixHoles(s[1..], rest, true, "");
      } else if s[0] == '}' {
        PrefixHoles(s[1..], rest, false, "");
      } else {
        PrefixHoles(s[1..], rest, inside, if inside then part + [s[0]] else "");
      }
    }
  }

  lemma {:induction false} LiteralHasNoHoles(text: string, rest: string)
    requires BraceFree(text)
    ensures TextHoles(text + rest, false, "") == TextHoles(rest, false, "")
  {
    if text == "" {
      assert text + rest == rest;
    } else {
      assert (text + rest)[1..] == text[1..] + rest;
      LiteralHasNoHoles(text[1..], rest);
    }
  }

  lemma {:induction false} HoleIsOneHole(name: string, rest: string, part: string)
    requires BraceFree(name)
    ensures TextHoles(name + ("}" + rest), true, part) == {part + name} + TextHoles(rest, false, "")
    decreases name
  {
    var t := name + ("}" + rest);
    if name == "" {
      assert t[1..] == rest && part + name == part;
    } else {
      assert t[0] == name[0] && t[1..] == name[1..] + ("}" + rest);
      HoleIsOneHole(name[1..], rest, part + [name[0]]);
      assert part + [name[0]] + name[1..] == part + name;
    }
  }

  lemma HoleShown(name: string, rest: string)
    requires BraceFree(name)
    ensures TextHoles(Placeholder(name) + rest, false, "") == {name} + TextHoles(rest, false, "")
  {
    HoleIsOneHole(name, rest, "");
    assert (Placeholder(name) + rest)[1..] == name + ("}" + rest);
    assert "" + name == name;
  }

  lemma {:induction false} ShownHoles(segments: seq<Segment>)
    requires IsTemplate(segments)
    ensures TextHoles(Show(segments), false, "") == HoleNames(segments)
  {
    if segments == [] {
    } else {
      hide TextHoles, HoleNames, Placeholder;
      var rest := Show(segments[1..]);
      ShownHoles(segments[1..]);
      FirstHoleName(segments);
      match segments[0]
      case Literal(text) => LiteralHasNoHoles(text, rest);
      case Hole(name) => HoleShown(name, rest);
    }
  }

  lemma FirstHoleName(segments: seq<Segment>)
    requires segments != []
    ensures HoleNames(segments) == HoleNames(segments[1..]) + if segments[0].Hole? then {segments[0].name} else {}
  {
    forall n
      ensures n in HoleNames(segments) <==>
        n in HoleNames(segments[1..]) || (segments[0].Hole? && n == segments[0].name)
    {
      if i :| 0 <= i < |segments| && segments[i].Hole? && segments[i].name == n {
        if i > 0 { assert segments[1..][i - 1] == segments[i]; }
      }
      if i :| 0 <= i < |segments[1..]| && segments[1..][i].Hole? && segments[1..][i].name == n {
        assert segments[i + 1] == segments[1..][i];
      }
    }
  }

  /** A placeholder that spans a hole the text does not have is not found in it. */
  lemma {:induction false} MissingHole(s: string, inside: bool, part: string, name: string, value: string, hole: string)
    requires hole in SpannedHoles(name) && hole !in TextHoles(s, inside, part)
    ensures ReplaceAll(s, Placeholder(name), value) == s
    decreases s
  {
    hide SpannedHoles;
    if s == "" {
    } else {
      ReplaceHead(s, Placeholder(name), value);
      NotAtHead(s, inside, part, name, hole);
      if s[0] == '{' {
        MissingHole(s[1..], true, "", name, value, hole);
      } else if s[0] == '}' {
        MissingHole(s[1..], false, "", name, value, hole);
      } else {
        MissingHole(s[1..], inside, if inside then part + [s[0]] else "", name, value, hole);
      }
      assert [s[0]] + s[1..] == s;
    }
  }

  lemma NotAtHead(s: string, inside: bool, part: string, name: string, hole: string)
    requires s != "" && hole in SpannedHoles(name) && hole !in TextHoles(s, inside, part)
    ensures !(Placeholder(name) <= s)
  {
    var p := Placeholder(name);
    if p <= s {
      assert s[0] == '{' && s == p + s[|p|..];
      assert s[1..] == (name + "}") + s[|p|..];
      PrefixHoles(name + "}", s[|p|..], true, "");
    }
  }

  // ---- lists of names ----

  /** A name that is safe, or that spans a hole already filled by the time it is replaced. */
  predicate IsGood(name: string, filled: set<string>) {
    IsSafeName(name) || SpannedHoles(name) * filled != {}
  }

  /** Every name of the list is good when its turn comes. */
  predicate AreGood(names: seq<string>, filled: set<string>)
    decreases names
  {
    names == [] || (IsGood(names[0], filled) && AreGood(names[1..], filled + {names[0]}))
  }

  lemma GoodReplacement(segments: seq<Segment>, name: string, value: string, filled: set<string>)
    requires IsTemplate(segments) && IsGood(name, filled) && HoleNames(segments) !! filled
    ensures ReplaceAll(Show(segments), Placeholder(name), value) == Show(Substitute(segments, map[name := value]))
  {
    hide SpannedHoles, HoleNames, ReplaceAll, Show, Substitute;
    if IsSafeName(name) {
      OneReplacement(segments, name, value);
    } else {
      var hole :| hole in SpannedHoles(name) && hole in filled;
      ShownHoles(segments);
      MissingHole(Show(segments), false, "", name, value, hole);
      SubstituteOther(segments, name, value);
    }
  }

  lemma {:induction false} FilledHoles(segments: seq<Segment>, name: string, value: string)
    ensures HoleNames(Substitute(segments, map[name := value])) == HoleNames(segments) - {name}
  {
    if segments == [] {
    } else {
      var r := Substitute(segments, map[name := value]);
      FilledHoles(segments[1..], name, value);
      assert r[1..] == Substitute(segments[1..], map[name := value]);
      FirstHoleName(segments);
      FirstHoleName(r);
    }
  }

  lemma {:induction false} FillAfter(segments: seq<Segment>, names: seq<string>, params: map<string, seq<Byte>>,
                                     filled: set<string>)
    requires IsTemplate(segments) && HoleNames(segments) !! filled && AreGood(names, filled)
    requires forall n :: n in names ==> n in params
    ensures FillFrom(Show(segments), names, params) == Filled(Show(Substitute(segments, Quoted(names, params))))
    decreases names
  {
    hide Substitute, Show, ReplaceAll, Quote, IsGood, HoleNames;
    if names == [] {
      assert Quoted(names, params) == map[];
      SubstituteNothing(segments);
    } else {
      var n, env := names[0], Quoted(names[1..], params);
      var value := Quote(params[n]);
      QuotedAlphabet(params[n]);
      GoodReplacement(segments, n, value, filled);
      SubstituteKeepsTemplate(segments, n, value);
      FilledHoles(segments, n, value);
      FillAfter(Substitute(segments, map[n := value]), names[1..], params, filled + {n});
      SubstituteTwice(segments, n, value, env);
      assert Quoted(names, params) == env[n := value];
    }
  }

  /** One replacement after another is simultaneous substitution. */
  lemma FillIsSimultaneous(segments: seq<Segment>, names: seq<string>, params: map<string, seq<Byte>>)
    requires IsTemplate(segments) && AreGood(names, {})
    requires forall n :: n in names ==> n in params
    ensures FillFrom(Show(segments), names, params) == Filled(Show(Substitute(segments, Quoted(names, params))))
  {
    FillAfter(segments, names, params, {});
  }

  // ---- a list that is not good goes wrong ----

  ghost function Elements(names: seq<string>): set<string> {
    set n | n in names
  }

  lemma {:induction false} FirstBad(names: seq<string>, filled: set<string>) returns (i: nat)
    requires !AreGood(names, filled)
    ensures i < |names| && AreGood(names[..i], filled)
    ensures !IsGood(names[i], filled + Elements(names[..i]))
    decreases names
  {
    hide IsGood;
    if !IsGood(names[0], filled) {
      i := 0;
      assert filled + Elements(names[..0]) == filled;
    } else {
      i := FirstBad(names[1..], filled + {names[0]});
      assert names[..i + 1][1..] == names[1..][..i] && names[..i + 1][0] == names[0];
      assert filled + {names[0]} + Elements(names[1..][..i]) == filled + Elements(names[..i + 1]);
      i := i + 1;
    }
  }

  lemma {:induction false} SubstituteAbsent(segments: seq<Segment>, name: string, value: string)
    requires name !in HoleNames(segments)
    ensures Substitute(segments, map[name := value]) == segments
  {
    if segments == [] {
    } else {
      FirstHoleName(segments);
      SubstituteAbsent(segments[1..], name, value);
    }
  }

  /** Good names that fill no hole of a template leave its text as it is. */
  lemma {:induction false} Untouched(segments: seq<Segment>, before: seq<string>, after: seq<string>,
                                     params: map<string, seq<Byte>>, filled: set<string>)
    requires IsTemplate(segments) && AreGood(before, filled) && forall n :: n in before ==> n in params
    requires HoleNames(segments) !! filled && forall n :: n in before ==> n !in HoleNames(segments)
    ensures FillFrom(Show(segments), before + after, params) == FillFrom(Show(segments), after, params)
    decreases before
  {
    hide Substitute, Show, ReplaceAll, Quote, IsGood, HoleNames;
    if before == [] {
      assert before + after == after;
    } else {
      var n := before[0];
      GoodReplacement(segments, n, Quote(params[n]), filled);
      SubstituteAbsent(segments, n, Quote(params[n]));
      assert (before + after)[0] == n && (before + after)[1..] == before[1..] + after;
      Untouched(segments, before[1..], after, params, filled + {n});
    }
  }

  lemma {:induction false} NothingLeftToFill(text: string, names: seq<string>, params: map<string, seq<Byte>>)
    requires '{' !in text && forall n :: n in names ==> n in params
    ensures FillFrom(text, names, params) == Filled(text)
    decreases names
  {
    hide ReplaceAll, Quote;
    if names == [] {
    } else {
      BraceFreeTextKept(text, "", names[0], Quote(params[names[0]]));
      NothingToReplace(names[0], Quote(params[names[0]]));
      assert text + "" == text;
      NothingLeftToFill(text, names[1..], params);
    }
  }

  lemma {:induction false} EmptyValuesShrink(segments: seq<Segment>, env: map<string, string>)
    requires forall h :: h in HoleNames(segments) && h in env ==> env[h] == ""
    ensures |Show(Substitute(segments, env))| <= |Show(segments)|
  {
    if segments == [] {
    } else {
      FirstHoleName(segments);
      EmptyValuesShrink(segments[1..], env);
      assert Substitute(segments, env)[1..] == Substitute(segments[1..], env);
    }
  }

  /** A value too long to be what the template could give with all its holes empty. */
  function LongValue(name: string): seq<Byte> {
    seq(|name| + 3, _ => 120)
  }

  lemma LongValueIsKept(name: string)
    ensures BraceFree(Quote(LongValue(name))) && |Quote(LongValue(name))| == |name| + 3
  {
    UnreservedIsKept(LongValue(name));
    QuotedAlphabet(LongValue(name));
  }

  /** The template whose text is the placeholder of an unsafe name. */
  lemma SwallowedTemplate(name: string) returns (segments: seq<Segment>)
    requires !IsSafeName(name)
    ensures IsTemplate(segments) && Show(segments) == Placeholder(name) && HoleNames(segments) == SpannedHoles(name)
  {
    var p := Placeholder(name);
    SpanIsText(name, true);
    assert p[1..] == name + "}";
    segments := TextHasTemplate(p, false, "");
    assert Unread(p, false, "") == p;
    ShownHoles(segments);
  }

  /** Parameters for which the name at `i` takes a place that is not its own. */
  function Telltale(names: seq<string>, i: nat): map<string, seq<Byte>>
    requires i < |names|
  {
    map n | n in names :: if n == names[i] then LongValue(n) else []
  }

  lemma BadListBreaks(names: seq<string>, i: nat) returns (segments: seq<Segment>)
    requires i < |names| && AreGood(names[..i], {}) && !IsGood(names[i], Elements(names[..i]))
    ensures IsTemplate(segments)
    ensures FillFrom(Show(segments), names, Telltale(names, i))
         != Filled(Show(Substitute(segments, Quoted(names, Telltale(names, i)))))
  {
    var name, params := names[i], Telltale(names, i);
    var p, value := Placeholder(name), Quote(params[name]);
    segments := SwallowedTemplate(name);
    assert forall n :: n in names[..i] ==> n in Elements(names[..i]);
    assert forall n :: n in Elements(names[..i]) ==> n !in SpannedHoles(name);
    SwallowedWhole(segments, names, i, params);
    HolesStayEmpty(segments, names, i);
    LongValueIsKept(name);
    EmptyValuesShrink(segments, Quoted(names, params));
  }

  lemma SwallowedWhole(segments: seq<Segment>, names: seq<string>, i: nat, params: map<string, seq<Byte>>)
    requires i < |names| && AreGood(names[..i], {}) && params == Telltale(names, i)
    requires IsTemplate(segments) && Show(segments) == Placeholder(names[i])
    requires forall n :: n in names[..i] ==> n !in HoleNames(segments)
    ensures FillFrom(Show(segments), names, params) == Filled(Quote(LongValue(names[i])))
  {
    hide AreGood, HoleNames, Show, Placeholder, Quote, LongValue;
    var name := names[i];
    var value := Quote(params[name]);
    assert names == names[..i] + names[i..];
    Untouched(segments, names[..i], names[i..], params, {});
    assert names[i..][0] == name && names[i..][1..] == names[i + 1..];
    WholeIsReplaced(name, value);
    LongValueIsKept(name);
    NothingLeftToFill(value, names[i + 1..], params);
  }

  lemma WholeIsReplaced(name: string, value: string)
    ensures ReplaceAll(Placeholder(name), Placeholder(name), value) == value
  {
    var p := Placeholder(name);
    ReplaceHead(p, p, value);
    assert p[|p|..] == "" && value + "" == value;
  }

  lemma HolesStayEmpty(segments: seq<Segment>, names: seq<string>, i: nat)
    requires i < |names| && !IsSafeName(names[i]) && IsTemplate(segments)
    ensures var env := Quoted(names, Telltale(names, i));
      forall h :: h in HoleNames(segments) && h in env ==> env[h] == ""
  {
    assert Quote([]) == "";
  }

  /** Main result: the loop is right on every template and for all values if and only if the list is good. */
  lemma FillIsRightIffGood(names: seq<string>)
    ensures AreGood(names, {}) <==>
      forall segments, params: map<string, seq<Byte>> ::
        IsTemplate(segments) && (forall n :: n in names ==> n in params) ==>
          FillFrom(Show(segments), names, params) == Filled(Show(Substitute(segments, Quoted(names, params))))
  {
    hide AreGood, IsTemplate, FillFrom, Substitute, Show, IsGood;
    if AreGood(names, {}) {
      forall segments, params: map<string, seq<Byte>> | IsTemplate(segments) && forall n :: n in names ==> n in params
        ensures FillFrom(Show(segments), names, params) == Filled(Show(Substitute(segments, Quoted(names, params))))
      {
        FillIsSimultaneous(segments, names, params);
      }
    } else {
      var i := FirstBad(names, {});
      assert {} + Elements(names[..i]) == Elements(names[..i]);
      var segments := BadListBreaks(names, i);
      assert forall n :: n in names ==> n in Telltale(names, i);
    }
  }

  /** The smallest case: one name that spans two holes swallows both. */
  lemma BracedNameSpansHoles()
    ensures var segments := [Hole("a"), Hole("b")]; var params: map<string, seq<Byte>> := map["a}{b" := []];
      && IsTemplate(segments)
      && FillFrom(Show(segments), ["a}{b"], params) == Filled("")
      && Show(Substitute(segments, Quoted(["a}{b"], params))) == "{a}{b}"
  {
    var segments := [Hole("a"), Hole("b")];
    var params: map<string, seq<Byte>> := map["a}{b" := []];
    assert segments[1..] == [Hole("b")] && [Hole("b")][1..] == [];
    assert Show([Hole("b")]) == "{b}" + Show([]);
    assert Show(segments) == "{a}" + Show(segments[1..]) == "{a}{b}" == Placeholder("a}{b");
    assert ReplaceAll("{a}{b}", "{a}{b}", "") == "";
    assert FillFrom(Show(segments), ["a}{b"], params) == FillFrom("", ["a}{b"][1..], params);
    var env := Quoted(["a}{b"], params);
    assert env.Keys == {"a}{b"} && "a" !in env && "b" !in env by {
      assert |"a"| == 1 && |"b"| == 1 && |"a}{b"| == 4;
    }
    assert Substitute(segments, env) == segments by {
      assert Substitute(segments[1..], env) == [Hole("b")] + Substitute([], env);
    }
  }

  /** The order in which the parameters are listed, and repetitions among them, do not matter. */
  lemma OrderDoesNotMatter(segments: seq<Segment>, names: seq<string>, others: seq<string>,
                           params: map<string, seq<Byte>>)
    requires IsTemplate(segments)
    requires AreGood(names, {}) && AreGood(others, {})
    requires forall n :: n in names ==> n in params
    requires forall n :: n in names <==> n in others
    ensures FillFrom(Show(segments), names, params) == FillFrom(Show(segments), others, params)
  {
    FillIsSimultaneous(segments, names, params);
    FillIsSimultaneous(segments, others, params);
    assert Quoted(names, params) == Quoted(others, params);
  }

  /** A refusal names the first parameter that was not supplied, and happens only for one. */
  lemma {:induction false} MissingIsFirst(path: string, names: seq<string>, params: map<string, seq<Byte>>)
    ensures FillFrom(path, names, params).Filled? <==> forall n :: n in names ==> n in params
    ensures forall i :: (0 <= i < |names| && names[i] !in params && (forall j :: 0 <= j < i ==> names[j] in params)
                         ==> FillFrom(path, names, params) == Missing(names[i]))
    decreases names
  {
    if names == [] {
    } else if names[0] in params {
      var path' := ReplaceAll(path, Placeholder(names[0]), Quote(params[names[0]]));
      MissingIsFirst(path', names[1..], params);
      forall i | 0 < i < |names| && names[i] !in params && (forall j :: 0 <= j < i ==> names[j] in params)
        ensures FillFrom(path, names, params) == Missing(names[i])
      {
        assert names[i] == names[1..][i - 1];
        assert forall j :: 0 <= j < i - 1 ==> names[1..][j] == names[j + 1];
      }
    }
  }

  /** Slashes inside the names of the holes that get filled. */
  function SlashesInFilledNames(segments: seq<Segment>, env: map<string, string>): nat {
    if segments == [] then 0
    else
      (if segments[0].Hole? && segments[0].name in env then Count(segments[0].name, '/') else 0)
      + SlashesInFilledNames(segments[1..], env)
  }

  /** No value can add a path separator: the count changes only by slashes in the filled names. */
  lemma {:induction false} SlashesAreKept(segments: seq<Segment>, env: map<string, string>)
    requires forall n :: n in env ==> '/' !in env[n]
    ensures Count(Show(Substitute(segments, env)), '/') + SlashesInFilledNames(segments, env)
         == Count(Show(segments), '/')
  {
    if segments == [] {
    } else {
      SlashesAreKept(segments[1..], env);
      var s, r := segments[0], Substitute(segments, env);
      assert r[1..] == Substitute(segments[1..], env);
      CountConcat(Show([s]), Show(segments[1..]), '/');
      CountConcat(Show([r[0]]), Show(r[1..]), '/');
      ShowOne(s);
      ShowOne(r[0]);
      if s.Hole? && s.name in env {
        CountNone(env[s.name], '/');
        CountPlaceholder(s.name);
      }
    }
  }

  lemma CountPlaceholder(name: string)
    ensures Count(Placeholder(name), '/') == Count(name, '/')
  {
    CountConcat("{", name + "}", '/');
    CountConcat(name, "}", '/');
    assert "{" + (name + "}") == Placeholder(name);
    assert Count("{"[1..], '/') == 0 && Count("}"[1..], '/') == 0;
  }

  /** The separators of a filled path are those of its template, when no name contains one. */
  lemma SeparatorsAreThoseOfTheTemplate(segments: seq<Segment>, names: seq<string>, params: map<string, seq<Byte>>)
    requires IsTemplate(segments) && AreGood(names, {})
    requires forall n :: n in names ==> n in params
    ensures FillFrom(Show(segments), names, params).Filled?
    ensures Count(FillFrom(Show(segments), names, params).path, '/')
         == Count(Show(segments), '/') - SlashesInFilledNames(segments, Quoted(names, params))
  {
    var env := Quoted(names, params);
    forall n | n in env
      ensures '/' !in env[n]
    {
      QuotedAlphabet(params[n]);
    }
    FillIsSimultaneous(segments, names, params);
    SlashesAreKept(segments, env);
  }
}

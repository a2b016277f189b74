/**
 The untrusted-input envelope. The tag pattern is a `<` followed, behind a lookahead, by gap
 characters, an optional slash, gap characters, the word `untrusted` in any case, and a word
 boundary.
 */
module TextEnvelope {
  import opened Text

  // ---- the pattern ----

  /** Python's `\s` together with the invisible format characters the pattern lists. */
  predicate IsGap(c: char) {
    || '\t' <= c <= '\r' || '\U{1C}' <= c <= ' ' || c == '\U{85}' || c == '\U{A0}' || c == '\U{AD}'
    || c == '\U{1680}' || '\U{2000}' <= c <= '\U{200F}' || c == '\U{2028}' || c == '\U{2029}'
    || c == '\U{202F}' || '\U{205F}' <= c <= '\U{2064}' || c == '\U{3000}' || c == '\U{FEFF}'
  }

  const TAG := "untrusted"

  /** Case-insensitive equality with a letter of the tag; folding also maps U+017F to `s`. */
  predicate SameLetter(c: char, letter: char)
    requires 'a' <= letter <= 'z'
  {
    c == letter || c as int + 32 == letter as int || (letter == 's' && c == '\U{17F}')
  }

  /** Word characters: ASCII ones are fixed, the rest are whatever the Unicode tables say. */
  predicate IsWord(c: char, beyondAscii: char -> bool) {
    'a' <= c <= 'z' || 'A' <= c <= 'Z' || '0' <= c <= '9' || c == '_' || (c >= '\U{80}' && beyondAscii(c))
  }

  function SkipGap(s: string): string {
    if s != "" && IsGap(s[0]) then SkipGap(s[1..]) else s
  }

  function SkipSlash(s: string): string {
    if s != "" && s[0] == '/' then s[1..] else s
  }

  /** The rest of the tag word, then a boundary: the last letter is a word character. */
  predicate SpellsTag(s: string, letters: string, beyond: char -> bool)
    requires forall i :: 0 <= i < |letters| ==> 'a' <= letters[i] <= 'z'
  {
    if letters == "" then s == "" || !IsWord(s[0], beyond)
    else s != "" && SameLetter(s[0], letters[0]) && SpellsTag(s[1..], letters[1..], beyond)
  }

  /** What the lookahead demands of the text after a `<`. */
  predicate Lookahead(s: string, beyond: char -> bool) {
    SpellsTag(SkipGap(SkipSlash(SkipGap(s))), TAG, beyond)
  }

  predicate StartsTag(s: string, beyond: char -> bool) {
    s != "" && s[0] == '<' && Lookahead(s[1..], beyond)
  }

  // ---- the code ----

  function Neutralise(content: string, beyond: char -> bool): string {
    if content == "" then ""
    else (if StartsTag(content, beyond) then "&lt;" else [content[0]]) + Neutralise(content[1..], beyond)
  }

  function SafeAttr(value: string): string {
    if value == "" then ""
    else [if value[0] in "<>\"\r\n" then '_' else value[0]] + SafeAttr(value[1..])
  }

  function OpenTag(kind: string, source: string): string {
    "<untrusted kind=\"" + SafeAttr(kind) + "\" source=\"" + SafeAttr(source) + "\">"
  }

  const CLOSE_TAG := "</untrusted>"

  function Wrap(kind: string, source: string, content: string, beyond: char -> bool): string {
    OpenTag(kind, source) + Neutralise(content, beyond) + CLOSE_TAG
  }

  // ---- the pattern as a regular expression ----

  /** Some way of splitting the text matches: gap, optional slash, gap, word, boundary. */
  ghost predicate LookaheadMatches(s: string, beyond: char -> bool) {
    exists i, j, k :: 0 <= i <= j <= k <= |s| && SplitMatches(s, i, j, k, beyond)
  }

  ghost predicate SplitMatches(s: string, i: nat, j: nat, k: nat, beyond: char -> bool)
    requires i <= j <= k <= |s|
  {
    && (forall p :: 0 <= p < i ==> IsGap(s[p]))
    && (j == i || (j == i + 1 && s[i] == '/'))
    && (forall p :: j <= p < k ==> IsGap(s[p]))
    && SpellsTag(s[k..], TAG, beyond)
  }

  lemma {:induction false} SkipGapSplits(s: string) returns (i: nat)
    ensures i <= |s| && SkipGap(s) == s[i..]
    ensures forall p :: 0 <= p < i ==> IsGap(s[p])
    ensures i < |s| ==> !IsGap(s[i])
  {
    if s != "" && IsGap(s[0]) {
      i := SkipGapSplits(s[1..]);
      i := i + 1;
    } else {
      i := 0;
    }
  }

  /** A leading run of gaps that stops before a non-gap is exactly what is skipped. */
  lemma {:induction false} SkipGapExact(s: string, i: nat)
    requires i <= |s| && (forall p :: 0 <= p < i ==> IsGap(s[p])) && (i < |s| ==> !IsGap(s[i]))
    ensures SkipGap(s) == s[i..]
  {
    if i == 0 {
    } else {
      SkipGapExact(s[1..], i - 1);
    }
  }

  /** Skipping greedily loses no match: neither a slash nor a letter of the tag is a gap. */
  lemma LookaheadIsRegex(s: string, beyond: char -> bool)
    ensures Lookahead(s, beyond) <==> LookaheadMatches(s, beyond)
  {
    var i := SkipGapSplits(s);
    var t := SkipSlash(s[i..]);
    var j := |s| - |t|;
    var g := SkipGapSplits(t);
    assert t == s[j..];
    assert SkipGap(t) == s[j + g..];
    if Lookahead(s, beyond) {
      assert forall p :: j <= p < j + g ==> s[p] == t[p - j];
      assert SplitMatches(s, i, j, j + g, beyond);
    }
    if LookaheadMatches(s, beyond) {
      var a, b, c :| 0 <= a <= b <= c <= |s| && SplitMatches(s, a, b, c, beyond);
      SplitIsGreedy(s, a, b, c, beyond);
    }
  }

  lemma SplitIsGreedy(s: string, a: nat, b: nat, c: nat, beyond: char -> bool)
    requires a <= b <= c <= |s| && SplitMatches(s, a, b, c, beyond)
    ensures Lookahead(s, beyond)
  {
    assert c < |s| && !IsGap(s[c]) && s[c] != '/' by {
      assert s[c..] != "" && SameLetter(s[c..][0], TAG[0]);
    }
    if b == a {
      SkipGapExact(s, c);
      SkipGapExact(s[c..], 0);
    } else {
      SkipGapExact(s, a);
      assert s[a..][1..] == s[b..];
      SkipGapExact(s[b..], c - b);
      assert s[b..][c - b..] == s[c..];
    }
  }

  // ---- the pattern spelled out ----

  /** The letters that stand for each place of the word. */
  const SPELLINGS := ["uU", "nN", "tT", "rR", "uU", "sS\U{17F}", "tT", "eE", "dD"]

  /** The gap characters by code point: white space and the invisible format characters. */
  ghost predicate IsListedGap(c: char) {
    var n := c as int;
    || 9 <= n <= 13 || 28 <= n <= 32 || n == 133 || n == 160 || n == 173 || n == 5760 || 8192 <= n <= 8207
    || n == 8232 || n == 8233 || n == 8239 || 8287 <= n <= 8292 || n == 12288 || n == 65279
  }

  /** ASCII letters, digits and the underscore by code point, and beyond ASCII what the tables say. */
  ghost predicate IsListedWord(c: char, beyond: char -> bool) {
    var n := c as int;
    48 <= n <= 57 || 65 <= n <= 90 || n == 95 || 97 <= n <= 122 || (n >= 128 && beyond(c))
  }

  /** A tag in five pieces after its bracket. */
  ghost predicate IsSpelledTag(s: string, gap: string, slash: string, gap': string, word: string, rest: string,
                               beyond: char -> bool)
  {
    && s == "<" + gap + slash + gap' + word + rest
    && (forall c :: c in gap || c in gap' ==> IsListedGap(c))
    && (slash == "" || slash == "/")
    && |word| == 9 && (forall i :: 0 <= i < 9 ==> word[i] in SPELLINGS[i])
    && (rest == "" || !IsListedWord(rest[0], beyond))
  }

  lemma {:induction false} SpellingIsLetters(s: string, letters: string, beyond: char -> bool)
    requires forall i :: 0 <= i < |letters| ==> 'a' <= letters[i] <= 'z'
    ensures SpellsTag(s, letters, beyond) <==>
      && |letters| <= |s| && (forall i :: 0 <= i < |letters| ==> SameLetter(s[i], letters[i]))
      && (|s| == |letters| || !IsWord(s[|letters|], beyond))
    decreases letters
  {
    if letters == "" {
    } else if s != "" {
      SpellingIsLetters(s[1..], letters[1..], beyond);
      assert (forall i :: 0 <= i < |letters| && i < |s| ==> SameLetter(s[i], letters[i])) <==>
        SameLetter(s[0], letters[0]) &&
        forall i :: 0 <= i < |letters| - 1 && i < |s| - 1 ==> SameLetter(s[1..][i], letters[1..][i]) by {
        assert forall i :: 0 <= i < |letters| - 1 ==> letters[1..][i] == letters[i + 1];
        assert forall i :: 0 <= i < |s| - 1 ==> s[1..][i] == s[i + 1];
      }
    }
  }

  lemma LettersAreSpellings(c: char, i: nat)
    requires i < 9
    ensures SameLetter(c, TAG[i]) <==> c in SPELLINGS[i]
  {
  }

  lemma ListedAlike(c: char, beyond: char -> bool)
    ensures IsGap(c) <==> IsListedGap(c)
    ensures IsWord(c, beyond) <==> IsListedWord(c, beyond)
  {
  }

  /** The word and what follows it, read either way. */
  lemma WordIsSpelled(t: string, beyond: char -> bool)
    ensures SpellsTag(t, TAG, beyond) <==>
      && |t| >= 9 && (forall i :: 0 <= i < 9 ==> t[..9][i] in SPELLINGS[i])
      && (t[9..] == "" || !IsListedWord(t[9..][0], beyond))
  {
    hide SpellsTag, SameLetter, IsWord, IsListedWord;
    SpellingIsLetters(t, TAG, beyond);
    if |t| >= 9 {
      forall i | 0 <= i < 9
        ensures SameLetter(t[i], TAG[i]) <==> t[..9][i] in SPELLINGS[i]
      {
        LettersAreSpellings(t[i], i);
      }
      if |t| > 9 { ListedAlike(t[9], beyond); }
    }
  }

  lemma GapsAreListed(t: string, i: nat, j: nat, beyond: char -> bool)
    requires i <= j <= |t|
    ensures (forall p :: i <= p < j ==> IsGap(t[p])) <==> forall c :: c in t[i..j] ==> IsListedGap(c)
  {
    hide IsGap, IsListedGap;
    forall p | i <= p < j
      ensures IsGap(t[p]) <==> IsListedGap(t[p])
    {
      ListedAlike(t[p], beyond);
    }
    assert forall p :: i <= p < j ==> t[p] == t[i..j][p - i] && t[p] in t[i..j];
  }

  /** A split and the five pieces it cuts the text into. */
  lemma SplitIsSpelled(s: string, i: nat, j: nat, k: nat, beyond: char -> bool)
    requires s != "" && s[0] == '<' && i <= j <= k <= |s[1..]|
    ensures SplitMatches(s[1..], i, j, k, beyond) ==>
      k + 9 <= |s[1..]| &&
      IsSpelledTag(s, s[1..][..i], s[1..][i..j], s[1..][j..k], s[1..][k..k + 9], s[1..][k + 9..], beyond)
  {
    hide SpellsTag, IsGap, IsListedGap, IsListedWord;
    var t := s[1..];
    if SplitMatches(t, i, j, k, beyond) {
      WordIsSpelled(t[k..], beyond);
      assert t[k..][..9] == t[k..k + 9] && t[k..][9..] == t[k + 9..];
      GapsAreListed(t, 0, i, beyond);
      GapsAreListed(t, j, k, beyond);
      assert t[0..i] == t[..i];
      assert t[i..j] == "" || t[i..j] == "/";
      FivePieces(s, i, j, k);
    }
  }

  lemma FivePieces(s: string, i: nat, j: nat, k: nat)
    requires s != "" && s[0] == '<' && i <= j <= k && k + 9 <= |s[1..]|
    ensures s == "<" + s[1..][..i] + s[1..][i..j] + s[1..][j..k] + s[1..][k..k + 9] + s[1..][k + 9..]
  {
    var t := s[1..];
    assert t == t[..i] + t[i..j] + t[j..k] + t[k..k + 9] + t[k + 9..];
    assert s == "<" + t;
  }

  lemma SpelledIsSplit(s: string, gap: string, slash: string, gap': string, word: string, rest: string,
                       beyond: char -> bool)
    requires IsSpelledTag(s, gap, slash, gap', word, rest, beyond)
    ensures s != "" && s[0] == '<' && LookaheadMatches(s[1..], beyond)
  {
    hide SpellsTag, IsGap, IsListedGap, IsListedWord;
    var t := s[1..];
    var i, j, k := |gap|, |gap + slash|, |gap + slash + gap'|;
    PiecesOf(s, gap, slash, gap', word, rest);
    assert (word + rest)[..9] == word && (word + rest)[9..] == rest;
    WordIsSpelled(t[k..], beyond);
    GapsAreListed(t, 0, i, beyond);
    GapsAreListed(t, j, k, beyond);
    assert SplitMatches(t, i, j, k, beyond);
  }

  lemma PiecesOf(s: string, gap: string, slash: string, gap': string, word: string, rest: string)
    requires s == "<" + gap + slash + gap' + word + rest
    ensures var t, i, j, k := s[1..], |gap|, |gap + slash|, |gap + slash + gap'|;
      t[0..i] == gap && t[i..j] == slash && t[j..k] == gap' && t[k..] == word + rest
      && (slash == "/" ==> t[i] == '/')
  {
    var t := s[1..];
    assert t == gap + slash + gap' + (word + rest);
  }

  /** Some five pieces make the text a tag. */
  ghost predicate CanBeSpelled(s: string, beyond: char -> bool) {
    exists gap, slash, gap', word, rest :: IsSpelledTag(s, gap, slash, gap', word, rest, beyond)
  }

  lemma TagIsSpelled(s: string, beyond: char -> bool)
    requires StartsTag(s, beyond)
    ensures CanBeSpelled(s, beyond)
  {
    hide Lookahead, SplitMatches, IsSpelledTag;
    LookaheadIsRegex(s[1..], beyond);
    var i, j, k :| 0 <= i <= j <= k <= |s[1..]| && SplitMatches(s[1..], i, j, k, beyond);
    SplitIsSpelled(s, i, j, k, beyond);
  }

  lemma SpelledIsTag(s: string, beyond: char -> bool)
    requires CanBeSpelled(s, beyond)
    ensures StartsTag(s, beyond)
  {
    hide Lookahead, LookaheadMatches, IsSpelledTag;
    var gap, slash, gap', word, rest :| IsSpelledTag(s, gap, slash, gap', word, rest, beyond);
    SpelledIsSplit(s, gap, slash, gap', word, rest, beyond);
    LookaheadIsRegex(s[1..], beyond);
  }

  /** A tag is exactly what can be spelled: any listed gap, an optional slash, the word in any mix of cases. */
  lemma TagIffSpelled(s: string, beyond: char -> bool)
    ensures StartsTag(s, beyond) <==>
      exists gap, slash, gap', word, rest :: IsSpelledTag(s, gap, slash, gap', word, rest, beyond)
  {
    hide StartsTag, IsSpelledTag;
    if StartsTag(s, beyond) { TagIsSpelled(s, beyond); }
    if CanBeSpelled(s, beyond) { SpelledIsTag(s, beyond); }
  }

  // ---- rewriting does not disturb the lookahead ----

  /** `&` and `<` are neither gap, slash, letter nor word character, so they end any match alike. */
  predicate IsStop(c: char) {
    c == '<' || c == '&'
  }

  lemma {:induction false} NeutralisedGap(s: string, beyond: char -> bool)
    ensures SkipGap(Neutralise(s, beyond)) == Neutralise(SkipGap(s), beyond)
  {
    hide StartsTag;
    if s != "" && IsGap(s[0]) {
      NeutralisedHead(s, beyond);
      NeutralisedGap(s[1..], beyond);
    } else if s != "" {
      NeutralisedHead(s, beyond);
    }
  }

  lemma NeutralisedHead(s: string, beyond: char -> bool)
    requires s != ""
    ensures Neutralise(s, beyond) != ""
    ensures s[0] != '<' ==> Neutralise(s, beyond)[0] == s[0] && Neutralise(s, beyond)[1..] == Neutralise(s[1..], beyond)
    ensures s[0] == '<' ==> IsStop(Neutralise(s, beyond)[0])
  {
    hide Lookahead;
  }

  lemma {:induction false} NeutralisedSpelling(s: string, letters: string, beyond: char -> bool)
    requires forall i :: 0 <= i < |letters| ==> 'a' <= letters[i] <= 'z'
    ensures SpellsTag(Neutralise(s, beyond), letters, beyond) <==> SpellsTag(s, letters, beyond)
    decreases letters
  {
    hide Neutralise;
    if s == "" {
      NeutralisedEmpty(beyond);
    } else {
      NeutralisedHead(s, beyond);
      if letters != "" && s[0] != '<' {
        NeutralisedSpelling(s[1..], letters[1..], beyond);
      }
    }
  }

  lemma NeutralisedEmpty(beyond: char -> bool)
    ensures Neutralise("", beyond) == ""
  {
  }

  lemma NeutralisedSlash(s: string, beyond: char -> bool)
    ensures SkipSlash(Neutralise(s, beyond)) == Neutralise(SkipSlash(s), beyond)
  {
    hide Neutralise;
    if s == "" {
      NeutralisedEmpty(beyond);
    } else {
      NeutralisedHead(s, beyond);
    }
  }

  /** Rewriting other `<` characters leaves each lookahead as it was. */
  lemma NeutralisedLookahead(s: string, beyond: char -> bool)
    ensures Lookahead(Neutralise(s, beyond), beyond) <==> Lookahead(s, beyond)
  {
    hide Neutralise, SpellsTag, SkipGap, SkipSlash;
    NeutralisedGap(s, beyond);
    NeutralisedSlash(SkipGap(s), beyond);
    NeutralisedGap(SkipSlash(SkipGap(s)), beyond);
    NeutralisedSpelling(SkipGap(SkipSlash(SkipGap(s))), TAG, beyond);
  }

  // ---- text that follows cannot complete a match ----

  lemma {:induction false} GapBeforeStop(s: string, u: string)
    requires u != "" && IsStop(u[0])
    ensures SkipGap(s + u) == SkipGap(s) + u
  {
    if s == "" {
      assert s + u == u && SkipGap(u) == u && SkipGap(s) + u == u;
    } else {
      assert (s + u)[0] == s[0] && (s + u)[1..] == s[1..] + u;
      if IsGap(s[0]) { GapBeforeStop(s[1..], u); }
    }
  }

  lemma {:induction false} SpellingBeforeStop(s: string, u: string, letters: string, beyond: char -> bool)
    requires u != "" && IsStop(u[0])
    requires forall i :: 0 <= i < |letters| ==> 'a' <= letters[i] <= 'z'
    ensures SpellsTag(s + u, letters, beyond) <==> SpellsTag(s, letters, beyond)
    decreases letters
  {
    if s == "" {
      assert s + u == u;
    } else {
      assert (s + u)[1..] == s[1..] + u;
      if letters != "" { SpellingBeforeStop(s[1..], u, letters[1..], beyond); }
    }
  }

  /** A `<` that follows reads like the end of the text. */
  lemma LookaheadBeforeStop(s: string, u: string, beyond: char -> bool)
    requires u != "" && IsStop(u[0])
    ensures Lookahead(s + u, beyond) <==> Lookahead(s, beyond)
  {
    hide SpellsTag, SkipGap;
    GapBeforeStop(s, u);
    assert SkipSlash(SkipGap(s) + u) == SkipSlash(SkipGap(s)) + u;
    GapBeforeStop(SkipSlash(SkipGap(s)), u);
    SpellingBeforeStop(SkipGap(SkipSlash(SkipGap(s))), u, TAG, beyond);
  }

  // ---- the claims ----

  /** The positions of a text at which the tag pattern matches. */
  ghost function TagPositions(s: string, beyond: char -> bool): set<nat> {
    set i: nat | i < |s| && StartsTag(s[i..], beyond)
  }

  /** In neutralised text followed by a stop, no position of the text matches. */
  lemma {:induction false} NoTagInside(s: string, u: string, beyond: char -> bool, i: nat)
    requires i < |Neutralise(s, beyond)| && (u == "" || IsStop(u[0]))
    ensures !StartsTag((Neutralise(s, beyond) + u)[i..], beyond)
    decreases s
  {
    hide Lookahead;
    var body, rest := Neutralise(s, beyond), Neutralise(s[1..], beyond);
    var head := if StartsTag(s, beyond) then "&lt;" else [s[0]];
    assert body == head + rest;
    if i >= |head| {
      assert (body + u)[i..] == (rest + u)[i - |head|..];
      NoTagInside(s[1..], u, beyond, i - |head|);
    } else {
      assert (body + u)[i..][0] == head[i];
      if head[i] == '<' {
        assert i == 0 && |head| == 1;
        assert (body + u)[i..][1..] == rest + u;
        NeutralisedLookahead(s[1..], beyond);
        if u == "" {
          assert rest + u == rest;
        } else {
          LookaheadBeforeStop(rest, u, beyond);
        }
      }
    }
  }

  lemma NeutralisedHasNoTag(s: string, beyond: char -> bool)
    ensures TagPositions(Neutralise(s, beyond), beyond) == {}
  {
    hide Neutralise, StartsTag;
    var body := Neutralise(s, beyond);
    forall i: nat | i < |body|
      ensures !StartsTag(body[i..], beyond)
    {
      NoTagInside(s, "", beyond, i);
      assert body + "" == body;
    }
  }

  /** Text with no tag is left alone. */
  lemma {:induction false} UntaggedIsKept(s: string, beyond: char -> bool)
    requires TagPositions(s, beyond) == {}
    ensures Neutralise(s, beyond) == s
  {
    hide StartsTag;
    if s == "" {
    } else {
      assert s[0..] == s && 0 !in TagPositions(s, beyond);
      forall i: nat | i < |s[1..]|
        ensures !StartsTag(s[1..][i..], beyond)
      {
        assert s[1..][i..] == s[i + 1..] && i + 1 !in TagPositions(s, beyond);
      }
      UntaggedIsKept(s[1..], beyond);
    }
  }

  lemma NeutraliseIsIdempotent(s: string, beyond: char -> bool)
    ensures Neutralise(Neutralise(s, beyond), beyond) == Neutralise(s, beyond)
  {
    NeutralisedHasNoTag(s, beyond);
    UntaggedIsKept(Neutralise(s, beyond), beyond);
  }

  /** How many tags start before position `i`. */
  ghost function TagsBefore(s: string, i: nat, beyond: char -> bool): nat
    requires i <= |s|
  {
    if i == 0 then 0 else TagsBefore(s, i - 1, beyond) + if StartsTag(s[i - 1..], beyond) then 1 else 0
  }

  lemma {:induction false} TagsBeforeTail(s: string, i: nat, beyond: char -> bool)
    requires i < |s|
    ensures TagsBefore(s, i + 1, beyond) == TagsBefore(s[1..], i, beyond) + if StartsTag(s, beyond) then 1 else 0
  {
    hide StartsTag;
    assert s[0..] == s;
    if i == 0 {
      assert TagsBefore(s, 1, beyond) == TagsBefore(s, 0, beyond) + if StartsTag(s[0..], beyond) then 1 else 0;
    } else {
      TagsBeforeTail(s, i - 1, beyond);
      assert s[1..][i - 1..] == s[i..];
    }
  }

  lemma {:induction false} RewrittenLength(s: string, beyond: char -> bool)
    ensures |Neutralise(s, beyond)| == |s| + 3 * TagsBefore(s, |s|, beyond)
  {
    hide StartsTag;
    if s == "" {
    } else {
      RewrittenLength(s[1..], beyond);
      TagsBeforeTail(s, |s| - 1, beyond);
    }
  }

  /** Position `p` of the output holds what position `i` of the content became. */
  ghost predicate IsRewrittenAt(out: string, p: nat, s: string, i: nat, beyond: char -> bool)
    requires i < |s|
  {
    if StartsTag(s[i..], beyond) then p + 4 <= |out| && out[p..p + 4] == "&lt;"
    else p < |out| && out[p] == s[i]
  }

  lemma ShiftedBehind(head: string, out: string, p: nat, s: string, i: nat, beyond: char -> bool)
    requires 0 < i < |s| && IsRewrittenAt(out, p, s[1..], i - 1, beyond)
    ensures IsRewrittenAt(head + out, |head| + p, s, i, beyond)
  {
    hide StartsTag;
    assert s[1..][i - 1..] == s[i..];
    assert p + 4 <= |out| ==> (head + out)[|head| + p..|head| + p + 4] == out[p..p + 4];
  }

  lemma RewrittenFirst(s: string, beyond: char -> bool)
    requires s != ""
    ensures IsRewrittenAt(Neutralise(s, beyond), 0, s, 0, beyond)
  {
    hide StartsTag;
    var rest := Neutralise(s[1..], beyond);
    assert s[0..] == s;
    assert ("&lt;" + rest)[0..4] == "&lt;";
  }

  lemma RewrittenCons(s: string, beyond: char -> bool)
    requires s != ""
    ensures Neutralise(s, beyond)
         == (if StartsTag(s, beyond) then "&lt;" else [s[0]]) + Neutralise(s[1..], beyond)
  {
    hide StartsTag;
  }

  /** Every character stands where the rewritten tags before it push it; only the `<` of a tag is rewritten. */
  lemma {:induction false} RewrittenInPlace(s: string, i: nat, beyond: char -> bool)
    requires i < |s|
    ensures IsRewrittenAt(Neutralise(s, beyond), i + 3 * TagsBefore(s, i, beyond), s, i, beyond)
    decreases i
  {
    hide StartsTag, IsRewrittenAt, Neutralise;
    if i == 0 {
      RewrittenFirst(s, beyond);
    } else {
      RewrittenCons(s, beyond);
      RewrittenInPlace(s[1..], i - 1, beyond);
      TagsBeforeTail(s, i - 1, beyond);
      var head := if StartsTag(s, beyond) then "&lt;" else [s[0]];
      var p := i - 1 + 3 * TagsBefore(s[1..], i - 1, beyond);
      assert |head| + p == i + 3 * TagsBefore(s, i, beyond);
      ShiftedBehind(head, Neutralise(s[1..], beyond), p, s, i, beyond);
    }
  }

  /** The content as a reader takes it, with `&lt;` standing for `<`. */
  function Readable(s: string): string {
    ReplaceAll(s, "&lt;", "<")
  }

  lemma {:induction false} PlainPrefix(p: string, s: string, beyond: char -> bool)
    requires '<' !in p && '&' !in p
    ensures p <= Neutralise(s, beyond) <==> p <= s
    ensures p <= s ==> Neutralise(s, beyond)[|p|..] == Neutralise(s[|p|..], beyond)
  {
    hide Neutralise;
    if s == "" {
      NeutralisedEmpty(beyond);
    } else if p != "" {
      NeutralisedHead(s, beyond);
      var out := Neutralise(s, beyond);
      assert p <= out <==> p[0] == out[0] && p[1..] <= out[1..];
      assert p <= s <==> p[0] == s[0] && p[1..] <= s[1..];
      if s[0] == p[0] {
        PlainPrefix(p[1..], s[1..], beyond);
        if p <= s {
          assert out[|p|..] == out[1..][|p| - 1..] && s[|p|..] == s[1..][|p| - 1..];
        }
      }
    }
  }

  /** Nothing of the content is lost: it reads the same after neutralising as before. */
  lemma {:induction false} ContentStaysReadable(s: string, beyond: char -> bool)
    ensures Readable(Neutralise(s, beyond)) == Readable(s)
    decreases |s|
  {
    hide StartsTag;
    if s == "" {
    } else {
      var out, rest := Neutralise(s, beyond), Neutralise(s[1..], beyond);
      if s[0] == '<' {
        ContentStaysReadable(s[1..], beyond);
        assert s == [s[0]] + s[1..];
        PlainCharKept('<', s[1..], "&lt;", "<");
        PlainCharKept('<', rest, "&lt;", "<");
        assert ("&lt;" + rest)[..4] == "&lt;" && ("&lt;" + rest)[4..] == rest;
      } else {
        PlainHead(s, beyond);
        if s[0] != '&' {
          ContentStaysReadable(s[1..], beyond);
          assert s == [s[0]] + s[1..];
          PlainCharKept(s[0], s[1..], "&lt;", "<");
          PlainCharKept(s[0], rest, "&lt;", "<");
        } else {
          ContentStaysReadable(s[1..], beyond);
          PlainPrefix("lt;", s[1..], beyond);
          EntityHead(s[1..]);
          EntityHead(rest);
          if "lt;" <= s[1..] {
            ContentStaysReadable(s[1..][3..], beyond);
          }
          assert s == "&" + s[1..];
        }
      }
    }
  }

  lemma PlainHead(s: string, beyond: char -> bool)
    requires s != "" && s[0] != '<'
    ensures Neutralise(s, beyond) == [s[0]] + Neutralise(s[1..], beyond)
  {
  }

  lemma EntityHead(t: string)
    ensures Readable("&" + t) == if "lt;" <= t then "<" + Readable(t[3..]) else "&" + Readable(t)
  {
    var s := "&" + t;
    assert s[1..] == t;
    if "lt;" <= t {
      assert s[..4] == "&lt;" && s[4..] == t[3..];
    } else if |s| >= 4 {
      assert s[..4] == "&" + t[..3];
      assert s[..4][1..] == t[..3];
      assert "&lt;"[1..] == "lt;";
    } else {
      assert Readable(t) == t;
    }
  }

  /** A label keeps its length and every safe character; each unsafe one becomes an underscore. */
  lemma {:induction false} SafeAttrIsSafe(value: string)
    ensures forall c :: c in SafeAttr(value) ==> c !in "<>\"\r\n"
    ensures |SafeAttr(value)| == |value|
    ensures forall i :: 0 <= i < |value| ==> SafeAttr(value)[i] == if value[i] in "<>\"\r\n" then '_' else value[i]
  {
    if value == "" {
    } else {
      SafeAttrIsSafe(value[1..]);
    }
  }

  /** The opening tag starts at its only `<` and ends at its only `>`, so no label can reach past it. */
  lemma OpenTagIsOneTag(kind: string, source: string)
    ensures OpenTag(kind, source)[0] == '<' && |OpenTag(kind, source)| > 11
    ensures forall i :: 0 < i < |OpenTag(kind, source)| ==> OpenTag(kind, source)[i] != '<'
    ensures forall i :: 0 <= i < |OpenTag(kind, source)| ==>
      (OpenTag(kind, source)[i] == '>' <==> i == |OpenTag(kind, source)| - 1)
  {
    hide SafeAttr;
    SafeAttrIsSafe(kind);
    SafeAttrIsSafe(source);
    var open := OpenTag(kind, source);
    var middle := "untrusted kind=\"" + SafeAttr(kind) + "\" source=\"" + SafeAttr(source) + "\"";
    assert open == "<" + middle + ">";
    assert '<' !in middle && '>' !in middle;
    Bracketed(middle);
  }

  lemma Bracketed(middle: string)
    requires '<' !in middle && '>' !in middle
    ensures var tag := "<" + middle + ">";
      forall i :: 0 <= i < |tag| ==> (tag[i] == '<' <==> i == 0) && (tag[i] == '>' <==> i == |tag| - 1)
  {
    var tag := "<" + middle + ">";
    assert forall i :: 0 < i < |tag| - 1 ==> tag[i] == middle[i - 1];
  }

  lemma OpensTag(rest: string, beyond: char -> bool)
    ensures StartsTag("<untrusted " + rest, beyond)
  {
    var s := "untrusted " + rest;
    assert ("<untrusted " + rest)[1..] == s;
    SpelledOut(s, beyond);
  }

  lemma ClosesTag(beyond: char -> bool)
    ensures StartsTag(CLOSE_TAG, beyond)
  {
    hide SpellsTag, SkipGap, Lookahead;
    var s := "untrusted>";
    SpelledOut(s, beyond);
    assert CLOSE_TAG[1..] == "/" + s;
    SlashBefore(s, beyond);
  }

  lemma SlashBefore(s: string, beyond: char -> bool)
    requires SkipGap(s) == s && SpellsTag(s, TAG, beyond)
    ensures Lookahead("/" + s, beyond)
  {
    hide SpellsTag;
    assert ("/" + s)[1..] == s;
    assert SkipGap("/" + s) == "/" + s;
  }

  /** The word itself followed by a non-word character. */
  lemma SpelledOut(s: string, beyond: char -> bool)
    requires |s| >= 10 && s[..9] == TAG && !IsWord(s[9], beyond)
    ensures SkipGap(s) == s && SpellsTag(s, TAG, beyond) && Lookahead(s, beyond)
  {
    hide SpellsTag;
    SpelledFrom(s, 0, beyond);
    assert s[0..] == s && TAG[0..] == TAG;
    assert s[0] == TAG[0];
    assert SkipGap(s) == s && SkipSlash(s) == s;
  }

  lemma {:induction false} SpelledFrom(s: string, i: nat, beyond: char -> bool)
    requires |s| >= 10 && i <= 9 && s[..9] == TAG && !IsWord(s[9], beyond)
    ensures SpellsTag(s[i..], TAG[i..], beyond)
    decreases 9 - i
  {
    if i < 9 {
      SpelledFrom(s, i + 1, beyond);
      assert s[i..][1..] == s[i + 1..] && TAG[i..][1..] == TAG[i + 1..];
      assert s[i] == s[..9][i] == TAG[i];
    }
  }

  /**
   Main result: whatever the labels and the content, an envelope shows exactly two tags, its own
   first character and its own closing tag. Content that is itself an envelope is no exception.
   */
  lemma WrapShowsExactlyTwoTags(kind: string, source: string, content: string, beyond: char -> bool)
    ensures var out := Wrap(kind, source, content, beyond);
      |out| >= 12 && TagPositions(out, beyond) == {0, |out| - |CLOSE_TAG|}
  {
    hide StartsTag, Neutralise, OpenTag;
    var open, body := OpenTag(kind, source), Neutralise(content, beyond);
    var out := Wrap(kind, source, content, beyond);
    var m, n := |open|, |open| + |body|;
    assert |out| == n + 12;
    OpenTagIsOneTag(kind, source);
    OuterTags(kind, source, content, beyond);
    forall i: nat | i < |out|
      ensures StartsTag(out[i..], beyond) <==> i == 0 || i == n
    {
      if 0 < i < m {
        assert out[i] == open[i];
        NotATag(out[i..], beyond);
      } else if m <= i < n {
        assert out[i..] == (body + CLOSE_TAG)[i - m..];
        NoTagInside(content, CLOSE_TAG, beyond, i - m);
      } else if n < i {
        assert out[i] == CLOSE_TAG[i - n];
        NotATag(out[i..], beyond);
      }
    }
  }

  lemma NotATag(s: string, beyond: char -> bool)
    requires s != "" && s[0] != '<'
    ensures !StartsTag(s, beyond)
  {
  }

  lemma OuterTags(kind: string, source: string, content: string, beyond: char -> bool)
    ensures var out := Wrap(kind, source, content, beyond);
      && StartsTag(out[0..], beyond)
      && |out| >= 12
      && StartsTag(out[|out| - 12..], beyond)
  {
    hide StartsTag, Neutralise, SafeAttr;
    var out := Wrap(kind, source, content, beyond);
    var rest := "kind=\"" + SafeAttr(kind) + "\" source=\"" + SafeAttr(source) + "\">"
                + Neutralise(content, beyond) + CLOSE_TAG;
    assert out[0..] == "<untrusted " + rest;
    OpensTag(rest, beyond);
    assert out[|out| - 12..] == CLOSE_TAG;
    ClosesTag(beyond);
  }

  /** What a reader finds in an envelope whose opening tag ends at `i`. */
  ghost predicate ReadsBack(out: string, i: nat, kind: string, source: string, content: string) {
    && i + 12 < |out|
    && out[i] == '>' && '>' !in out[..i]
    && Split(out[..i], '"') == ["<untrusted kind=", SafeAttr(kind), " source=", SafeAttr(source), ""]
    && Readable(out[i + 1..|out| - 12]) == Readable(content)
    && out[|out| - 12..] == "</untrusted>"
  }

  /** The envelope holds its labels, each in its place before the first `>`, and its content from there on. */
  lemma WrapReadsBack(kind: string, source: string, content: string, beyond: char -> bool)
    ensures exists i :: ReadsBack(Wrap(kind, source, content, beyond), i, kind, source, content)
  {
    hide Neutralise, SafeAttr, Readable, Split;
    var open, body := OpenTag(kind, source), Neutralise(content, beyond);
    var out, i := Wrap(kind, source, content, beyond), |open| - 1;
    OpenTagIsOneTag(kind, source);
    LabelsReadBack(kind, source);
    assert out[..i] == open[..i] && out[i] == open[i];
    assert out[i + 1..|out| - 12] == body;
    ContentStaysReadable(content, beyond);
    assert out[|out| - 12..] == CLOSE_TAG;
    assert ReadsBack(out, i, kind, source, content);
  }

  lemma FiveJoined(a: string, b: string, c: string, d: string, sep: char)
    ensures Join([a, b, c, d, ""], sep) == a + [sep] + b + [sep] + c + [sep] + d + [sep]
  {
    assert Join([""], sep) == "" && [d, ""][1..] == [""];
    assert Join([d, ""], sep) == d + [sep] && [c, d, ""][1..] == [d, ""];
    assert Join([c, d, ""], sep) == c + [sep] + d + [sep] && [b, c, d, ""][1..] == [c, d, ""];
    assert Join([b, c, d, ""], sep) == b + [sep] + c + [sep] + d + [sep];
    assert [a, b, c, d, ""][1..] == [b, c, d, ""];
  }

  lemma LabelsReadBack(kind: string, source: string)
    ensures OpenTag(kind, source) != ""
    ensures Split(OpenTag(kind, source)[..|OpenTag(kind, source)| - 1], '"')
         == ["<untrusted kind=", SafeAttr(kind), " source=", SafeAttr(source), ""]
  {
    hide SafeAttr, Split, Join;
    var k, s := SafeAttr(kind), SafeAttr(source);
    var parts := ["<untrusted kind=", k, " source=", s, ""];
    SafeAttrIsSafe(kind);
    SafeAttrIsSafe(source);
    assert forall i :: 0 <= i < |parts| ==> '"' !in parts[i];
    SplitUndoesJoin(parts, '"');
    FiveJoined(parts[0], k, parts[2], s, '"');
    var open := OpenTag(kind, source);
    assert open == "<untrusted kind=\"" + k + "\" source=\"" + s + "\"" + ">";
    assert open[..|open| - 1] == "<untrusted kind=\"" + k + "\" source=\"" + s + "\"";
    assert Join(parts, '"') == open[..|open| - 1];
  }
}

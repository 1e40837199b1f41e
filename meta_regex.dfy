/**
 * `META_REGEX` of lib/flight-howto/meta_regex.rb, written out as a backtracking matcher:
 *
 *   (?:^|\A) :  \s*  (?<key>\w+)  (?:\s*=\s*?|:\s+?)
 *   (?: '(?<single>(?:\\'|[^'])*)' | "(?<double>(?:\\"|[^"])*)" | (?<value>[^\#\r\n]+) )?
 *   \s*  (?:\#.*)?  (?:$|\z)
 *
 * Each function tries the choices of one construct in the order the regex engine does:
 * greedy repetitions longest first, lazy ones shortest first, alternatives left to right,
 * and every choice is followed by the rest of the pattern, so the first success is the
 * match the engine reports.
 */
module MetaRegex {
  import opened Wrappers
  import opened Strings

  /** Which value group captured, and what. */
  datatype MetaValue = NoValue | Single(text: string) | Double(text: string) | Bare(text: string)

  datatype MetaMatch = MetaMatch(key: string, value: MetaValue)

  /** `[^\#\r\n]`. */
  predicate IsBareChar(c: char)
  {
    c != '#' && c != '\r' && c != '\n'
  }

  /** The tail `\s*(?:\#.*)?(?:$|\z)` matches from `p`. */
  predicate Trailer(s: string, p: nat)
    requires p <= |s|
    decreases |s| - p
  {
    p == |s| || s[p] == '\n' || s[p] == '#' || (IsSpace(s[p]) && Trailer(s, p + 1))
  }

  /**
   * `(?:\\q|[^q])*` from `i`, then the closing quote `q` and the tail: the position of the
   * closing quote of the first success.
   */
  function QuotedBody(s: string, q: char, i: nat): (r: Option<nat>)
    requires i <= |s| && q != '\\'
    ensures r.Some? ==> i <= r.value < |s| && s[r.value] == q && Trailer(s, r.value + 1)
    ensures r.Some? ==> forall k :: i <= k < r.value && s[k] == q ==> i < k && s[k - 1] == '\\'
    decreases |s| - i
  {
    var escaped := if i + 1 < |s| && s[i] == '\\' && s[i + 1] == q then QuotedBody(s, q, i + 2) else None;
    if escaped.Some? then escaped
    else
      var plain := if i < |s| && s[i] != q then QuotedBody(s, q, i + 1) else None;
      if plain.Some? then plain
      else if i < |s| && s[i] == q && Trailer(s, i + 1) then Some(i)
      else None
  }

  /** The end of the run of bare characters from `p`. */
  function BareRun(s: string, p: nat): (m: nat)
    requires p <= |s|
    ensures p <= m <= |s| && (forall k :: p <= k < m ==> IsBareChar(s[k]))
    ensures m == |s| || !IsBareChar(s[m])
    decreases |s| - p
  {
    if p < |s| && IsBareChar(s[p]) then BareRun(s, p + 1) else p
  }

  /** `[^\#\r\n]+` from `p`, giving back one character at a time from `e`. */
  function BareEnd(s: string, p: nat, e: nat): (r: Option<nat>)
    requires p <= e <= |s|
    ensures r.Some? ==> p < r.value <= e && Trailer(s, r.value)
    ensures r.Some? ==> forall k :: r.value < k <= e ==> !Trailer(s, k)
    ensures r.None? ==> forall k :: p < k <= e ==> !Trailer(s, k)
    decreases e
  {
    if e <= p then None
    else if Trailer(s, e) then Some(e)
    else BareEnd(s, p, e - 1)
  }

  /** The optional value group from `p`, followed by the tail. */
  function Value(s: string, p: nat): (r: Option<MetaValue>)
    requires p <= |s|
    ensures r.Some? && r.value.Single? ==>
              p < |s| && s[p] == '\'' && QuotedBody(s, '\'', p + 1).Some? &&
              r.value.text == s[p + 1..QuotedBody(s, '\'', p + 1).value]
    ensures r.Some? && r.value.Double? ==>
              p < |s| && s[p] == '"' && QuotedBody(s, '"', p + 1).Some? &&
              r.value.text == s[p + 1..QuotedBody(s, '"', p + 1).value]
    ensures r.Some? && r.value.Bare? ==>
              r.value.text != [] && r.value.text <= s[p..] &&
              (forall k :: 0 <= k < |r.value.text| ==> IsBareChar(r.value.text[k]))
    ensures r.Some? && r.value.NoValue? ==> Trailer(s, p)
  {
    var single := if p < |s| && s[p] == '\'' then QuotedBody(s, '\'', p + 1) else None;
    if single.Some? then Some(Single(s[p + 1..single.value]))
    else
      var double := if p < |s| && s[p] == '"' then QuotedBody(s, '"', p + 1) else None;
      if double.Some? then Some(Double(s[p + 1..double.value]))
      else match BareEnd(s, p, BareRun(s, p))
        case Some(e) => Some(Bare(s[p..e]))
        case None => if Trailer(s, p) then Some(NoValue) else None
  }

  /** A lazy `\s*?` from `p` before the value: no whitespace first, then one more at a time. */
  function LazyGap(s: string, p: nat): (r: Option<MetaValue>)
    requires p <= |s|
    decreases |s| - p
  {
    var v := Value(s, p);
    if v.Some? then v
    else if p < |s| && IsSpace(s[p]) then LazyGap(s, p + 1)
    else None
  }

  /**
   * The separator after a key ending at `q`: `\s*=\s*?`, then `:\s+?`. Giving back
   * whitespace before '=' cannot help, since whitespace is not '='.
   */
  function Separator(s: string, q: nat): (r: Option<MetaValue>)
    requires q <= |s|
  {
    var w := SkipSpaces(s, q);
    var assign := if w < |s| && s[w] == '=' then LazyGap(s, w + 1) else None;
    if assign.Some? then assign
    else if q + 1 < |s| && s[q] == ':' && IsSpace(s[q + 1]) then LazyGap(s, q + 2)
    else None
  }

  /**
   * The match starting at `p`, a line start: ':', whitespace, the key as the whole word run
   * (a shorter key would leave a word character where the separator must start), the
   * separator and the value.
   */
  function MatchAt(s: string, p: nat): (r: Option<MetaMatch>)
    requires p <= |s|
    ensures r.Some? ==> p < |s| && s[p] == ':'
    ensures r.Some? ==> var k0 := SkipSpaces(s, p + 1);
      r.value.key == s[k0..SkipWord(s, k0)] && r.value.key != [] &&
      (forall k :: 0 <= k < |r.value.key| ==> IsWordChar(r.value.key[k]))
  {
    if p == |s| || s[p] != ':' then None
    else
      var k0 := SkipSpaces(s, p + 1);
      var q := SkipWord(s, k0);
      if q == k0 then None
      else match Separator(s, q)
        case Some(v) => Some(MetaMatch(s[k0..q], v))
        case None => None
  }

  /** `(?:^|\A)`: the start of the text or of a line. */
  predicate LineStart(s: string, p: nat)
    requires p <= |s|
  {
    p == 0 || s[p - 1] == '\n'
  }

  /** `META_REGEX.match(s)`: the match at the first line start, from `from`, where one exists. */
  function Search(s: string, from: nat): (r: Option<MetaMatch>)
    requires from <= |s|
    decreases |s| - from
  {
    if LineStart(s, from) && MatchAt(s, from).Some? then MatchAt(s, from)
    else if from == |s| then None
    else Search(s, from + 1)
  }

  // ---------------------------------------------------------------------------------------
  // Properties

  /** A shorter key than the whole word run is followed by a word character, so no separator fits. */
  lemma ShorterKeyFails(s: string, q: nat)
    requires q < |s| && IsWordChar(s[q])
    ensures Separator(s, q).None?
  {
  }

  /** A line that matches at its start begins with ':'. */
  lemma SearchFromStartNeedsColon(s: string)
    requires '\n' !in s
    ensures Search(s, 0).Some? ==> s[0] == ':'
  {
    SearchOnlyAtStart(s, 0);
  }

  lemma {:induction false} SearchOnlyAtStart(s: string, from: nat)
    requires '\n' !in s && from <= |s|
    ensures Search(s, from) == if from == 0 then MatchAt(s, 0) else None
    decreases |s| - from
  {
    if from > 0 {
      assert s[from - 1] in s;
    }
    if from < |s| && !(LineStart(s, from) && MatchAt(s, from).Some?) {
      SearchOnlyAtStart(s, from + 1);
    }
  }

  /** Neither `:key value` nor `:key:value` has a separator. */
  lemma NoSeparatorNoMatch(s: string, p: nat)
    requires p <= |s| && MatchAt(s, p).Some?
    ensures var q := SkipWord(s, SkipSpaces(s, p + 1));
      var w := SkipSpaces(s, q);
      (w < |s| && s[w] == '=') || (q + 1 < |s| && s[q] == ':' && IsSpace(s[q + 1]))
  {
  }

  /** The bare value that follows a run of whitespace and a '#', '\r' or '\n' was the whole run. */
  lemma {:induction false} TrailerWithinRun(s: string, e: nat, m: nat)
    requires e <= m <= |s| && forall k :: e <= k < m ==> IsBareChar(s[k])
    requires Trailer(s, e)
    ensures Trailer(s, m)
    decreases m - e
  {
    if e < m {
      TrailerWithinRun(s, e + 1, m);
    }
  }

  /** A bare value is the whole run of characters other than '#', CR and LF. */
  lemma BareIsMaximalRun(s: string, p: nat)
    requires p <= |s| && Value(s, p).Some? && Value(s, p).value.Bare?
    ensures Value(s, p).value.text == s[p..BareRun(s, p)]
  {
    var m := BareRun(s, p);
    var e := BareEnd(s, p, m).value;
    if e < m {
      TrailerWithinRun(s, e, m);
    }
  }

  /** A quote inside a captured quoted value is always escaped. */
  lemma QuotesInsideAreEscaped(s: string, p: nat)
    requires p <= |s| && Value(s, p).Some? && (Value(s, p).value.Single? || Value(s, p).value.Double?)
    ensures var v := Value(s, p).value;
      var q := if v.Single? then '\'' else '"';
      forall k :: 0 <= k < |v.text| && v.text[k] == q ==> 0 < k && v.text[k - 1] == '\\'
  {
  }

  /** On a text without line breaks, the value group or the tail always fits. */
  lemma ValueTotalWithoutBreaks(s: string, p: nat)
    requires p <= |s| && '\r' !in s && '\n' !in s
    ensures Value(s, p).Some?
  {
    var m := BareRun(s, p);
    assert m < |s| ==> s[m] == '#';
    if m > p {
      assert Trailer(s, m);
    }
  }

  /** Without line breaks, the lazy gap takes no whitespace: the value starts right after the separator. */
  lemma LazyGapTakesNothing(s: string, p: nat)
    requires p <= |s| && '\r' !in s && '\n' !in s
    ensures LazyGap(s, p) == Value(s, p)
  {
    ValueTotalWithoutBreaks(s, p);
  }

  /** Without line breaks, a separator after the key is all a match needs. */
  lemma SeparatorWithoutBreaks(s: string, q: nat)
    requires q <= |s| && '\r' !in s && '\n' !in s
    ensures Separator(s, q).Some? <==>
      var w := SkipSpaces(s, q);
      (w < |s| && s[w] == '=') || (q + 1 < |s| && s[q] == ':' && IsSpace(s[q + 1]))
  {
    var w := SkipSpaces(s, q);
    if w < |s| && s[w] == '=' {
      LazyGapFits(s, w + 1);
    }
    if q + 1 < |s| && s[q] == ':' && IsSpace(s[q + 1]) {
      LazyGapFits(s, q + 2);
    }
  }

  lemma LazyGapFits(s: string, p: nat)
    requires p <= |s| && '\r' !in s && '\n' !in s
    ensures LazyGap(s, p).Some?
  {
    LazyGapTakesNothing(s, p);
    ValueTotalWithoutBreaks(s, p);
  }

  /**
   * A line without line breaks matches exactly when it starts with ':', optional whitespace,
   * a word and a separator.
   */
  lemma MatchWithoutBreaks(s: string)
    requires '\r' !in s && '\n' !in s
    ensures MatchAt(s, 0).Some? <==>
      |s| > 0 && s[0] == ':' &&
      var k0 := SkipSpaces(s, 1);
      var q := SkipWord(s, k0);
      var w := SkipSpaces(s, q);
      q > k0 && ((w < |s| && s[w] == '=') || (q + 1 < |s| && s[q] == ':' && IsSpace(s[q + 1])))
  {
    if |s| > 0 && s[0] == ':' {
      SeparatorWithoutBreaks(s, SkipWord(s, SkipSpaces(s, 1)));
    }
  }

  /** A quote right after '=' is a quoted value. */
  lemma QuotedAfterEquals()
    ensures MatchAt(":k='v'", 0) == Some(MetaMatch("k", Single("v")))
  {
    var a := ":k='v'";
    assert SkipSpaces(a, 1) == 1;
    assert SkipWord(a, 1) == 2;
    assert SkipSpaces(a, 2) == 2;
    assert QuotedBody(a, '\'', 4) == Some(5);
    assert a[4..5] == "v";
    assert a[1..2] == "k";
  }

  /** So is a quote after ": ". */
  lemma QuotedAfterColon()
    ensures MatchAt(":k: 'v'", 0) == Some(MetaMatch("k", Single("v")))
  {
    var b := ":k: 'v'";
    assert SkipSpaces(b, 1) == 1;
    assert SkipWord(b, 1) == 2;
    assert SkipSpaces(b, 2) == 2;
    assert QuotedBody(b, '\'', 5) == Some(6);
    assert b[5..6] == "v";
    assert b[1..2] == "k";
  }

  /** Whitespace after '=' is not skipped first, so `:k = 'v'` has the bare value " 'v'". */
  lemma LazyGapExample()
    ensures MatchAt(":k = 'v'", 0) == Some(MetaMatch("k", Bare(" 'v'")))
  {
    var s := ":k = 'v'";
    assert SkipSpaces(s, 1) == 1;
    assert SkipWord(s, 1) == 2;
    assert SkipSpaces(s, 2) == 3;
    assert BareRun(s, 4) == 8;
    assert Trailer(s, 8);
    assert s[4..8] == " 'v'";
    assert s[1..2] == "k";
  }

  /** A space after the key is no separator, so there is no match. */
  lemma SpaceIsNoSeparator()
    ensures MatchAt(":key value", 0).None?
  {
    var a := ":key value";
    assert SkipSpaces(a, 1) == 1;
    assert SkipWord(a, 1) == 4;
    assert SkipSpaces(a, 4) == 5;
  }

  /** A ':' after the key needs whitespace after it to be a separator. */
  lemma ColonNeedsSpace()
    ensures MatchAt(":key:value", 0).None?
  {
    var b := ":key:value";
    assert SkipSpaces(b, 1) == 1;
    assert SkipWord(b, 1) == 4;
    assert SkipSpaces(b, 4) == 4;
  }

  /** `:key=` matches with no value. */
  lemma EqualsWithoutValue()
    ensures MatchAt(":key=", 0) == Some(MetaMatch("key", NoValue))
  {
    var c := ":key=";
    assert SkipSpaces(c, 1) == 1;
    assert SkipWord(c, 1) == 4;
    assert SkipSpaces(c, 4) == 4;
    assert BareRun(c, 5) == 5;
    assert c[1..4] == "key";
  }
}

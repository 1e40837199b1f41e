/**
 * The terminal renderer of lib/flight-howto/renderer.rb. A renderer holds the markdown
 * content, the width to wrap to and the colour depth it asks the converter for. The markdown
 * converter (`TTY::Markdown.parse`) and the word wrapper (`WordWrap.ww`) are not part of this
 * model; they are the parameters `parse` and `ww`. `parse` gives nothing where the Ruby call
 * raises.
 */
module Rendering {
  import opened Wrappers
  import opened Strings

  /** `self.width ||= (w > 80 ? w : 80)` with `w` the screen width. */
  function DefaultWidth(width: Option<int>, screenWidth: int): (r: int)
    ensures width.Some? ==> r == width.value
    ensures width.None? ==> r >= 80 && r >= screenWidth && (r == 80 || r == screenWidth)
  {
    if width.Some? then width.value else if screenWidth > 80 then screenWidth else 80
  }

  // ---------------------------------------------------------------------------------------
  // The colour retry of parse_markdown

  /** One call of the converter: the colour depth and the width it was given. */
  datatype Attempt = Attempt(colors: nat, width: nat)

  /** What `parse_markdown` ends with: its result, the colour depth left, and the calls made. */
  datatype RetryOutcome = RetryOutcome(result: Option<string>, colors: nat, attempts: seq<Attempt>)

  /**
   * The `rescue`/`retry` of `parse_markdown` from colour depth `colors`: a failure above 16
   * colours sets 16 and runs the call again; a failure at 16 gives nil.
   */
  function Retry(content: string, colors: nat, parse: (string, nat, nat) -> Option<string>): RetryOutcome
  {
    var first := parse(content, colors, |content|);
    if first.Some? then RetryOutcome(first, colors, [Attempt(colors, |content|)])
    else if colors > 16 then
      RetryOutcome(parse(content, 16, |content|), 16, [Attempt(colors, |content|), Attempt(16, |content|)])
    else RetryOutcome(None, colors, [Attempt(colors, |content|)])
  }

  /**
   * The retry makes one call, or two when the first fails above 16 colours, the second at
   * 16; every call disables the converter's own wrapping by passing the content length as
   * the width; the colour depth only ever changes to 16; and nil comes out exactly when
   * every call failed.
   */
  lemma RetryAtMostOnce(content: string, colors: nat, parse: (string, nat, nat) -> Option<string>)
    requires colors == 256 || colors == 16
    ensures var out := Retry(content, colors, parse);
      (out.colors == colors || out.colors == 16) &&
      1 <= |out.attempts| <= 2 && out.attempts[0] == Attempt(colors, |content|) &&
      (|out.attempts| == 2 <==> colors == 256 && parse(content, 256, |content|).None?) &&
      (|out.attempts| == 2 ==> out.attempts[1] == Attempt(16, |content|)) &&
      (forall k :: 0 <= k < |out.attempts| ==> out.attempts[k].width == |content|) &&
      (out.result.None? <==> forall k :: 0 <= k < |out.attempts| ==>
                                parse(content, out.attempts[k].colors, out.attempts[k].width).None?) &&
      (out.result.Some? ==> out.result == parse(content, out.colors, |content|))
  {
  }

  /** Once at 16 colours, a failure is final: there is no second call. */
  lemma NoRetryAtSixteen(content: string, parse: (string, nat, nat) -> Option<string>)
    ensures |Retry(content, 16, parse).attempts| == 1
    ensures Retry(content, 16, parse).colors == 16
  {
  }

  // ---------------------------------------------------------------------------------------
  // The per-line wrap of wrap_markdown

  /** `' ' * n`. */
  function Spaces(n: nat): (r: string)
    ensures |r| == n && forall k :: 0 <= k < n ==> r[k] == ' '
  {
    if n == 0 then [] else [' '] + Spaces(n - 1)
  }

  /** `gsub("\n", "\n#{pad}")`: every newline followed by `pad`. */
  function Indent(s: string, pad: string): string
  {
    if s == [] then []
    else if s[0] == '\n' then "\n" + pad + Indent(s[1..], pad)
    else [s[0]] + Indent(s[1..], pad)
  }

  /** Removes `pad` after every newline that is followed by it; the inverse of `Indent`. */
  function Unindent(t: string, pad: string): string
  {
    if t == [] then []
    else if t[0] == '\n' && pad <= t[1..] then "\n" + Unindent(t[1 + |pad|..], pad)
    else [t[0]] + Unindent(t[1..], pad)
  }

  /** Unindenting an indented text gives it back. */
  lemma {:induction false} UnindentIndent(s: string, pad: string)
    ensures Unindent(Indent(s, pad), pad) == s
  {
    if s != [] {
      UnindentIndent(s[1..], pad);
      var t := Indent(s, pad);
      if s[0] == '\n' {
        assert t[1..] == pad + Indent(s[1..], pad);
        assert t[1 + |pad|..] == Indent(s[1..], pad);
      } else {
        assert t[1..] == Indent(s[1..], pad);
      }
    }
  }

  lemma {:induction false} JoinPrefixFirst(sep: string, x: string, y: string, rest: seq<string>)
    ensures Join(sep, [x + y] + rest) == x + Join(sep, [y] + rest)
  {
    if |rest| > 0 {
      assert ([x + y] + rest)[1..] == rest;
      assert ([y] + rest)[1..] == rest;
    }
  }

  /**
   * Indenting puts `pad` at the start of every line but the first: the indented text is the
   * lines of the text joined with a newline and the padding.
   */
  lemma {:induction false} IndentPadsEveryLine(s: string, pad: string)
    ensures Indent(s, pad) == Join("\n" + pad, Fields(s, {'\n'}))
  {
    if s != [] {
      IndentPadsEveryLine(s[1..], pad);
      var fs := Fields(s[1..], {'\n'});
      if s[0] == '\n' {
        assert Fields(s, {'\n'}) == [""] + fs;
        assert ([""] + fs)[1..] == fs;
      } else {
        assert Fields(s, {'\n'}) == [[s[0]] + fs[0]] + fs[1..];
        JoinPrefixFirst("\n" + pad, [s[0]], fs[0], fs[1..]);
        assert [fs[0]] + fs[1..] == fs;
      }
    }
  }

  /** Text without a newline is copied as it is, so indenting a padded text pads the indented one. */
  lemma {:induction false} IndentAfterPrefix(prefix: string, s: string, pad: string)
    requires '\n' !in prefix
    ensures Indent(prefix + s, pad) == prefix + Indent(s, pad)
  {
    if prefix != [] {
      var t := prefix + s;
      assert t[0] == prefix[0] && prefix[0] in prefix;
      assert t[1..] == prefix[1..] + s;
      assert Indent(t, pad) == [prefix[0]] + Indent(t[1..], pad);
      assert forall c :: c in prefix[1..] ==> c in prefix;
      IndentAfterPrefix(prefix[1..], s, pad);
      assert [prefix[0]] + (prefix[1..] + Indent(s, pad)) == prefix + Indent(s, pad);
    } else {
      assert prefix + s == s;
    }
  }

  /**
   * One line of `wrap_markdown`: the leading whitespace is counted and replaced by as many
   * spaces, the rest is wrapped to the width left over and chomped, and every line the
   * wrapper made is padded the same way.
   */
  function WrapLine(line: string, width: int, ww: (string, int) -> string): string
  {
    var pw := SkipSpaces(line, 0);
    var padding := Spaces(pw);
    var wrapped := Chomp(ww(line[pw..], width - pw));
    Indent(padding + wrapped, padding)
  }

  /**
   * The wrapped line is the padding, then the wrapper's lines (after the chomp) joined with
   * a newline and the padding: every line the wrapper made starts with the same padding.
   */
  lemma WrapLinePadsEveryLine(line: string, width: int, ww: (string, int) -> string)
    ensures var pw := SkipSpaces(line, 0);
      WrapLine(line, width, ww) ==
        Spaces(pw) + Join("\n" + Spaces(pw), Fields(Chomp(ww(line[pw..], width - pw)), {'\n'}))
  {
    var pw := SkipSpaces(line, 0);
    var padding := Spaces(pw);
    var wrapped := Chomp(ww(line[pw..], width - pw));
    assert WrapLine(line, width, ww) == Indent(padding + wrapped, padding);
    SpacesHaveNoNewline(pw);
    PaddedIndent(padding, wrapped);
  }

  lemma SpacesHaveNoNewline(n: nat)
    ensures '\n' !in Spaces(n)
  {
    var sp := Spaces(n);
    assert forall k :: 0 <= k < |sp| ==> sp[k] != '\n';
  }

  /** A padded text indented by its own padding: the padding, then every line padded. */
  lemma PaddedIndent(padding: string, wrapped: string)
    requires '\n' !in padding
    ensures Indent(padding + wrapped, padding) == padding + Join("\n" + padding, Fields(wrapped, {'\n'}))
  {
    IndentAfterPrefix(padding, wrapped, padding);
    IndentPadsEveryLine(wrapped, padding);
  }

  function WrapLines(lines: seq<string>, width: int, ww: (string, int) -> string): (r: seq<string>)
    ensures |r| == |lines| && forall k :: 0 <= k < |lines| ==> r[k] == WrapLine(lines[k], width, ww)
  {
    if lines == [] then [] else [WrapLine(lines[0], width, ww)] + WrapLines(lines[1..], width, ww)
  }

  /** The map over `split("\n")`, which drops trailing empty lines, joined with newlines. */
  function WrapText(parsed: string, width: int, ww: (string, int) -> string): string
  {
    Join("\n", WrapLines(Split(parsed, {'\n'}), width, ww))
  }

  /**
   * A wrapped line starts with one space for each leading whitespace character of the
   * line (a tab counts as one), however the wrapper breaks the rest.
   */
  lemma WrapLineStartsWithPadding(line: string, width: int, ww: (string, int) -> string)
    ensures var pw := SkipSpaces(line, 0);
      Spaces(pw) <= WrapLine(line, width, ww) &&
      (forall k :: 0 <= k < pw ==> IsSpace(line[k])) && (pw == |line| || !IsSpace(line[pw]))
  {
    WrapLinePadsEveryLine(line, width, ww);
  }

  // ---------------------------------------------------------------------------------------
  // The renderer

  class Renderer {
    var content: string
    var width: int
    var colors: nat

    /** The colour depth is 256 until a failure sets it to 16. */
    predicate Valid()
      reads this
    {
      colors == 256 || colors == 16
    }

    /** `Renderer.new(content, width)`, with `screenWidth` the terminal width. */
    constructor (content: string, width: Option<int>, screenWidth: int)
      ensures Valid()
      ensures this.content == content && this.width == DefaultWidth(width, screenWidth)
      ensures colors == 256
    {
      this.content := content;
      this.width := DefaultWidth(width, screenWidth);
      colors := 256;
    }

    /** `parse_markdown`, with its `retry` as a loop. */
    method ParseMarkdown(parse: (string, nat, nat) -> Option<string>)
      returns (r: Option<string>, ghost attempts: seq<Attempt>)
      requires Valid()
      modifies this
      ensures Valid()
      ensures content == old(content) && width == old(width)
      ensures var out := Retry(content, old(colors), parse);
        r == out.result && colors == out.colors && attempts == out.attempts
    {
      ghost var start := colors;
      attempts := [];
      r := None;
      var done := false;
      while !done
        invariant Valid() && content == old(content) && width == old(width)
        invariant !done ==>
                    (attempts == [] && colors == start) ||
                    (start == 256 && colors == 16 && attempts == [Attempt(256, |content|)] &&
                     parse(content, 256, |content|).None?)
        invariant done ==> var out := Retry(content, start, parse);
          r == out.result && colors == out.colors && attempts == out.attempts
        decreases colors, if done then 0 else 1
      {
        attempts := attempts + [Attempt(colors, |content|)];
        r := parse(content, colors, |content|);
        if r.Some? {
          done := true;
        } else if colors > 16 {
          colors := 16;
        } else {
          done := true;
        }
      }
    }

    /**
     * `wrap_markdown`: nothing when `parse_markdown` gives nil (the Ruby call then raises),
     * otherwise the wrapped text.
     */
    method WrapMarkdown(parse: (string, nat, nat) -> Option<string>, ww: (string, int) -> string)
      returns (r: Option<string>)
      requires Valid()
      modifies this
      ensures Valid()
      ensures content == old(content) && width == old(width)
      ensures var out := Retry(content, old(colors), parse);
        colors == out.colors &&
        (out.result.None? ==> r.None?) &&
        (out.result.Some? ==> r == Some(WrapText(out.result.value, width, ww)))
    {
      var parsed, _ := ParseMarkdown(parse);
      if parsed.None? {
        return None;
      }
      return Some(WrapText(parsed.value, width, ww));
    }
  }
}

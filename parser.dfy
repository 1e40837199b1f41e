/**
 * The front-matter parser of lib/flight-howto/parser.rb. A guide may start with a metadata
 * section between two fence lines of three or five dashes; the text between them is decoded
 * by a YAML decoder (the parameter `decode`) and must give a hash. Reading the file is a
 * read outcome and a transcoder supplied from outside (the parameters `raw` and `transcode`).
 */
module Parser {
  import opened Wrappers
  import opened Strings
  import opened Errors

  // ---------------------------------------------------------------------------------------
  // Decoded metadata

  /** The values a YAML decoder can produce; `Other` is any other class, by name. */
  datatype Value =
    | Null
    | Bool(b: bool)
    | Int(i: int)
    | Str(s: string)
    | List(items: seq<Value>)
    | Hash(pairs: seq<(Value, Value)>)
    | Other(className: string)

  /** `value.class`, as interpolated into a message. */
  function ClassName(v: Value): string
  {
    match v
    case Null => "NilClass"
    case Bool(b) => if b then "TrueClass" else "FalseClass"
    case Int(_) => "Integer"
    case Str(_) => "String"
    case List(_) => "Array"
    case Hash(_) => "Hash"
    case Other(name) => name
  }

  const EmptyHash: Value := Hash([])

  /** What `YAML.load` does with a text: returns a value, or raises with a message. */
  datatype Decoded = Loaded(value: Value) | Raised(message: string)

  /** `ParseResult`: the content after the metadata, the metadata, and its raw text. */
  datatype ParseResult = ParseResult(content: string, attributes: Value, attributesData: string)

  // ---------------------------------------------------------------------------------------
  // The opening fence: /\A(-{5}|-{3})\s*$/

  /** `\s*$` from `p`: whitespace, possibly none, up to a newline or the end of the text. */
  predicate SpaceToEol(s: string, p: nat)
    requires p <= |s|
    decreases |s| - p
  {
    p == |s| || s[p] == '\n' || (IsSpace(s[p]) && SpaceToEol(s, p + 1))
  }

  /** The opening regex: five dashes are tried before three, each followed by `\s*$`. */
  predicate OpensFence(s: string)
  {
    (|s| >= 5 && s[..5] == "-----" && SpaceToEol(s, 5)) ||
    (|s| >= 3 && s[..3] == "---" && SpaceToEol(s, 3))
  }

  /** The number of dashes a text starts with. */
  function LeadingDashes(s: string): (n: nat)
    ensures n <= |s| && (forall k :: 0 <= k < n ==> s[k] == '-') && (n == |s| || s[n] != '-')
  {
    if s != [] && s[0] == '-' then 1 + LeadingDashes(s[1..]) else 0
  }

  /** The opening regex accepts exactly three or exactly five dashes, then space to the line end. */
  lemma OpensFenceExactDashes(s: string)
    ensures OpensFence(s) <==>
      (LeadingDashes(s) == 3 || LeadingDashes(s) == 5) && SpaceToEol(s, LeadingDashes(s))
  {
    var n := LeadingDashes(s);
    if n == 3 || n == 5 {
      assert s[..n] == if n == 3 then "---" else "-----";
    }
    if |s| >= 5 && s[..5] == "-----" {
      assert forall k :: 0 <= k < 5 ==> s[k] == '-';
    }
    if |s| >= 3 && s[..3] == "---" {
      assert forall k :: 0 <= k < 3 ==> s[k] == '-';
    }
  }

  // ---------------------------------------------------------------------------------------
  // The splitting fences: /^(-{5}|-{3})[ \t]*\r?\n?/

  /** `^` at `p`: the start of the text or of a line. */
  predicate LineStart(s: string, p: nat)
    requires p <= |s|
  {
    p == 0 || s[p - 1] == '\n'
  }

  /** The splitting regex matches at `p`. */
  predicate FenceAt(s: string, p: nat)
  {
    p + 3 <= |s| && LineStart(s, p) && s[p..p + 3] == "---"
  }

  /** `[ \t]*` from `i`. */
  function SkipBlanks(s: string, i: nat): (j: nat)
    requires i <= |s|
    ensures i <= j <= |s| && (forall k :: i <= k < j ==> s[k] == ' ' || s[k] == '\t')
    ensures j == |s| || (s[j] != ' ' && s[j] != '\t')
    decreases |s| - i
  {
    if i < |s| && (s[i] == ' ' || s[i] == '\t') then SkipBlanks(s, i + 1) else i
  }

  /**
   * Where a fence match starting at `p` ends: five dashes if there are five, else three;
   * then blanks, an optional '\r' and an optional '\n', each taken greedily.
   */
  function FenceEnd(s: string, p: nat): (e: nat)
    requires FenceAt(s, p)
    ensures p + 3 <= e <= |s|
  {
    var d := if p + 5 <= |s| && s[p + 3..p + 5] == "--" then p + 5 else p + 3;
    var b := SkipBlanks(s, d);
    var c := if b < |s| && s[b] == '\r' then b + 1 else b;
    if c < |s| && s[c] == '\n' then c + 1 else c
  }

  /** The leftmost fence at or after `from`, where the next regex search starts. */
  function NextFence(s: string, from: nat): (r: Option<nat>)
    requires from <= |s|
    ensures r.Some? ==> from <= r.value && FenceAt(s, r.value) &&
                        forall q :: from <= q < r.value ==> !FenceAt(s, q)
    ensures r.None? ==> forall q :: from <= q <= |s| ==> !FenceAt(s, q)
    decreases |s| - from
  {
    if FenceAt(s, from) then Some(from)
    else if from == |s| then None
    else NextFence(s, from + 1)
  }

  /** `sub(/\A\n/, '')`: one leading newline removed. */
  function StripLeadingNewline(s: string): (r: string)
    ensures if s != [] && s[0] == '\n' then r == s[1..] else r == s
  {
    if s != [] && s[0] == '\n' then s[1..] else s
  }

  // ---------------------------------------------------------------------------------------
  // parse_metadata and verify_meta

  /** `verify_meta`: nothing for a hash, an `InvalidMetadataError` naming the class otherwise. */
  function VerifyMeta(meta: Value, filename: string): (r: Option<Error>)
    ensures r.None? <==> meta.Hash?
    ensures r.Some? ==> r.value == InvalidMetadata(filename, ClassName(meta))
  {
    if meta.Hash? then None else Some(InvalidMetadata(filename, ClassName(meta)))
  }

  /**
   * `parse_metadata`: `YAML.load(data) || {}`, with a raised exception reported as an
   * `UnparseableMetadataError` and a non-hash as an `InvalidMetadataError`.
   */
  function ParseMetadata(data: string, filename: string, decode: string -> Decoded): (r: Result<Value, Error>)
    ensures decode(data).Raised? ==> r == Failure(UnparseableMetadata(filename, decode(data).message))
    ensures decode(data).Loaded? ==>
      var v := decode(data).value;
      (v == Null || v == Bool(false) ==> r == Success(EmptyHash)) &&
      (v.Hash? ==> r == Success(v)) &&
      (v != Null && v != Bool(false) && !v.Hash? ==> r == Failure(InvalidMetadata(filename, ClassName(v))))
    ensures r.Success? ==> r.value.Hash?
  {
    match decode(data)
    case Raised(msg) => Failure(UnparseableMetadata(filename, msg))
    case Loaded(v) =>
      var meta := if v == Null || v == Bool(false) then EmptyHash else v;
      match VerifyMeta(meta, filename)
      case Some(e) => Failure(e)
      case None => Success(meta)
  }

  // ---------------------------------------------------------------------------------------
  // parse_with_frontmatter, over text already read

  /**
   * The body of `parse_with_frontmatter` after `read_file`. Without an opening fence the
   * whole text is the content. With one, `split(..., 3)` yields five pieces when a second
   * fence follows and three when none does, which `pieces.size < 4` reports.
   */
  function ParseText(filename: string, data: string, decode: string -> Decoded): (r: Result<ParseResult, Error>)
    ensures !OpensFence(data) ==> r == Success(ParseResult(data, EmptyHash, ""))
    ensures OpensFence(data) ==> FenceAt(data, 0)
    ensures OpensFence(data) && NextFence(data, FenceEnd(data, 0)).None? ==>
      r == Failure(InvalidFormat(filename))
    ensures OpensFence(data) && NextFence(data, FenceEnd(data, 0)).Some? ==>
      var e1 := FenceEnd(data, 0);
      var p := NextFence(data, e1).value;
      var meta := ParseMetadata(data[e1..p], filename, decode);
      (meta.Failure? ==> r == Failure(meta.error)) &&
      (meta.Success? ==> r == Success(ParseResult(StripLeadingNewline(data[FenceEnd(data, p)..]), meta.value, data[e1..p])))
  {
    if !OpensFence(data) then Success(ParseResult(data, EmptyHash, ""))
    else
      assert data[..3] == "---" by {
        if |data| >= 5 && data[..5] == "-----" { assert data[..3] == data[..5][..3]; }
      }
      assert FenceAt(data, 0);
      var e1 := FenceEnd(data, 0);
      match NextFence(data, e1)
      case None => Failure(InvalidFormat(filename))
      case Some(p) =>
        var attrs := data[e1..p];
        match ParseMetadata(attrs, filename, decode)
        case Failure(e) => Failure(e)
        case Success(meta) => Success(ParseResult(StripLeadingNewline(data[FenceEnd(data, p)..]), meta, attrs))
  }

  /** The fenced branch is taken exactly when the opening fence is there. */
  lemma FencedBranchIffOpensFence(filename: string, data: string, decode: string -> Decoded)
    ensures OpensFence(data) <==> ParseText(filename, data, decode) != Success(ParseResult(data, EmptyHash, ""))
  {
    if OpensFence(data) {
      var r := ParseText(filename, data, decode);
      if r.Success? {
        var p := NextFence(data, FenceEnd(data, 0)).value;
        assert |r.value.content| <= |data| - FenceEnd(data, p) < |data|;
      }
    }
  }

  /**
   * What parsing leaves: the metadata text lies between the opening fence and the first
   * fence line after it, and the content is all the rest after that fence, less at most one
   * newline, so any later fence line stays in the content.
   */
  lemma ParsedPiecesOfText(filename: string, data: string, decode: string -> Decoded)
    requires OpensFence(data) && ParseText(filename, data, decode).Success?
    ensures FenceAt(data, 0) && NextFence(data, FenceEnd(data, 0)).Some?
    ensures var r := ParseText(filename, data, decode).value;
      var e1 := FenceEnd(data, 0);
      var p := NextFence(data, e1).value;
      var e2 := FenceEnd(data, p);
      r.attributesData == data[e1..p] &&
      (forall q :: e1 <= q < p ==> !FenceAt(data, q)) &&
      (data[e2..] == r.content || data[e2..] == "\n" + r.content)
  {
  }

  // ---------------------------------------------------------------------------------------
  // read_file

  /** A character of the file as read, or a byte sequence its encoding does not allow. */
  datatype Unit = Char(c: char) | Invalid

  /** What `File.read` gives: the text in some encoding, or the `inspect` of what it raised. */
  datatype RawFile = Contents(units: seq<Unit>, encoding: string) | Unreadable(inspect: string)

  /** `valid_encoding?`. */
  predicate ValidEncoding(units: seq<Unit>)
  {
    forall k :: 0 <= k < |units| ==> units[k].Char?
  }

  /** The characters of a validly encoded text. */
  function Chars(units: seq<Unit>): (s: string)
    requires ValidEncoding(units)
    ensures |s| == |units| && forall k :: 0 <= k < |s| ==> units[k] == Char(s[k])
  {
    if units == [] then [] else [units[0].c] + Chars(units[1..])
  }

  const ByteOrderMark := '\U{FEFF}'

  /** `delete!(c)`: every occurrence of `c` removed, everything else kept in order. */
  function DeleteAll(s: string, c: char): (r: string)
    ensures c !in r
    ensures IsSubsequence(r, s)
    ensures forall x :: x != c ==> multiset(r)[x] == multiset(s)[x]
  {
    if s == [] then []
    else
      var rest := DeleteAll(s[1..], c);
      assert s == [s[0]] + s[1..];
      if s[0] == c then
        SubsequenceCons(rest, s[1..], c);
        rest
      else
        assert ([s[0]] + rest)[1..] == rest;
        [s[0]] + rest
  }

  /**
   * `read_file`: read, transcode to UTF-8 (the parameter `transcode`, which gives nothing
   * where the Ruby call raises), check the encoding, then delete every byte-order mark.
   */
  method ReadFile(filename: string, raw: RawFile, transcode: (seq<Unit>, string) -> Option<seq<Unit>>)
    returns (r: Result<string, Error>)
    ensures raw.Unreadable? ==> r == Failure(FileUnreadable(filename, raw.inspect))
    ensures raw.Contents? && transcode(raw.units, raw.encoding).None? ==>
      r == Failure(InvalidEncoding(filename, raw.encoding))
    ensures raw.Contents? && transcode(raw.units, raw.encoding).Some? ==>
      var units := transcode(raw.units, raw.encoding).value;
      (!ValidEncoding(units) ==> r == Failure(InvalidEncoding(filename, raw.encoding))) &&
      (ValidEncoding(units) ==> r == Success(DeleteAll(Chars(units), ByteOrderMark)))
    ensures r.Success? ==> ByteOrderMark !in r.value
  {
    if raw.Unreadable? {
      return Failure(FileUnreadable(filename, raw.inspect));
    }
    var data := raw.units;
    var originalEncoding := raw.encoding;
    var encoded := transcode(data, originalEncoding);
    if encoded.None? {
      return Failure(InvalidEncoding(filename, originalEncoding));
    }
    data := encoded.value;
    if !ValidEncoding(data) {
      return Failure(InvalidEncoding(filename, originalEncoding));
    }
    var text := Chars(data);
    text := DeleteAll(text, ByteOrderMark);
    return Success(text);
  }

  /** The text `read_file` gives for a file it can read and decode. */
  function ReadText(units: seq<Unit>): string
    requires ValidEncoding(units)
  {
    DeleteAll(Chars(units), ByteOrderMark)
  }

  /** `Parser#parse_with_frontmatter` (and `call`, which only forwards to it). */
  method ParseWithFrontmatter(filename: string, raw: RawFile,
                              transcode: (seq<Unit>, string) -> Option<seq<Unit>>,
                              decode: string -> Decoded)
    returns (r: Result<ParseResult, Error>)
    ensures raw.Unreadable? ==> r == Failure(FileUnreadable(filename, raw.inspect))
    ensures raw.Contents? ==>
      var t := transcode(raw.units, raw.encoding);
      (t.None? || !ValidEncoding(t.value) ==> r == Failure(InvalidEncoding(filename, raw.encoding))) &&
      (t.Some? && ValidEncoding(t.value) ==> r == ParseText(filename, ReadText(t.value), decode))
  {
    var data := ReadFile(filename, raw, transcode);
    if data.Failure? {
      return Failure(data.error);
    }
    r := ParseText(filename, data.value, decode);
  }

  /** `Parser#frontmatter?`: whether the text read starts with an opening fence. */
  method IsFrontmatter(filename: string, raw: RawFile,
                       transcode: (seq<Unit>, string) -> Option<seq<Unit>>)
    returns (r: Result<bool, Error>)
    ensures raw.Unreadable? ==> r == Failure(FileUnreadable(filename, raw.inspect))
    ensures raw.Contents? ==>
      var t := transcode(raw.units, raw.encoding);
      (t.None? || !ValidEncoding(t.value) ==> r == Failure(InvalidEncoding(filename, raw.encoding))) &&
      (t.Some? && ValidEncoding(t.value) ==> r == Success(OpensFence(ReadText(t.value))))
  {
    var data := ReadFile(filename, raw, transcode);
    if data.Failure? {
      return Failure(data.error);
    }
    r := Success(OpensFence(data.value));
  }
}

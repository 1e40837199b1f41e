/**
 * The pieces of Ruby's String and Regexp behaviour the rest of the model is built from,
 * restricted to ASCII: character classes as Ruby regular expressions read them, ASCII case
 * mapping, `split` with its trailing-field rule, `join`, `include?`, `chomp`, `uniq`,
 * `Integer#to_s` and `String#to_i` on digit runs.
 */
module Strings {

  // ---------------------------------------------------------------------------------------
  // Character classes

  /** `\s` in a Ruby regular expression: space, tab, line feed, vertical tab, form feed, CR. */
  predicate IsSpace(c: char) {
    c == ' ' || c == '\t' || c == '\n' || c == '\U{000B}' || c == '\U{000C}' || c == '\r'
  }

  /** `\d`: an ASCII digit. */
  predicate IsDigit(c: char) { '0' <= c <= '9' }

  predicate IsUpper(c: char) { 'A' <= c <= 'Z' }

  predicate IsLower(c: char) { 'a' <= c <= 'z' }

  /** `\w`: an ASCII letter, digit or underscore. */
  predicate IsWordChar(c: char) { IsUpper(c) || IsLower(c) || IsDigit(c) || c == '_' }

  // ---------------------------------------------------------------------------------------
  // ASCII case mapping

  function Lower(c: char): (r: char)
    ensures !IsUpper(r)
    ensures IsUpper(c) ==> IsLower(r)
    ensures !IsUpper(c) ==> r == c
  {
    if IsUpper(c) then (c as int + 32) as char else c
  }

  function Upper(c: char): (r: char)
    ensures !IsLower(r)
    ensures IsLower(c) ==> IsUpper(r) && Lower(r) == c
    ensures !IsLower(c) ==> r == c
  {
    if IsLower(c) then (c as int - 32) as char else c
  }

  /** `String#downcase` on ASCII. */
  function Downcase(s: string): (r: string)
    ensures |r| == |s|
    ensures forall i :: 0 <= i < |s| ==> r[i] == Lower(s[i])
  {
    if s == [] then [] else [Lower(s[0])] + Downcase(s[1..])
  }

  /** `String#capitalize` on ASCII: the first character upper-cased, the rest lower-cased. */
  function Capitalize(s: string): (r: string)
    ensures |r| == |s|
    ensures |s| > 0 ==> r[0] == Upper(s[0])
    ensures forall i :: 0 < i < |s| ==> r[i] == Lower(s[i])
  {
    if s == [] then [] else [Upper(s[0])] + Downcase(s[1..])
  }

  // ---------------------------------------------------------------------------------------
  // Runs of characters (greedy scans used by the regular expressions of the model)

  /** End of the maximal run of `\s` characters starting at `i`. */
  function SkipSpaces(s: string, i: nat): (j: nat)
    requires i <= |s|
    ensures i <= j <= |s|
    ensures forall k :: i <= k < j ==> IsSpace(s[k])
    ensures j == |s| || !IsSpace(s[j])
    decreases |s| - i
  {
    if i < |s| && IsSpace(s[i]) then SkipSpaces(s, i + 1) else i
  }

  /** End of the maximal run of `\d` characters starting at `i`. */
  function SkipDigits(s: string, i: nat): (j: nat)
    requires i <= |s|
    ensures i <= j <= |s|
    ensures forall k :: i <= k < j ==> IsDigit(s[k])
    ensures j == |s| || !IsDigit(s[j])
    decreases |s| - i
  {
    if i < |s| && IsDigit(s[i]) then SkipDigits(s, i + 1) else i
  }

  /** End of the maximal run of `\w` characters starting at `i`. */
  function SkipWord(s: string, i: nat): (j: nat)
    requires i <= |s|
    ensures i <= j <= |s|
    ensures forall k :: i <= k < j ==> IsWordChar(s[k])
    ensures j == |s| || !IsWordChar(s[j])
    decreases |s| - i
  {
    if i < |s| && IsWordChar(s[i]) then SkipWord(s, i + 1) else i
  }

  // ---------------------------------------------------------------------------------------
  // split and join

  /**
   * The fields of `s` between the characters in `seps`, before Ruby discards any of them:
   * always one more field than there are separators.
   */
  function Fields(s: string, seps: set<char>): (r: seq<string>)
    ensures |r| >= 1
  {
    if s == [] then [""]
    else if s[0] in seps then [""] + Fields(s[1..], seps)
    else
      var rest := Fields(s[1..], seps);
      [[s[0]] + rest[0]] + rest[1..]
  }

  /** A field holds only characters of `s` and none of the separators. */
  lemma {:induction false} FieldsAvoid(s: string, seps: set<char>)
    ensures forall k, c :: 0 <= k < |Fields(s, seps)| && c in Fields(s, seps)[k] ==> c in s && c !in seps
  {
    if s != [] {
      FieldsAvoid(s[1..], seps);
      var rest := Fields(s[1..], seps);
      var r := Fields(s, seps);
      assert forall c :: c in s[1..] ==> c in s;
      if s[0] !in seps {
        assert forall k :: 1 <= k < |r| ==> r[k] == rest[k];
        assert forall c :: c in r[0] ==> c == s[0] || c in rest[0];
      } else {
        assert forall k :: 1 <= k < |r| ==> r[k] == rest[k - 1];
      }
    }
  }

  /** Ruby's `split` without a limit removes every trailing empty field. */
  function DropTrailingEmpty(fs: seq<string>): (r: seq<string>)
    ensures r <= fs
    ensures r == [] || r[|r| - 1] != ""
    ensures forall k :: |r| <= k < |fs| ==> fs[k] == ""
  {
    if |fs| > 0 && fs[|fs| - 1] == "" then DropTrailingEmpty(fs[..|fs| - 1]) else fs
  }

  /** `s.split(sep)` (a one-character string) or `s.split(/[..]/)` (a character class). */
  function Split(s: string, seps: set<char>): seq<string>
  {
    DropTrailingEmpty(Fields(s, seps))
  }

  /** The pieces `split` keeps are fields, so they too hold no separator. */
  lemma SplitAvoids(s: string, seps: set<char>)
    ensures forall k, c :: 0 <= k < |Split(s, seps)| && c in Split(s, seps)[k] ==> c in s && c !in seps
  {
    FieldsAvoid(s, seps);
    var fs := Fields(s, seps);
    var r := Split(s, seps);
    assert forall k :: 0 <= k < |r| ==> r[k] == fs[k];
  }

  /** `Array#join(sep)`. */
  function Join(sep: string, parts: seq<string>): string
  {
    if |parts| == 0 then ""
    else if |parts| == 1 then parts[0]
    else parts[0] + sep + Join(sep, parts[1..])
  }

  /** Joining the raw fields with their one-character separator gives back the string. */
  lemma {:induction false} JoinFields(s: string, c: char)
    ensures Join([c], Fields(s, {c})) == s
  {
    if s == [] {
    } else if s[0] == c {
      JoinFields(s[1..], c);
      var rest := Fields(s[1..], {c});
      assert Fields(s, {c}) == [""] + rest;
      if |rest| == 1 {
        assert Join([c], [""] + rest) == "" + [c] + rest[0];
      } else {
        assert Join([c], [""] + rest) == "" + [c] + Join([c], rest);
      }
      assert s == [c] + s[1..];
    } else {
      JoinFields(s[1..], c);
      var rest := Fields(s[1..], {c});
      var head := [s[0]] + rest[0];
      assert Fields(s, {c}) == [head] + rest[1..];
      if |rest| == 1 {
        assert Join([c], rest) == rest[0];
      } else {
        assert Join([c], rest) == rest[0] + [c] + Join([c], rest[1..]);
      }
      assert s == [s[0]] + s[1..];
    }
  }

  /** A string with no separator in it splits into itself, or into nothing when it is empty. */
  lemma {:induction false} SplitWithoutSeparator(s: string, seps: set<char>)
    requires forall c :: c in s ==> c !in seps
    ensures Fields(s, seps) == [s]
    ensures Split(s, seps) == (if s == [] then [] else [s])
  {
    if s != [] {
      assert forall c :: c in s[1..] ==> c in s;
      SplitWithoutSeparator(s[1..], seps);
      assert [s[0]] + s[1..] == s;
    }
  }

  // ---------------------------------------------------------------------------------------
  // Searching

  /** `s.include?(sub)`: `sub` occurs in `s` at some position. */
  predicate Contains(s: string, sub: string)
    decreases |s|
  {
    sub <= s || (|s| > 0 && Contains(s[1..], sub))
  }

  /** `sub` occurs in `s` at position `i`. */
  predicate OccursAt(s: string, sub: string, i: int)
  {
    0 <= i && i + |sub| <= |s| && sub <= s[i..]
  }

  lemma {:induction false} ContainsAt(s: string, sub: string)
    ensures Contains(s, sub) <==> exists i :: OccursAt(s, sub, i)
  {
    if sub <= s {
      assert s[0..] == s;
      assert OccursAt(s, sub, 0);
    } else if |s| > 0 {
      ContainsAt(s[1..], sub);
      if Contains(s[1..], sub) {
        var i :| OccursAt(s[1..], sub, i);
        assert s[1..][i..] == s[i + 1..];
        assert OccursAt(s, sub, i + 1);
      }
      forall i | OccursAt(s, sub, i)
        ensures Contains(s[1..], sub)
      {
        assert s[0..] == s;
        assert s[i..] == s[1..][i - 1..];
        assert OccursAt(s[1..], sub, i - 1);
      }
    }
  }

  // ---------------------------------------------------------------------------------------
  // chomp

  /** `String#chomp`: one trailing "\r\n", "\n" or "\r" removed. */
  function Chomp(s: string): (r: string)
    ensures s == r || s == r + "\n" || s == r + "\r" || s == r + "\r\n"
    ensures s == r ==> s == [] || (s[|s| - 1] != '\n' && s[|s| - 1] != '\r')
    ensures |s| >= 2 && s[|s| - 2..] == "\r\n" ==> s == r + "\r\n"
  {
    if |s| >= 2 && s[|s| - 2..] == "\r\n" then s[..|s| - 2]
    else if |s| >= 1 && (s[|s| - 1] == '\n' || s[|s| - 1] == '\r') then s[..|s| - 1]
    else s
  }

  // ---------------------------------------------------------------------------------------
  // Sequences

  /** `a` can be obtained from `b` by deleting elements: order is kept. */
  predicate IsSubsequence<T(==)>(a: seq<T>, b: seq<T>)
  {
    if a == [] then true
    else if b == [] then false
    else if a[0] == b[0] then IsSubsequence(a[1..], b[1..])
    else IsSubsequence(a, b[1..])
  }

  lemma {:induction false} SubsequenceSelf<T>(a: seq<T>)
    ensures IsSubsequence(a, a)
  {
    if a != [] { SubsequenceSelf(a[1..]); }
  }

  lemma {:induction false} SubsequenceMembers<T>(a: seq<T>, b: seq<T>)
    requires IsSubsequence(a, b)
    ensures forall x :: x in a ==> x in b
  {
    if a != [] && b != [] {
      if a[0] == b[0] {
        SubsequenceMembers(a[1..], b[1..]);
        assert forall x :: x in a ==> x == a[0] || x in a[1..];
      } else {
        SubsequenceMembers(a, b[1..]);
      }
    }
  }

  lemma {:induction false} SubsequenceDropHead<T>(a: seq<T>, b: seq<T>)
    requires a != [] && IsSubsequence(a, b)
    ensures IsSubsequence(a[1..], b)
    decreases |b|, 0
  {
    if a[0] == b[0] {
      if a[1..] != [] {
        SubsequenceDropHead(a[1..], b[1..]);
        SubsequenceCons(a[1..][1..], b[1..], b[0]);
        assert ([b[0]] + b[1..]) == b;
        if a[1..][0] == b[0] {
          assert IsSubsequence(a[1..], b);
        }
      }
    } else {
      SubsequenceDropHead(a, b[1..]);
      SubsequenceCons(a[1..], b[1..], b[0]);
      assert ([b[0]] + b[1..]) == b;
    }
  }

  /** An element put in front of the longer sequence keeps a subsequence one. */
  lemma {:induction false} SubsequenceCons<T>(a: seq<T>, b: seq<T>, x: T)
    requires IsSubsequence(a, b)
    ensures IsSubsequence(a, [x] + b)
    decreases |b|, 1
  {
    assert ([x] + b)[1..] == b;
    if a != [] && a[0] == x {
      SubsequenceDropHead(a, b);
    }
  }

  /** `Array#uniq`: an element is kept exactly when it does not occur earlier. */
  function Uniq<T(==,!new)>(s: seq<T>): (r: seq<T>)
    ensures forall x :: x in r <==> x in s
    ensures forall i, j :: 0 <= i < j < |r| ==> r[i] != r[j]
  {
    if s == [] then []
    else
      var init := Uniq(s[..|s| - 1]);
      var last := s[|s| - 1];
      assert forall x :: x in s <==> x in s[..|s| - 1] || x == last;
      if last in s[..|s| - 1] then init else init + [last]
  }

  lemma {:induction false} UniqSubsequence<T(!new)>(s: seq<T>)
    ensures IsSubsequence(Uniq(s), s)
  {
    if s != [] {
      UniqSubsequence(s[..|s| - 1]);
      var init := Uniq(s[..|s| - 1]);
      if s[|s| - 1] in s[..|s| - 1] {
        SubsequenceAppend(init, s[..|s| - 1], s[|s| - 1], false);
      } else {
        SubsequenceAppend(init, s[..|s| - 1], s[|s| - 1], true);
      }
      assert s[..|s| - 1] + [s[|s| - 1]] == s;
    }
  }

  lemma {:induction false} SubsequenceAppend<T>(a: seq<T>, b: seq<T>, x: T, keep: bool)
    requires IsSubsequence(a, b)
    ensures IsSubsequence(if keep then a + [x] else a, b + [x])
    decreases |b|
  {
    if a == [] {
      if keep {
        SubsequenceLast(b, x);
        assert a + [x] == [x];
      }
    } else if b == [] {
    } else if a[0] == b[0] {
      SubsequenceAppend(a[1..], b[1..], x, keep);
      assert (b + [x])[1..] == b[1..] + [x];
      if keep { assert (a + [x])[1..] == a[1..] + [x]; }
    } else {
      SubsequenceAppend(a, b[1..], x, keep);
      assert (b + [x])[1..] == b[1..] + [x];
    }
  }

  lemma {:induction false} SubsequenceLast<T>(b: seq<T>, x: T)
    ensures IsSubsequence([x], b + [x])
    decreases |b|
  {
    if b != [] {
      if b[0] == x {
        assert IsSubsequence([x][1..], (b + [x])[1..]);
      } else {
        SubsequenceLast(b[1..], x);
        assert (b + [x])[1..] == b[1..] + [x];
      }
    }
  }

  // ---------------------------------------------------------------------------------------
  // Decimal numbers

  function DigitChar(d: nat): (c: char)
    requires d < 10
    ensures IsDigit(c) && c as int - '0' as int == d
  {
    ('0' as int + d) as char
  }

  /** `Integer#to_s` of a non-negative integer. */
  function NatToString(n: nat): (r: string)
    ensures |r| >= 1
    ensures forall k :: 0 <= k < |r| ==> IsDigit(r[k])
  {
    if n < 10 then [DigitChar(n)] else NatToString(n / 10) + [DigitChar(n % 10)]
  }

  predicate AllDigits(s: string) { forall k :: 0 <= k < |s| ==> IsDigit(s[k]) }

  /** `String#to_i` of a run of digits. */
  function DigitsValue(s: string): nat
    requires AllDigits(s)
  {
    if s == [] then 0 else DigitsValue(s[..|s| - 1]) * 10 + (s[|s| - 1] as int - '0' as int)
  }

  /** Reading back the decimal text of a number gives the number. */
  lemma {:induction false} DigitsValueOfNatToString(n: nat)
    ensures DigitsValue(NatToString(n)) == n
  {
    if n >= 10 {
      DigitsValueOfNatToString(n / 10);
      var r := NatToString(n);
      assert r[..|r| - 1] == NatToString(n / 10);
    } else {
      assert NatToString(n)[..0] == [];
    }
  }

  /** Leading zeros do not change the value of a digit run: "007" and "7" are both 7. */
  lemma {:induction false} DigitsValueLeadingZero(s: string)
    requires AllDigits(s)
    ensures AllDigits("0" + s) && DigitsValue("0" + s) == DigitsValue(s)
    decreases |s|
  {
    if s == [] {
      assert ("0" + s)[..0] == [];
    } else {
      var init := s[..|s| - 1];
      DigitsValueLeadingZero(init);
      assert ("0" + s)[..|"0" + s| - 1] == "0" + init;
    }
  }
}

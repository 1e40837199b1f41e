/**
 * The guide matcher of lib/flight-howto/matcher.rb: a fixed sequence of guides that can be
 * narrowed by a search key, giving a new matcher, or searched for an id. Nothing changes a
 * matcher after it is built, so it is a value.
 */
module Matching {
  import opened Wrappers
  import opened Strings
  import opened Guides

  datatype Matcher = Matcher(guides: seq<Guide>)

  /**
   * `Matcher.new(guides = nil)`: the given sequence, or the guides found on disk when none is
   * given. An empty sequence is a given sequence (only nil falls back).
   */
  function New(given: Option<seq<Guide>>, loaded: seq<Guide>): (m: Matcher)
    ensures given.Some? ==> m.guides == given.value
    ensures given.None? ==> m.guides == loaded
  {
    Matcher(if given.Some? then given.value else loaded)
  }

  // ---------------------------------------------------------------------------------------
  // Filtering, in order

  /** `select`: the elements satisfying `p`, in their original order. */
  function Filter<T(!new)>(xs: seq<T>, p: T -> bool): (r: seq<T>)
    ensures |r| <= |xs|
    ensures forall x :: x in r <==> x in xs && p(x)
  {
    if xs == [] then []
    else
      var rest := Filter(xs[1..], p);
      assert forall x :: x in xs <==> x == xs[0] || x in xs[1..];
      if p(xs[0]) then [xs[0]] + rest else rest
  }

  lemma {:induction false} FilterSubsequence<T(!new)>(xs: seq<T>, p: T -> bool)
    ensures IsSubsequence(Filter(xs, p), xs)
  {
    if xs != [] {
      FilterSubsequence(xs[1..], p);
      if p(xs[0]) {
        assert ([xs[0]] + Filter(xs[1..], p))[1..] == Filter(xs[1..], p);
      } else if Filter(xs[1..], p) != [] {
        SubsequenceTail(Filter(xs[1..], p), xs);
      }
    }
  }

  lemma SubsequenceTail<T(!new)>(a: seq<T>, b: seq<T>)
    requires a != [] && b != [] && IsSubsequence(a, b[1..])
    ensures IsSubsequence(a, b) || a[0] == b[0]
  {
  }

  /** The conjunction of two conditions. */
  function Both<T>(p: T -> bool, q: T -> bool): T -> bool
  {
    x => p(x) && q(x)
  }

  /** Filtering twice is filtering once by both conditions. */
  lemma {:induction false} FilterFilter<T(!new)>(xs: seq<T>, p: T -> bool, q: T -> bool)
    ensures Filter(Filter(xs, p), q) == Filter(xs, Both(p, q))
  {
    if xs != [] {
      FilterFilter(xs[1..], p, q);
      if p(xs[0]) {
        assert ([xs[0]] + Filter(xs[1..], p))[1..] == Filter(xs[1..], p);
      }
    }
  }

  /** A stronger condition keeps a subsequence of what a weaker one keeps. */
  lemma {:induction false} FilterStronger<T(!new)>(xs: seq<T>, p: T -> bool, q: T -> bool)
    requires forall x :: q(x) ==> p(x)
    ensures IsSubsequence(Filter(xs, q), Filter(xs, p))
  {
    if xs != [] {
      FilterStronger(xs[1..], p, q);
      if q(xs[0]) {
        assert ([xs[0]] + Filter(xs[1..], q))[1..] == Filter(xs[1..], q);
        assert ([xs[0]] + Filter(xs[1..], p))[1..] == Filter(xs[1..], p);
      } else if p(xs[0]) {
        SubsequenceCons(Filter(xs[1..], q), Filter(xs[1..], p), xs[0]);
      }
    }
  }

  /** Two filters can be applied in either order. */
  lemma FilterCommutes<T(!new)>(xs: seq<T>, p: T -> bool, q: T -> bool)
    ensures Filter(Filter(xs, p), q) == Filter(Filter(xs, q), p)
  {
    FilterFilter(xs, p, q);
    FilterFilter(xs, q, p);
    FilterSameCondition(xs, Both(p, q), Both(q, p));
  }

  /** Filters by conditions that agree everywhere agree. */
  lemma {:induction false} FilterSameCondition<T(!new)>(xs: seq<T>, p: T -> bool, q: T -> bool)
    requires forall x :: p(x) == q(x)
    ensures Filter(xs, p) == Filter(xs, q)
  {
    if xs != [] {
      FilterSameCondition(xs[1..], p, q);
    }
  }

  /** A filter that every element passes keeps the sequence as it is. */
  lemma {:induction false} FilterKeepsAll<T(!new)>(xs: seq<T>, p: T -> bool)
    requires forall x :: x in xs ==> p(x)
    ensures Filter(xs, p) == xs
  {
    if xs != [] {
      assert forall x :: x in xs[1..] ==> x in xs;
      FilterKeepsAll(xs[1..], p);
    }
  }

  // ---------------------------------------------------------------------------------------
  // search

  // The search regex anchors `key` at the start of a part and lets anything follow it, so
  // some part starts with `key`. The key is taken literally.
  predicate MatchesKey(di: nat, g: Guide, key: string)
  {
    exists i :: 0 <= i < |Parts(di, g)| && key <= Parts(di, g)[i]
  }

  /** The condition `search(key)` selects by. */
  function KeyFilter(di: nat, key: string): Guide -> bool
  {
    g => MatchesKey(di, g, key)
  }

  /**
   * `Matcher#search(key)`: a new matcher holding the guides that have a part beginning with
   * `key`, in their original order.
   */
  function Search(di: nat, m: Matcher, key: string): (r: Matcher)
    ensures IsSubsequence(r.guides, m.guides)
    ensures forall g :: g in r.guides <==> g in m.guides && MatchesKey(di, g, key)
  {
    FilterSubsequence(m.guides, KeyFilter(di, key));
    Matcher(Filter(m.guides, KeyFilter(di, key)))
  }

  /** Searching again for the same key changes nothing. */
  lemma SearchIdempotent(di: nat, m: Matcher, key: string)
    ensures Search(di, Search(di, m, key), key) == Search(di, m, key)
  {
    FilterKeepsAll(Filter(m.guides, KeyFilter(di, key)), KeyFilter(di, key));
  }

  /** The order in which two keys are searched for does not matter. */
  lemma SearchCommutes(di: nat, m: Matcher, a: string, b: string)
    ensures Search(di, Search(di, m, a), b) == Search(di, Search(di, m, b), a)
  {
    FilterCommutes(m.guides, KeyFilter(di, a), KeyFilter(di, b));
  }

  /** Some part starts with "" exactly when there is a part. */
  lemma EmptyKeyMatches(di: nat, g: Guide)
    ensures MatchesKey(di, g, "") == (|Parts(di, g)| > 0)
  {
    if |Parts(di, g)| > 0 {
      assert "" <= Parts(di, g)[0];
    }
  }

  /** The condition of having at least one part. */
  function HasParts(di: nat): Guide -> bool
  {
    g => |Parts(di, g)| > 0
  }

  /**
   * The empty key keeps exactly the guides that have at least one part: every part starts
   * with "", but a guide without parts has nothing to match.
   */
  lemma SearchEmptyKey(di: nat, m: Matcher)
    ensures Search(di, m, "").guides == Filter(m.guides, HasParts(di))
    ensures (forall g :: g in m.guides ==> |Parts(di, g)| > 0) ==> Search(di, m, "") == m
  {
    forall g ensures KeyFilter(di, "")(g) == HasParts(di)(g) {
      EmptyKeyMatches(di, g);
    }
    FilterSameCondition(m.guides, KeyFilter(di, ""), HasParts(di));
    if forall g :: g in m.guides ==> |Parts(di, g)| > 0 {
      FilterKeepsAll(m.guides, HasParts(di));
    }
  }

  // ---------------------------------------------------------------------------------------
  // find_by_id

  // `sub(/\A0*/, '')`: the string without its leading zeros.
  function StripLeadingZeros(s: string): (r: string)
    ensures r == [] || r[0] != '0'
    ensures |r| <= |s| && s[|s| - |r|..] == r
    ensures forall k :: 0 <= k < |s| - |r| ==> s[k] == '0'
  {
    if s != [] && s[0] == '0' then StripLeadingZeros(s[1..]) else s
  }

  /** The id a raw id is compared as: downcased, without leading zeros. */
  function NormalizeId(raw: string): string
  {
    StripLeadingZeros(Downcase(raw))
  }

  /** `find`: the first guide, in order, whose id is `id`. */
  function FindFirst(gs: seq<Guide>, id: string, idOf: Guide -> string): (r: Option<Guide>)
    ensures r.Some? ==> exists i :: 0 <= i < |gs| && gs[i] == r.value && idOf(gs[i]) == id &&
                                (forall j :: 0 <= j < i ==> idOf(gs[j]) != id)
    ensures r.None? <==> forall g :: g in gs ==> idOf(g) != id
  {
    if gs == [] then None
    else if idOf(gs[0]) == id then Some(gs[0])
    else
      var r := FindFirst(gs[1..], id, idOf);
      assert forall g :: g in gs <==> g == gs[0] || g in gs[1..];
      if r.Some? then
        var i :| 0 <= i < |gs[1..]| && gs[1..][i] == r.value && idOf(gs[1..][i]) == id &&
                 (forall j :: 0 <= j < i ==> idOf(gs[1..][j]) != id);
        assert gs[i + 1] == r.value;
        r
      else r
  }

  /**
   * `Matcher#find_by_id(raw_id)`. `Guide#id` is not part of this model; it is the
   * parameter `idOf`.
   */
  function FindById(m: Matcher, rawId: string, idOf: Guide -> string): (r: Option<Guide>)
    ensures r.Some? ==> r.value in m.guides && idOf(r.value) == NormalizeId(rawId)
    ensures r.Some? ==> exists i :: 0 <= i < |m.guides| && m.guides[i] == r.value &&
                                (forall j :: 0 <= j < i ==> idOf(m.guides[j]) != NormalizeId(rawId))
    ensures r.None? <==> forall g :: g in m.guides ==> idOf(g) != NormalizeId(rawId)
  {
    FindFirst(m.guides, NormalizeId(rawId), idOf)
  }

  /** A leading zero makes no difference to the lookup, so "007" and "7" find the same guide. */
  lemma FindByIdIgnoresLeadingZero(m: Matcher, rawId: string, idOf: Guide -> string)
    ensures FindById(m, "0" + rawId, idOf) == FindById(m, rawId, idOf)
  {
    assert Downcase("0" + rawId) == "0" + Downcase(rawId);
    assert ("0" + Downcase(rawId))[1..] == Downcase(rawId);
  }

  /** Case does not matter to the lookup. */
  lemma FindByIdIgnoresCase(m: Matcher, a: string, b: string, idOf: Guide -> string)
    requires Downcase(a) == Downcase(b)
    ensures FindById(m, a, idOf) == FindById(m, b, idOf)
  {
  }
}

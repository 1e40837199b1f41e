/**
 * Guide resolution of `howto show` (lib/flight-howto/commands/show.rb): the arguments are
 * turned into search tokens, the guides matching every token are the candidates, and a
 * single guide or a `MissingError` comes out.
 */
module Show {
  import opened Wrappers
  import opened Strings
  import opened Errors
  import opened Guides
  import opened Matching

  /**
   * The search tokens of `load_guides_from_args`: the arguments joined with '_' and
   * standardized, split on '_', duplicates removed keeping the first of each.
   */
  function Tokens(args: seq<string>): (r: seq<string>)
    ensures forall i, j :: 0 <= i < j < |r| ==> r[i] != r[j]
    ensures forall t :: t in r <==> t in Split(Standardize(Join("_", args)), {'_'})
  {
    Uniq(Split(Standardize(Join("_", args)), {'_'}))
  }

  /** No token holds a '_', whitespace, a '-' or an upper-case letter. */
  lemma TokensAreStandardWords(args: seq<string>)
    ensures forall k :: 0 <= k < |Tokens(args)| ==> '_' !in Tokens(args)[k] && IsStandard(Tokens(args)[k])
  {
    var s := Standardize(Join("_", args));
    StandardizeIsStandard(Join("_", args));
    SplitAvoids(s, {'_'});
    forall k | 0 <= k < |Tokens(args)|
      ensures '_' !in Tokens(args)[k] && IsStandard(Tokens(args)[k])
    {
      var t := Tokens(args)[k];
      assert t in Split(s, {'_'});
    }
  }

  /** `reduce(matcher) { |memo, key| memo.search(key) }`. */
  function FoldSearch(di: nat, m: Matcher, keys: seq<string>): Matcher
    decreases |keys|
  {
    if keys == [] then m else FoldSearch(di, Search(di, m, keys[0]), keys[1..])
  }

  /** A guide matches every key of a sequence. */
  predicate MatchesAll(di: nat, g: Guide, keys: seq<string>)
  {
    forall k :: k in keys ==> MatchesKey(di, g, k)
  }

  function AllKeysFilter(di: nat, keys: seq<string>): Guide -> bool
  {
    g => MatchesAll(di, g, keys)
  }

  lemma AllKeysCons(di: nat, keys: seq<string>)
    requires keys != []
    ensures forall g ::
              AllKeysFilter(di, keys)(g) == (KeyFilter(di, keys[0])(g) && AllKeysFilter(di, keys[1..])(g))
  {
    assert forall k :: k in keys <==> k == keys[0] || k in keys[1..];
  }

  /** The fold keeps, in order, exactly the guides that match every key. */
  lemma {:induction false} FoldSearchSelectsAll(di: nat, m: Matcher, keys: seq<string>)
    ensures FoldSearch(di, m, keys).guides == Filter(m.guides, AllKeysFilter(di, keys))
    decreases |keys|
  {
    if keys == [] {
      assert forall g :: AllKeysFilter(di, keys)(g);
      FilterKeepsAll(m.guides, AllKeysFilter(di, keys));
      assert FoldSearch(di, m, keys) == m;
    } else {
      var p := KeyFilter(di, keys[0]);
      var q := AllKeysFilter(di, keys[1..]);
      var m' := Search(di, m, keys[0]);
      assert m'.guides == Filter(m.guides, p);
      FoldSearchSelectsAll(di, m', keys[1..]);
      FilterFilter(m.guides, p, q);
      AllKeysCons(di, keys);
      FilterSameCondition(m.guides, Both(p, q), AllKeysFilter(di, keys));
      assert FoldSearch(di, m, keys) == FoldSearch(di, m', keys[1..]);
    }
  }

  /** The fold depends only on which keys there are, not on their order or repetition. */
  lemma FoldSearchDependsOnKeySet(di: nat, m: Matcher, a: seq<string>, b: seq<string>)
    requires forall k :: k in a <==> k in b
    ensures FoldSearch(di, m, a) == FoldSearch(di, m, b)
  {
    FoldSearchSelectsAll(di, m, a);
    FoldSearchSelectsAll(di, m, b);
    FilterSameCondition(m.guides, AllKeysFilter(di, a), AllKeysFilter(di, b));
  }

  /** One more key can only remove guides. */
  lemma FoldSearchExtraKeyShrinks(di: nat, m: Matcher, keys: seq<string>, key: string)
    ensures IsSubsequence(FoldSearch(di, m, keys + [key]).guides, FoldSearch(di, m, keys).guides)
  {
    FoldSearchSelectsAll(di, m, keys + [key]);
    FoldSearchSelectsAll(di, m, keys);
    forall g | AllKeysFilter(di, keys + [key])(g) ensures AllKeysFilter(di, keys)(g) {
      assert forall k :: k in keys ==> k in keys + [key];
    }
    FilterStronger(m.guides, AllKeysFilter(di, keys), AllKeysFilter(di, keys + [key]));
  }

  /**
   * `Show#load_guides_from_args`: the guides, in order, that have for every token a part
   * beginning with it.
   */
  function LoadGuidesFromArgs(di: nat, m: Matcher, args: seq<string>): (r: seq<Guide>)
    ensures IsSubsequence(r, m.guides)
    ensures forall g :: g in r <==> g in m.guides && MatchesAll(di, g, Tokens(args))
  {
    FoldSearchSelectsAll(di, m, Tokens(args));
    FilterSubsequence(m.guides, AllKeysFilter(di, Tokens(args)));
    FoldSearch(di, m, Tokens(args)).guides
  }

  /** Duplicated words in the arguments do not change the candidates. */
  lemma LoadGuidesIgnoresRepeats(di: nat, m: Matcher, args: seq<string>)
    ensures LoadGuidesFromArgs(di, m, args) ==
      FoldSearch(di, m, Split(Standardize(Join("_", args)), {'_'})).guides
  {
    FoldSearchDependsOnKeySet(di, m, Tokens(args), Split(Standardize(Join("_", args)), {'_'}));
  }

  const AmbiguousHeader := "Could not uniquely identify a guide. Did you mean one of the following?"
  const NotFoundPrefix := "Could not locate: "

  /**
   * The heredoc message for several candidates: the header line, then the table, chomped.
   * The chomp takes the heredoc's final newline, and with it a carriage return that ends the
   * table.
   */
  function AmbiguousMessage(table: string): (msg: string)
    ensures AmbiguousHeader + "\n" <= msg
    ensures (table == [] || table[|table| - 1] != '\r') ==> msg == AmbiguousHeader + "\n" + table
    ensures table != [] && table[|table| - 1] == '\r' ==>
      msg == AmbiguousHeader + "\n" + table[..|table| - 1]
  {
    ChompAfterLine(AmbiguousHeader + "\n", table);
    Chomp(AmbiguousHeader + "\n" + table + "\n")
  }

  /** Chomping a last line and its newline after a finished line takes the newline and a CR before it. */
  lemma ChompAfterLine(head: string, line: string)
    requires head != [] && head[|head| - 1] == '\n'
    ensures (line == [] || line[|line| - 1] != '\r') ==> Chomp(head + line + "\n") == head + line
    ensures line != [] && line[|line| - 1] == '\r' ==> Chomp(head + line + "\n") == head + line[..|line| - 1]
  {
    var s := head + line + "\n";
    if line != [] && line[|line| - 1] == '\r' {
      assert s[|s| - 2..] == "\r\n";
      assert s[..|s| - 2] == head + line[..|line| - 1];
    } else {
      assert s[|s| - 2] == if line == [] then '\n' else line[|line| - 1];
      assert s[..|s| - 1] == head + line;
    }
  }

  /**
   * `Show#resolve_guide`. `Matcher#find_by_index` is not part of this model; it is the
   * parameter `findByIndex`, applied to the one argument. The table of candidates that
   * `Lister.build_output(verbose: false).render` prints is the parameter `table`.
   */
  function ResolveGuide(di: nat, m: Matcher, args: seq<string>,
                        findByIndex: string -> Option<Guide>,
                        table: seq<Guide> -> string): (r: Result<Guide, Error>)
    ensures |args| == 1 && findByIndex(args[0]).Some? ==> r == Success(findByIndex(args[0]).value)
    ensures !(|args| == 1 && findByIndex(args[0]).Some?) ==>
      var c := LoadGuidesFromArgs(di, m, args);
      (|c| == 1 ==> r == Success(c[0]) && c[0] in m.guides && MatchesAll(di, c[0], Tokens(args))) &&
      (|c| > 1 ==> r == Failure(Error(MissingError, AmbiguousMessage(table(c)))) &&
                   r.error.ExitCode() == 20) &&
      (|c| == 0 ==> r == Failure(Error(MissingError, NotFoundPrefix + Join(" ", args))))
  {
    if |args| == 1 && findByIndex(args[0]).Some? then
      Success(findByIndex(args[0]).value)
    else
      var c := LoadGuidesFromArgs(di, m, args);
      assert |c| == 1 ==> c[0] in c;
      if |c| == 1 then Success(c[0])
      else if |c| > 1 then Failure(Error(MissingError, AmbiguousMessage(table(c))))
      else Failure(Error(MissingError, NotFoundPrefix + Join(" ", args)))
  }

  /** A resolved guide is the index lookup's, or the only guide matching every token. */
  lemma ResolvedGuideIsJustified(di: nat, m: Matcher, args: seq<string>,
                                 findByIndex: string -> Option<Guide>,
                                 table: seq<Guide> -> string)
    requires ResolveGuide(di, m, args, findByIndex, table).Success?
    ensures var g := ResolveGuide(di, m, args, findByIndex, table).value;
      (|args| == 1 && findByIndex(args[0]) == Some(g)) ||
      LoadGuidesFromArgs(di, m, args) == [g]
  {
    var c := LoadGuidesFromArgs(di, m, args);
    if !(|args| == 1 && findByIndex(args[0]).Some?) {
      assert |c| == 1;
      assert c == [c[0]];
    }
  }
}

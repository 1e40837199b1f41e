/**
 * A guide (lib/flight-howto/guide.rb): a file path from which a standardized name, an
 * index, the name's parts and a human-readable title are derived. The configured default
 * index (`Config::CACHE.default_index`) is the parameter `di`.
 */
module Guides {
  import opened Wrappers
  import opened Strings

  datatype Guide = Guide(path: string)

  // ---------------------------------------------------------------------------------------
  // standardize_string

  function StandardizeChar(c: char): char
  {
    if IsSpace(c) || c == '-' then '_' else Lower(c)
  }

  /** `Guide.standardize_string`: every whitespace or '-' character becomes '_', then downcase. */
  function Standardize(s: string): (r: string)
    ensures |r| == |s|
    ensures forall i :: 0 <= i < |s| ==> r[i] == StandardizeChar(s[i])
  {
    if s == [] then [] else [StandardizeChar(s[0])] + Standardize(s[1..])
  }

  /** No whitespace, no '-', no upper-case letter. */
  predicate IsStandard(s: string)
  {
    forall c :: c in s ==> !IsSpace(c) && c != '-' && !IsUpper(c)
  }

  lemma StandardizeIsStandard(s: string)
    ensures IsStandard(Standardize(s))
  {
  }

  lemma StandardizeKeepsStandard(s: string)
    requires IsStandard(s)
    ensures Standardize(s) == s
  {
    forall i | 0 <= i < |s| ensures Standardize(s)[i] == s[i] {
      assert s[i] in s;
    }
  }

  /** Standardizing twice is standardizing once. */
  lemma StandardizeIdempotent(s: string)
    ensures Standardize(Standardize(s)) == Standardize(s)
  {
    StandardizeIsStandard(s);
    StandardizeKeepsStandard(Standardize(s));
  }

  lemma StandardizeConcat(a: string, b: string)
    ensures Standardize(a + b) == Standardize(a) + Standardize(b)
  {
    var l := Standardize(a + b);
    var r := Standardize(a) + Standardize(b);
    forall i | 0 <= i < |a + b| ensures l[i] == r[i] {
      if i < |a| {
        assert (a + b)[i] == a[i];
      } else {
        assert (a + b)[i] == b[i - |a|];
      }
    }
  }

  // ---------------------------------------------------------------------------------------
  // File.basename(path, '.*')

  /** The last component of a path: what follows its last '/'. */
  function LastComponent(path: string): (r: string)
    ensures '/' !in r
    ensures |r| <= |path| && path[|path| - |r|..] == r
    ensures |r| < |path| ==> path[|path| - |r| - 1] == '/'
  {
    if path == [] then []
    else if path[|path| - 1] == '/' then []
    else
      var init := LastComponent(path[..|path| - 1]);
      assert path[..|path| - 1][|path| - 1 - |init|..] == path[|path| - 1 - |init|..|path| - 1];
      init + [path[|path| - 1]]
  }

  /** The position of the last '.' at or after `from`, if there is one. */
  function LastDotFrom(s: string, from: nat): (r: Option<nat>)
    requires from <= |s|
    ensures r.Some? ==> from <= r.value < |s| && s[r.value] == '.'
    ensures r.Some? ==> forall k :: r.value < k < |s| ==> s[k] != '.'
    ensures r.None? ==> forall k :: from <= k < |s| ==> s[k] != '.'
    decreases |s| - from
  {
    if from == |s| then None
    else match LastDotFrom(s, from + 1)
      case Some(k) => Some(k)
      case None => if s[from] == '.' then Some(from) else None
  }

  /** The end of the run of '.' that begins a name. */
  function LeadingDots(s: string, i: nat): (j: nat)
    requires i <= |s|
    ensures i <= j <= |s|
    ensures forall k :: i <= k < j ==> s[k] == '.'
    ensures j == |s| || s[j] != '.'
    decreases |s| - i
  {
    if i < |s| && s[i] == '.' then LeadingDots(s, i + 1) else i
  }

  /**
   * `File.basename(path, '.*')`: the last component with its extension removed. The
   * extension starts at the last '.' that is not part of the leading run of dots, so
   * ".profile" keeps its name and "a.b.md" loses only ".md".
   */
  function Basename(path: string): (r: string)
    ensures '/' !in r
    ensures var last := LastComponent(path);
      r <= last &&
      (r == last || (last[|r|] == '.' && forall k :: |r| < k < |last| ==> last[k] != '.'))
    ensures var last := LastComponent(path); var d := LeadingDots(last, 0);
      (exists k :: d <= k < |last| && last[k] == '.') ==> d <= |r| < |last| && last[|r|] == '.'
    ensures var last := LastComponent(path); var d := LeadingDots(last, 0);
      (forall k :: d <= k < |last| ==> last[k] != '.') ==> r == last
  {
    var last := LastComponent(path);
    match LastDotFrom(last, LeadingDots(last, 0))
    case Some(k) => last[..k]
    case None => last
  }

  /** Under a directory (or none), the last component is the file name. */
  lemma LastComponentOfFile(dir: string, file: string)
    requires dir == [] || dir[|dir| - 1] == '/'
    requires '/' !in file
    ensures LastComponent(dir + file) == file
  {
    var path := dir + file;
    assert path[|path| - |file|..] == file;
  }

  /**
   * A file `name.ext` under a directory: the basename is `name`, whatever dots `name` holds,
   * so only the last extension goes.
   */
  lemma BasenameDropsExtension(dir: string, name: string, ext: string)
    requires dir == [] || dir[|dir| - 1] == '/'
    requires name != [] && name[0] != '.' && '/' !in name
    requires '/' !in ext && '.' !in ext
    ensures Basename(dir + name + "." + ext) == name
  {
    var file := name + "." + ext;
    assert dir + name + "." + ext == dir + file;
    FileNameParts(name, ext);
    BasenameOfFile(dir, file, |name|);
  }

  /** `file` has no '/', does not start with a dot, and its last dot is at `k`. */
  predicate ExtensionAt(file: string, k: nat)
  {
    k < |file| && file[k] == '.' && file[0] != '.' && '/' !in file &&
    forall j :: k < j < |file| ==> file[j] != '.'
  }

  /** The basename of a file under a directory: the file name cut at its last dot. */
  lemma BasenameOfFile(dir: string, file: string, k: nat)
    requires dir == [] || dir[|dir| - 1] == '/'
    requires ExtensionAt(file, k)
    ensures Basename(dir + file) == file[..k]
  {
    LastComponentOfFile(dir, file);
    NoLeadingDots(file);
    LastDotIs(file, 0, k);
    BasenameCut(dir + file, file, k);
  }

  lemma FileNameParts(name: string, ext: string)
    requires name != [] && name[0] != '.' && '/' !in name
    requires '/' !in ext && '.' !in ext
    ensures ExtensionAt(name + "." + ext, |name|)
    ensures (name + "." + ext)[..|name|] == name
  {
    var file := name + "." + ext;
    forall k | 0 <= k < |file| ensures file[k] != '/' {
      if k < |name| {
        assert file[k] == name[k] && name[k] in name;
      } else if k > |name| {
        assert file[k] == ext[k - |name| - 1] && ext[k - |name| - 1] in ext;
      }
    }
    forall k | |name| < k < |file| ensures file[k] != '.' {
      assert file[k] == ext[k - |name| - 1] && ext[k - |name| - 1] in ext;
    }
  }

  lemma LastDotIs(s: string, from: nat, k: nat)
    requires from <= k < |s| && s[k] == '.' && forall j :: k < j < |s| ==> s[j] != '.'
    ensures LastDotFrom(s, from) == Some(k)
  {
  }

  lemma NoLeadingDots(s: string)
    requires s != [] && s[0] != '.'
    ensures LeadingDots(s, 0) == 0
  {
  }

  lemma BasenameCut(path: string, last: string, k: nat)
    requires LastComponent(path) == last
    requires LeadingDots(last, 0) <= k <= |last|
    requires LastDotFrom(last, LeadingDots(last, 0)) == Some(k)
    ensures Basename(path) == last[..k]
  {
  }

  // ---------------------------------------------------------------------------------------
  // standard_basename and index

  /** `/\A\d+_/ =~ name`. Giving back digits cannot help `_` match, so the digit run is maximal. */
  predicate StartsWithIndex(s: string)
  {
    var d := SkipDigits(s, 0);
    0 < d < |s| && s[d] == '_'
  }

  lemma SkipDigitsOfNumberPrefix(n: nat, rest: string)
    requires rest != [] && !IsDigit(rest[0])
    ensures SkipDigits(NatToString(n) + rest, 0) == |NatToString(n)|
  {
    var s := NatToString(n) + rest;
    assert forall k :: 0 <= k < |NatToString(n)| ==> IsDigit(s[k]);
    assert !IsDigit(s[|NatToString(n)|]);
  }

  /** Prefixing a number and '_' to a name: the digit run is the number, and the name follows it. */
  lemma IndexPrefix(n: nat, name: string)
    ensures var s := NatToString(n) + "_" + name;
      SkipDigits(s, 0) == |NatToString(n)| && StartsWithIndex(s) && s[|NatToString(n)| + 1..] == name
  {
    var s := NatToString(n) + "_" + name;
    assert s == NatToString(n) + ("_" + name);
    SkipDigitsOfNumberPrefix(n, "_" + name);
  }

  /** The name the guide is standardized to before an index is prefixed. */
  function StandardName(g: Guide): string
  {
    Standardize(Basename(g.path))
  }

  /**
   * `Guide#standard_basename`: the standardized basename, prefixed with
   * "<default index>_" unless it already starts with digits followed by '_'.
   */
  function StandardBasename(di: nat, g: Guide): (r: string)
    ensures StartsWithIndex(r)
    ensures IsStandard(r)
    ensures StartsWithIndex(StandardName(g)) ==> r == StandardName(g)
    ensures !StartsWithIndex(StandardName(g)) ==> r == NatToString(di) + "_" + StandardName(g)
  {
    var name := StandardName(g);
    StandardizeIsStandard(Basename(g.path));
    if StartsWithIndex(name) then name
    else
      IndexPrefix(di, name);
      PrefixedNameIsStandard(di, name);
      NatToString(di) + "_" + name
  }

  /** Digits and '_' are standard characters, so an index prefix keeps a name standard. */
  lemma PrefixedNameIsStandard(n: nat, name: string)
    requires IsStandard(name)
    ensures IsStandard(NatToString(n) + "_" + name)
  {
    var digits := NatToString(n);
    var s := digits + "_" + name;
    forall c | c in s ensures !IsSpace(c) && c != '-' && !IsUpper(c) {
      var j :| 0 <= j < |s| && s[j] == c;
      if j < |digits| {
        assert IsDigit(digits[j]);
      } else if j > |digits| {
        assert c == name[j - |digits| - 1] && name[j - |digits| - 1] in name;
      }
    }
  }

  /** The standard basename is already standardized. */
  lemma StandardBasenameIsFixpoint(di: nat, g: Guide)
    ensures Standardize(StandardBasename(di, g)) == StandardBasename(di, g)
  {
    StandardizeKeepsStandard(StandardBasename(di, g));
  }

  lemma DigitRunIsDigits(s: string)
    ensures AllDigits(s[..SkipDigits(s, 0)])
  {
  }

  /** The leading digit run of the standard basename. */
  function IndexDigits(di: nat, g: Guide): (r: string)
    ensures |r| > 0 && AllDigits(r)
  {
    var sb := StandardBasename(di, g);
    DigitRunIsDigits(sb);
    sb[..SkipDigits(sb, 0)]
  }

  /** `Guide#index`: the integer value of the leading digits of the standard basename. */
  function Index(di: nat, g: Guide): nat
  {
    DigitsValue(IndexDigits(di, g))
  }

  /** A guide whose name carries no index gets the default index. */
  lemma IndexOfUnindexedName(di: nat, g: Guide)
    requires !StartsWithIndex(StandardName(g))
    ensures Index(di, g) == di
  {
    IndexPrefix(di, StandardName(g));
    assert IndexDigits(di, g) == NatToString(di);
    DigitsValueOfNatToString(di);
  }

  /** A guide whose name carries an index gets the value of its digits; the default is ignored. */
  lemma IndexOfIndexedName(di: nat, g: Guide)
    requires StartsWithIndex(StandardName(g))
    ensures var name := StandardName(g);
      Index(di, g) == DigitsValue(name[..SkipDigits(name, 0)])
  {
  }

  lemma LeadingZeroRun(b: string)
    requires StartsWithIndex(b)
    ensures var a := "0" + b;
      StartsWithIndex(a) && SkipDigits(a, 0) == SkipDigits(b, 0) + 1 &&
      a[..SkipDigits(a, 0)] == "0" + b[..SkipDigits(b, 0)]
  {
    var a := "0" + b;
    var d := SkipDigits(b, 0);
    forall k | 0 <= k < d + 1 ensures IsDigit(a[k]) {
      if k > 0 { assert a[k] == b[k - 1]; }
    }
    assert a[d + 1] == b[d];
  }

  /** Leading zeros of the index are ignored: "007_setup.md" and "7_setup.md" have the same index. */
  lemma IndexIgnoresLeadingZero(di: nat, g: Guide, h: Guide)
    requires StartsWithIndex(StandardName(h))
    requires StandardName(g) == "0" + StandardName(h)
    ensures Index(di, g) == Index(di, h)
  {
    var b := StandardName(h);
    LeadingZeroRun(b);
    DigitRunIsDigits(b);
    DigitsValueLeadingZero(b[..SkipDigits(b, 0)]);
  }

  // ---------------------------------------------------------------------------------------
  // parts and humanized_name

  lemma {:induction false} FieldsHead(s: string, seps: set<char>, d: nat)
    requires d < |s| && s[d] in seps
    requires forall k :: 0 <= k < d ==> s[k] !in seps
    ensures Fields(s, seps)[0] == s[..d]
    ensures Fields(s, seps)[1..] == Fields(s[d + 1..], seps)
  {
    if d > 0 {
      FieldsHead(s[1..], seps, d - 1);
      assert s[1..][d..] == s[d + 1..];
      assert [s[0]] + s[1..][..d - 1] == s[..d];
    }
  }

  lemma {:induction false} DropTrailingEmptyCons(x: string, fs: seq<string>)
    requires x != ""
    ensures DropTrailingEmpty([x] + fs) == [x] + DropTrailingEmpty(fs)
    decreases |fs|
  {
    if |fs| > 0 && fs[|fs| - 1] == "" {
      assert ([x] + fs)[..|[x] + fs| - 1] == [x] + fs[..|fs| - 1];
      DropTrailingEmptyCons(x, fs[..|fs| - 1]);
    }
  }

  /** The standard basename splits into its index digits followed by the words after them. */
  lemma SplitStandardBasename(di: nat, g: Guide)
    ensures var sb := StandardBasename(di, g);
      var d := SkipDigits(sb, 0);
      Split(sb, {'_'}) == [sb[..d]] + Split(sb[d + 1..], {'_'})
  {
    var sb := StandardBasename(di, g);
    var d := SkipDigits(sb, 0);
    FieldsHead(sb, {'_'}, d);
    var fs := Fields(sb, {'_'});
    assert fs == [fs[0]] + fs[1..];
    DropTrailingEmptyCons(sb[..d], fs[1..]);
  }

  /**
   * `Guide#parts`, which guide.rb does not define: the standard basename split on '_'
   * without its first token, the same way `humanized_name` splits it.
   */
  function Parts(di: nat, g: Guide): seq<string>
  {
    var sb := StandardBasename(di, g);
    SplitStandardBasename(di, g);
    Split(sb, {'_'})[1..]
  }

  /** The parts are the words that follow the index digits and their '_'. */
  lemma PartsFollowIndex(di: nat, g: Guide)
    ensures var sb := StandardBasename(di, g);
      Parts(di, g) == Split(sb[SkipDigits(sb, 0) + 1..], {'_'})
  {
    SplitStandardBasename(di, g);
  }

  /** Of a guide whose name carries no index, the parts are its standardized name split on '_'. */
  lemma PartsOfUnindexedName(di: nat, g: Guide)
    requires !StartsWithIndex(StandardName(g))
    ensures Parts(di, g) == Split(StandardName(g), {'_'})
  {
    IndexPrefix(di, StandardName(g));
    PartsFollowIndex(di, g);
  }

  /**
   * A guide file `<dir>/<name>.<ext>` whose name is already standard and carries its index:
   * the standard basename is the name itself, and the parts are the words after the index.
   */
  lemma NamedGuideFile(di: nat, g: Guide, dir: string, name: string, ext: string)
    requires g.path == dir + name + "." + ext
    requires dir == [] || dir[|dir| - 1] == '/'
    requires name != [] && name[0] != '.' && '/' !in name
    requires '/' !in ext && '.' !in ext
    requires IsStandard(name) && StartsWithIndex(name)
    ensures StandardName(g) == name && StandardBasename(di, g) == name
    ensures Index(di, g) == DigitsValue(name[..SkipDigits(name, 0)])
    ensures Parts(di, g) == Split(name[SkipDigits(name, 0) + 1..], {'_'})
  {
    BasenameDropsExtension(dir, name, ext);
    StandardizeKeepsStandard(name);
    PartsFollowIndex(di, g);
  }

  /** "01_setup" is a standard name with index digits "01" followed by the word "setup". */
  lemma SetupName(name: string)
    requires name == "01_setup"
    ensures name != [] && name[0] != '.' && '/' !in name
    ensures IsStandard(name) && StartsWithIndex(name)
    ensures SkipDigits(name, 0) == 2 && name[..2] == "01" && name[3..] == "setup"
  {
    forall c | c in name ensures c != '/' && !IsSpace(c) && c != '-' && !IsUpper(c) {
      assert c in "01_setup";
    }
    assert IsDigit(name[0]) && IsDigit(name[1]) && !IsDigit(name[2]);
    assert SkipDigits(name, 0) == 2;
  }

  /** The word "setup" splits into itself and capitalizes to "Setup". */
  lemma SetupWord(w: string)
    requires w == "setup"
    ensures Split(w, {'_'}) == [w] && Capitalize(w) == "Setup"
  {
    forall c | c in w ensures c !in {'_'} {
      assert c in "setup";
    }
    SplitWithoutSeparator(w, {'_'});
  }

  /** The guide `01_setup.md` has index 1, the parts ["setup"] and the title "Setup". */
  lemma SetupGuide(di: nat, g: Guide, dir: string, name: string, ext: string)
    requires g.path == dir + name + "." + ext
    requires dir == [] || dir[|dir| - 1] == '/'
    requires name == "01_setup" && ext == "md"
    ensures StandardBasename(di, g) == "01_setup"
    ensures Index(di, g) == 1
    ensures Parts(di, g) == ["setup"]
    ensures HumanizedName(di, g) == "Setup"
  {
    SetupName(name);
    forall c | c in ext ensures c != '/' && c != '.' {
      assert c == 'm' || c == 'd';
    }
    NamedGuideFile(di, g, dir, name, ext);
    assert DigitsValue("01"[..1]) == 0;
    SetupWord(name[3..]);
  }

  function CapitalizeAll(ws: seq<string>): (r: seq<string>)
    ensures |r| == |ws|
    ensures forall k :: 0 <= k < |ws| ==> r[k] == Capitalize(ws[k])
  {
    if ws == [] then [] else [Capitalize(ws[0])] + CapitalizeAll(ws[1..])
  }

  /** `Guide#humanized_name`: the parts, each capitalized, joined with single spaces. */
  function HumanizedName(di: nat, g: Guide): string
  {
    Join(" ", CapitalizeAll(Parts(di, g)))
  }

  lemma {:induction false} StandardizeJoinSpaces(ws: seq<string>)
    ensures Standardize(Join(" ", ws)) == Join("_", StandardizeAll(ws))
  {
    if |ws| > 1 {
      StandardizeJoinSpaces(ws[1..]);
      StandardizeConcat(ws[0] + " ", Join(" ", ws[1..]));
      StandardizeConcat(ws[0], " ");
    }
  }

  function StandardizeAll(ws: seq<string>): (r: seq<string>)
    ensures |r| == |ws|
    ensures forall k :: 0 <= k < |ws| ==> r[k] == Standardize(ws[k])
  {
    if ws == [] then [] else [Standardize(ws[0])] + StandardizeAll(ws[1..])
  }

  lemma StandardizeCapitalized(w: string)
    requires IsStandard(w)
    ensures Standardize(Capitalize(w)) == w
  {
    assert forall i :: 0 <= i < |w| ==> Standardize(Capitalize(w))[i] == w[i];
  }

  lemma SplitKeepsStandard(s: string)
    requires IsStandard(s)
    ensures forall k :: 0 <= k < |Split(s, {'_'})| ==> IsStandard(Split(s, {'_'})[k])
  {
    SplitAvoids(s, {'_'});
  }

  lemma PartsAreStandard(di: nat, g: Guide)
    ensures forall k :: 0 <= k < |Parts(di, g)| ==> IsStandard(Parts(di, g)[k])
  {
    var sb := StandardBasename(di, g);
    SplitKeepsStandard(sb);
    SplitStandardBasename(di, g);
    var all := Split(sb, {'_'});
    assert Parts(di, g) == all[1..];
  }

  /**
   * The title and the verbose name show the same words: standardizing the humanized
   * name gives back the parts joined with '_'.
   */
  lemma HumanizedNameStandardizesToParts(di: nat, g: Guide)
    ensures Standardize(HumanizedName(di, g)) == Join("_", Parts(di, g))
  {
    var ps := Parts(di, g);
    StandardizeJoinSpaces(CapitalizeAll(ps));
    PartsAreStandard(di, g);
    forall k | 0 <= k < |ps| ensures StandardizeAll(CapitalizeAll(ps))[k] == ps[k] {
      StandardizeCapitalized(ps[k]);
    }
    assert StandardizeAll(CapitalizeAll(ps)) == ps;
  }

  // ---------------------------------------------------------------------------------------
  // =~

  /** `guide =~ input`: `input` occurs in the standard basename. */
  function MatchesInput(di: nat, g: Guide, input: string): (r: bool)
    ensures r <==> exists i :: OccursAt(StandardBasename(di, g), input, i)
  {
    ContainsAt(StandardBasename(di, g), input);
    Contains(StandardBasename(di, g), input)
  }
}

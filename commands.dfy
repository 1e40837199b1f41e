/**
 * Command lookup of lib/flight-howto/commands.rb: a command name such as "list" or
 * "show-guide" is turned into a constant name ("List", "ShowGuide"), the command files
 * register their constants at load time, and `build` looks a name up among them.
 * Ruby's constant table is not part of this model; the defined names are a set.
 */
module Commands {
  import opened Wrappers
  import opened Strings
  import opened Errors
  import opened Guides

  /** The character class `/[-_]/`. */
  const Separators: set<char> := {'-', '_'}

  /** `c[0] = c[0].upcase` on a non-empty segment: only the first character changes. */
  function UpcaseFirst(w: string): (r: string)
    ensures |r| == |w|
    ensures |w| > 0 ==> r[0] == Upper(w[0]) && r[1..] == w[1..]
  {
    if w == [] then [] else [Upper(w[0])] + w[1..]
  }

  function UpcaseFirstAll(ws: seq<string>): (r: seq<string>)
    ensures |r| == |ws|
    ensures forall k :: 0 <= k < |ws| ==> r[k] == UpcaseFirst(ws[k])
  {
    if ws == [] then [] else [UpcaseFirst(ws[0])] + UpcaseFirstAll(ws[1..])
  }

  /**
   * What `constantize` gives: the segments of the name between '-' and '_' (trailing empty
   * ones dropped by `split`), each with its first character upper-cased, joined with nothing.
   * An empty segment that is kept makes `c[0]` nil, and `nil.upcase` raises: that is `None`.
   */
  function Constantized(s: string): Option<string>
  {
    JoinSegments(Split(s, Separators))
  }

  /** The segments upper-cased and joined, or `None` when one of them is empty. */
  function JoinSegments(segs: seq<string>): Option<string>
  {
    if "" in segs then None else Some(Join("", UpcaseFirstAll(segs)))
  }

  /** `Commands.constantize`: the split, then the `each` loop and the join. */
  method Constantize(s: string) returns (r: Option<string>)
    ensures r == Constantized(s)
  {
    r := UpcaseEach(Split(s, Separators));
  }

  /**
   * The `each` block of `constantize`, upper-casing the first character of every segment in
   * place, then the `join`; the first empty segment stops it with `None`.
   */
  method UpcaseEach(original: seq<string>) returns (r: Option<string>)
    ensures r == JoinSegments(original)
  {
    var segs := original;
    var i := 0;
    while i < |segs|
      invariant 0 <= i <= |segs| == |original|
      invariant forall k :: 0 <= k < i ==> original[k] != "" && segs[k] == UpcaseFirst(original[k])
      invariant forall k :: i <= k < |segs| ==> segs[k] == original[k]
    {
      if segs[i] == "" {
        assert original[i] in original;
        return None;
      }
      segs := segs[i := [Upper(segs[i][0])] + segs[i][1..]];
      i := i + 1;
    }
    UpcasedSegmentsJoin(original, segs);
    r := Some(Join("", segs));
  }

  /** Segments all non-empty and all upper-cased in place join to what `JoinSegments` gives. */
  lemma UpcasedSegmentsJoin(original: seq<string>, segs: seq<string>)
    requires |segs| == |original|
    requires forall k :: 0 <= k < |original| ==> original[k] != "" && segs[k] == UpcaseFirst(original[k])
    ensures JoinSegments(original) == Some(Join("", segs))
  {
    assert segs == UpcaseFirstAll(original);
    assert "" !in original by {
      forall k | 0 <= k < |original| ensures original[k] != "" { }
    }
  }

  // ---------------------------------------------------------------------------------------
  // Properties of constantize

  lemma {:induction false} JoinNothingMembers(ws: seq<string>, c: char)
    requires c in Join("", ws)
    ensures exists k :: 0 <= k < |ws| && c in ws[k]
  {
    if |ws| > 1 {
      assert Join("", ws) == ws[0] + Join("", ws[1..]);
      if c !in ws[0] {
        JoinNothingMembers(ws[1..], c);
        var k :| 0 <= k < |ws[1..]| && c in ws[1..][k];
        assert c in ws[k + 1];
      }
    } else {
      assert c in ws[0];
    }
  }

  /** A constant name holds neither '-' nor '_'. */
  lemma ConstantizedHasNoSeparators(s: string)
    requires Constantized(s).Some?
    ensures forall c :: c in Constantized(s).value ==> c !in Separators
  {
    SplitAvoids(s, Separators);
    JoinSegmentsAvoids(Split(s, Separators));
  }

  /** Upper-casing and joining segments without separators brings in no separator. */
  lemma JoinSegmentsAvoids(segs: seq<string>)
    requires forall k, c :: 0 <= k < |segs| && c in segs[k] ==> c !in Separators
    requires JoinSegments(segs).Some?
    ensures forall c :: c in JoinSegments(segs).value ==> c !in Separators
  {
    var ups := UpcaseFirstAll(segs);
    forall c | c in JoinSegments(segs).value ensures c !in Separators {
      JoinNothingMembers(ups, c);
      var k :| 0 <= k < |ups| && c in ups[k];
      assert segs[k] != "" by { assert segs[k] in segs; }
      UpcaseFirstAvoids(segs[k]);
    }
  }

  lemma UpcaseFirstAvoids(w: string)
    requires w != "" && forall c :: c in w ==> c !in Separators
    ensures forall c :: c in UpcaseFirst(w) ==> c !in Separators
  {
    var u := UpcaseFirst(w);
    forall c | c in u ensures c !in Separators {
      var j :| 0 <= j < |u| && u[j] == c;
      if j == 0 {
        assert w[0] in w;
      } else {
        assert c == w[j] && w[j] in w;
      }
    }
  }

  lemma {:induction false} JoinNothingSingle(w: string)
    ensures Join("", [w]) == w
  {
  }

  /** A name already in constant form is its own constant name. */
  lemma ConstantizeIdempotent(s: string)
    requires Constantized(s).Some?
    ensures Constantized(Constantized(s).value) == Constantized(s)
  {
    var n := Constantized(s).value;
    ConstantizedHasNoSeparators(s);
    SplitWithoutSeparator(n, Separators);
    if n != [] {
      assert Split(n, Separators) == [n];
      assert UpcaseFirst(n) == n by {
        assert n == [n[0]] + n[1..];
        assert n[0] in n;
        ConstantStartsUpcased(s);
      }
      assert UpcaseFirstAll([n]) == [n];
      JoinNothingSingle(n);
    } else {
      assert Split(n, Separators) == [];
    }
  }

  /** The first character of a constant name has been upper-cased, so no lower-case letter starts it. */
  lemma ConstantStartsUpcased(s: string)
    requires Constantized(s).Some? && Constantized(s).value != []
    ensures !IsLower(Constantized(s).value[0])
  {
    JoinSegmentsStartsUpcased(Split(s, Separators));
  }

  lemma JoinSegmentsStartsUpcased(segs: seq<string>)
    requires JoinSegments(segs).Some? && JoinSegments(segs).value != []
    ensures JoinSegments(segs).value[0] == Upper(segs[0][0])
  {
    var ups := UpcaseFirstAll(segs);
    assert |segs| > 0;
    assert segs[0] != "" by { assert segs[0] in segs; }
    if |ups| > 1 {
      assert Join("", ups) == ups[0] + Join("", ups[1..]);
    }
    assert Join("", ups)[0] == ups[0][0];
  }

  lemma {:induction false} FieldsSnocSeparator(s: string, c: char)
    requires c in Separators
    ensures Fields(s + [c], Separators) == Fields(s, Separators) + [""]
  {
    if s == [] {
      assert [c][1..] == [];
    } else {
      assert (s + [c])[1..] == s[1..] + [c];
      FieldsSnocSeparator(s[1..], c);
    }
  }

  /** A trailing separator is dropped by `split`, so "list_" names the same command as "list". */
  lemma TrailingSeparatorIgnored(s: string, c: char)
    requires c in Separators
    ensures Constantized(s + [c]) == Constantized(s)
  {
    FieldsSnocSeparator(s, c);
    var fs := Fields(s, Separators);
    assert (fs + [""])[..|fs + [""]| - 1] == fs;
  }

  lemma {:induction false} JoinNothingCons(x: string, ws: seq<string>)
    ensures Join("", [x] + ws) == x + Join("", ws)
  {
    if ws == [] {
      assert x + "" == x;
    } else {
      assert ([x] + ws)[1..] == ws;
    }
  }

  /** A word without separators gets a capital on its first character and nothing else. */
  lemma ConstantizeWord(w: string)
    requires w != "" && forall c :: c in w ==> c !in Separators
    ensures Constantized(w) == Some(UpcaseFirst(w))
  {
    SplitWithoutSeparator(w, Separators);
    assert UpcaseFirstAll([w]) == [UpcaseFirst(w)];
  }

  /**
   * A leading word and its separator contribute the capitalized word, in front of what the
   * rest of the name gives; a rest that raises makes the whole name raise.
   */
  lemma ConstantizeSegment(a: string, c: char, b: string)
    requires a != "" && forall x :: x in a ==> x !in Separators
    requires c in Separators
    ensures Constantized(a + [c] + b) ==
      if Constantized(b).Some? then Some(UpcaseFirst(a) + Constantized(b).value) else None
  {
    var s := a + [c] + b;
    assert s[|a|] == c && s[..|a|] == a && s[|a| + 1..] == b;
    assert forall k :: 0 <= k < |a| ==> s[k] in a;
    FieldsHead(s, Separators, |a|);
    var fs := Fields(s, Separators);
    assert fs == [a] + Fields(b, Separators);
    DropTrailingEmptyCons(a, Fields(b, Separators));
    var rest := Split(b, Separators);
    assert Split(s, Separators) == [a] + rest;
    assert "" in [a] + rest <==> "" in rest;
    assert UpcaseFirstAll([a] + rest) == [UpcaseFirst(a)] + UpcaseFirstAll(rest);
    JoinNothingCons(UpcaseFirst(a), UpcaseFirstAll(rest));
  }

  lemma {:induction false} DropTrailingEmptyLeadingEmpty(fs: seq<string>)
    ensures DropTrailingEmpty([""] + fs) ==
      if DropTrailingEmpty(fs) == [] then [] else [""] + DropTrailingEmpty(fs)
    decreases |fs|
  {
    if |fs| > 0 && fs[|fs| - 1] == "" {
      assert ([""] + fs)[..|[""] + fs| - 1] == [""] + fs[..|fs| - 1];
      DropTrailingEmptyLeadingEmpty(fs[..|fs| - 1]);
    } else if |fs| == 0 {
      assert ([""] + fs)[..0] == [];
    }
  }

  /** Only names made of nothing but separators give the empty constant name. */
  lemma ConstantizedEmpty(s: string)
    ensures Constantized(s) == Some("") <==> Split(s, Separators) == []
  {
    JoinSegmentsEmpty(Split(s, Separators));
  }

  lemma JoinSegmentsEmpty(segs: seq<string>)
    ensures JoinSegments(segs) == Some("") <==> segs == []
  {
    if segs != [] && "" !in segs {
      var ups := UpcaseFirstAll(segs);
      assert segs[0] in segs;
      assert ups == [ups[0]] + ups[1..];
      JoinNothingCons(ups[0], ups[1..]);
    }
  }

  /**
   * A leading separator gives an empty first segment, which makes `constantize` raise
   * unless nothing but separators follows.
   */
  lemma ConstantizeLeadingSeparator(c: char, b: string)
    requires c in Separators
    ensures Constantized([c] + b) == if Constantized(b) == Some("") then Some("") else None
  {
    var s := [c] + b;
    assert s[1..] == b;
    assert Fields(s, Separators) == [""] + Fields(b, Separators);
    DropTrailingEmptyLeadingEmpty(Fields(b, Separators));
    ConstantizedEmpty(b);
    ConstantizedEmpty(s);
  }

  /** "list", "list_" and "_list" as `constantize` treats them. */
  lemma ConstantizeListExample(w: string)
    requires w == "list"
    ensures Constantized(w) == Some("List")
    ensures Constantized(w + "_") == Some("List")
    ensures Constantized("_" + w) == None
  {
    ConstantizeList(w);
    assert w + "_" == w + ['_'];
    TrailingSeparatorIgnored(w, '_');
    assert "_" + w == ['_'] + w;
    ConstantizeLeadingSeparator('_', w);
  }

  lemma ConstantizeList(w: string)
    requires w == "list"
    ensures Constantized(w) == Some("List")
  {
    ListHasNoSeparators(w);
    ConstantizeCons(w, 'l', "ist");
    assert [Upper('l')] + "ist" == "List";
  }

  lemma ListHasNoSeparators(w: string)
    requires w == "list"
    ensures forall c :: c in w ==> c !in Separators
  {
    forall c | c in w ensures c !in Separators {
      var j :| 0 <= j < |w| && w[j] == c;
      assert c == 'l' || c == 'i' || c == 's' || c == 't';
    }
  }

  /** A word without separators, as its first character and the rest. */
  lemma ConstantizeCons(w: string, c: char, rest: string)
    requires w == [c] + rest && forall x :: x in w ==> x !in Separators
    ensures Constantized(w) == Some([Upper(c)] + rest)
  {
    ConstantizeWord(w);
  }

  // ---------------------------------------------------------------------------------------
  // The registry and build

  /** A name Ruby accepts as a constant: an upper-case letter, then word characters. */
  predicate IsConstantName(n: string)
  {
    |n| > 0 && IsUpper(n[0]) && forall k :: 0 <= k < |n| ==> IsWordChar(n[k])
  }

  /** The constant a command file registers: the constantized file name without extension. */
  function CommandName(path: string): Option<string>
  {
    Constantized(Basename(path))
  }

  /** A name `autoload` accepts: `constantize` gave one, and it is a constant name. */
  predicate Acceptable(name: Option<string>)
  {
    name.Some? && IsConstantName(name.value)
  }

  /**
   * A command file `<dir>/<name>.<ext>` whose name has no separator, slash or dot registers
   * the name with its first letter upper-cased.
   */
  lemma CommandNameOfFile(dir: string, name: string, ext: string)
    requires dir == [] || dir[|dir| - 1] == '/'
    requires name != [] && '/' !in name && '.' !in name
    requires forall c :: c in name ==> c !in Separators
    requires '/' !in ext && '.' !in ext
    ensures CommandName(dir + name + "." + ext) == Some(UpcaseFirst(name))
  {
    assert name[0] in name;
    BasenameDropsExtension(dir, name, ext);
    ConstantizeWord(name);
  }

  /** "show" is a plain word that constantizes to "Show", a constant name. */
  lemma ShowIsPlainWord(name: string)
    requires name == "show"
    ensures name != [] && '/' !in name && '.' !in name
    ensures forall c :: c in name ==> c !in Separators
    ensures UpcaseFirst(name) == "Show" && IsConstantName("Show")
  {
    forall c | c in name ensures c != '/' && c != '.' && c !in Separators {
      assert c == 's' || c == 'h' || c == 'o' || c == 'w';
    }
    assert forall k :: 0 <= k < 4 ==> IsWordChar("Show"[k]);
  }

  /** `commands/show.rb` registers `Show`. */
  lemma ShowFileRegistersShow(dir: string, name: string, ext: string)
    requires dir == [] || dir[|dir| - 1] == '/'
    requires name == "show" && ext == "rb"
    ensures CommandName(dir + name + "." + ext) == Some("Show")
    ensures Registrable(dir + name + "." + ext)
  {
    ShowIsPlainWord(name);
    forall c | c in ext ensures c != '/' && c != '.' {
      assert c == 'r' || c == 'b';
    }
    CommandNameOfFile(dir, name, ext);
  }

  /** `build("show")` finds the `Show` command once it is registered. */
  lemma BuildShow(name: string)
    requires name == "show"
    ensures Build(name, {"Show"}) == Success("Show")
  {
    ShowIsPlainWord(name);
    ConstantizeWord(name);
  }

  /** A command file `autoload` accepts. */
  predicate Registrable(path: string)
  {
    Acceptable(CommandName(path))
  }

  /**
   * The names the `Dir.glob(...).each { autoload ... }` loop registers, or `None` when loading
   * raises: `constantize` or `autoload` raises on a file whose name is not a constant name.
   */
  function Registry(paths: seq<string>): Option<set<string>>
  {
    RegistryOf(paths, CommandName)
  }

  /** The registry for any naming of the files: the names in turn, `None` at an unacceptable one. */
  function RegistryOf(paths: seq<string>, name: string -> Option<string>): Option<set<string>>
  {
    if paths == [] then Some({})
    else if !Acceptable(name(paths[0])) then None
    else
      var rest := RegistryOf(paths[1..], name);
      if rest.None? then None else Some({name(paths[0]).value} + rest.value)
  }

  lemma {:induction false} RegistryOfSpec(paths: seq<string>, name: string -> Option<string>)
    ensures RegistryOf(paths, name).None? <==> exists k :: 0 <= k < |paths| && !Acceptable(name(paths[k]))
    ensures RegistryOf(paths, name).Some? ==> forall n :: n in RegistryOf(paths, name).value <==>
                                                exists k :: 0 <= k < |paths| && name(paths[k]) == Some(n)
  {
    if paths != [] {
      var rest := paths[1..];
      RegistryOfSpec(rest, name);
      assert forall k :: 0 <= k < |rest| ==> rest[k] == paths[k + 1];
      var r := RegistryOf(paths, name);
      if r.Some? {
        forall n | n in r.value
          ensures exists k :: 0 <= k < |paths| && name(paths[k]) == Some(n)
        {
          if n != name(paths[0]).value {
            var k :| 0 <= k < |rest| && name(rest[k]) == Some(n);
            assert name(paths[k + 1]) == Some(n);
          }
        }
        forall n | exists k :: 0 <= k < |paths| && name(paths[k]) == Some(n)
          ensures n in r.value
        {
          var k :| 0 <= k < |paths| && name(paths[k]) == Some(n);
          if k > 0 {
            assert name(rest[k - 1]) == Some(n);
          }
        }
      } else if Acceptable(name(paths[0])) {
        var k :| 0 <= k < |rest| && !Acceptable(name(rest[k]));
        assert !Acceptable(name(paths[k + 1]));
      }
    }
  }

  /**
   * Loading fails exactly when some command file is not registrable; otherwise the registered
   * names are exactly the command names of the files.
   */
  lemma RegistrySpec(paths: seq<string>)
    ensures Registry(paths).None? <==> exists k :: 0 <= k < |paths| && !Registrable(paths[k])
    ensures Registry(paths).Some? ==> forall n :: n in Registry(paths).value <==>
                                        exists k :: 0 <= k < |paths| && CommandName(paths[k]) == Some(n)
  {
    RegistryOfSpec(paths, CommandName);
  }

  /** Registering one more file after a prefix: its name joins the set, or loading raises. */
  lemma {:induction false} RegistryOfSnoc(ps: seq<string>, p: string, name: string -> Option<string>)
    ensures RegistryOf(ps + [p], name) ==
      if RegistryOf(ps, name).None? || !Acceptable(name(p)) then None
      else Some(RegistryOf(ps, name).value + {name(p).value})
  {
    if ps == [] {
      assert ps + [p] == [p] && [p][1..] == [];
      if Acceptable(name(p)) {
        var b := name(p).value;
        assert RegistryOf([p], name) == Some({b} + {});
        assert {b} + {} == {} + {b};
      }
    } else {
      var q := ps + [p];
      assert q[0] == ps[0];
      assert q[1..] == ps[1..] + [p];
      RegistryOfSnoc(ps[1..], p, name);
      var tail := RegistryOf(ps[1..], name);
      if Acceptable(name(ps[0])) && tail.Some? && Acceptable(name(p)) {
        var a := name(ps[0]).value;
        var b := name(p).value;
        assert RegistryOf(q, name) == Some({a} + (tail.value + {b}));
        assert {a} + (tail.value + {b}) == ({a} + tail.value) + {b};
      }
    }
  }

  /** One file whose name is not a constant name makes loading raise. */
  lemma UnregistrableFileFails(paths: seq<string>, i: nat)
    requires i < |paths| && !Registrable(paths[i])
    ensures Registry(paths) == None
  {
    RegistrySpec(paths);
  }

  lemma PrefixWhole(paths: seq<string>)
    ensures paths[..|paths|] == paths
  {
  }

  lemma PrefixSnoc(paths: seq<string>, i: nat)
    requires i < |paths|
    ensures paths[..i + 1] == paths[..i] + [paths[i]]
  {
  }

  /** One more acceptable file after the first `i`: its name joins the registered ones. */
  lemma RegisterStep(paths: seq<string>, i: nat, names: set<string>)
    requires i < |paths| && Registrable(paths[i])
    requires Registry(paths[..i]) == Some(names)
    ensures Registry(paths[..i + 1]) == Some(names + {CommandName(paths[i]).value})
  {
    PrefixSnoc(paths, i);
    RegistryOfSnoc(paths[..i], paths[i], CommandName);
  }

  /** The body of the loop: `autoload constantize(File.basename(file, '.*')), file`. */
  method Autoload(path: string, names: set<string>) returns (r: Option<set<string>>)
    ensures r == if Registrable(path) then Some(names + {CommandName(path).value}) else None
  {
    var name := Constantize(Basename(path));
    if name.None? || !IsConstantName(name.value) {
      return None;
    }
    return Some(names + {name.value});
  }

  /** The load-time loop over the command files, first to last as `each` runs. */
  method Register(paths: seq<string>) returns (defined: Option<set<string>>)
    ensures defined == Registry(paths)
  {
    var names: set<string> := {};
    var i := 0;
    while i < |paths|
      invariant 0 <= i <= |paths|
      invariant Registry(paths[..i]) == Some(names)
    {
      var next := Autoload(paths[i], names);
      if next.None? {
        UnregistrableFileFails(paths, i);
        return None;
      }
      RegisterStep(paths, i, names);
      names := next.value;
      i := i + 1;
    }
    PrefixWhole(paths);
    defined := Some(names);
  }

  const CommandNotFound := "Command Not Found!"

  /**
   * `Commands.build(s)`: the command whose constant `constantize(s)` names. The class itself
   * stands for its instance. A NameError (an empty segment, a string `const_get` refuses as a
   * constant name, or no such constant) becomes an `InternalError`, exit code 1.
   */
  function Build(s: string, defined: set<string>): (r: Result<string, Error>)
    ensures r.Success? <==> Constantized(s).Some? && IsConstantName(Constantized(s).value) &&
                            Constantized(s).value in defined
    ensures r.Success? ==> r.value == Constantized(s).value
    ensures r.Failure? ==> r.error == Error(InternalError, CommandNotFound) && r.error.ExitCode() == 1
  {
    match Constantized(s)
    case Some(n) =>
      if IsConstantName(n) && n in defined then Success(n)
      else Failure(Error(InternalError, CommandNotFound))
    case None => Failure(Error(InternalError, CommandNotFound))
  }

  /** Every command file can be built by its own file name. */
  lemma EveryCommandFileBuilds(paths: seq<string>, k: nat)
    requires k < |paths| && Registry(paths).Some?
    ensures CommandName(paths[k]).Some?
    ensures Build(Basename(paths[k]), Registry(paths).value) == Success(CommandName(paths[k]).value)
  {
    RegistrySpec(paths);
    assert Registrable(paths[k]);
  }

  /** Every registered name builds its own command: constant names are their own constant form. */
  lemma RegisteredNameBuilds(paths: seq<string>, n: string)
    requires Registry(paths).Some? && n in Registry(paths).value
    ensures Build(n, Registry(paths).value) == Success(n)
  {
    RegistrySpec(paths);
    var k :| 0 <= k < |paths| && CommandName(paths[k]) == Some(n);
    ConstantizeIdempotent(Basename(paths[k]));
  }
}

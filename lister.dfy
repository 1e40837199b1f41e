/**
 * The guide table of lib/flight-howto/lister.rb: the Index and Name columns of a guide, and
 * the options `build_output` hands to the table renderer. The renderer itself (OutputMode)
 * is not part of this model; the options it is given are.
 */
module Lister {
  import opened Strings
  import opened Guides

  datatype Color = Clear | Yellow | Cyan

  /**
   * The options `build_output` passes on: the two colours and the boolean settings. A setting
   * that is absent is left to the renderer's own default.
   */
  datatype OutputOptions = OutputOptions(headerColor: Color, rowColor: Color, settings: map<string, bool>)

  /** What the renderer reads for a setting: explicitly on, explicitly off, or its default. */
  datatype Setting = On | Off | Default

  function SettingOf(o: OutputOptions, key: string): Setting
  {
    if key !in o.settings then Default else if o.settings[key] then On else Off
  }

  /**
   * `Lister.build_output`: the hash of settings filled key by key, a key set only when its
   * flag is given, so a setting is explicitly on or left to the default, never explicitly off.
   * `ascii` turns `interactive` on too.
   */
  method BuildOutput(verbose: bool, ascii: bool, interactive: bool) returns (o: OutputOptions)
    ensures SettingOf(o, "verbose") == (if verbose then On else Default)
    ensures SettingOf(o, "ascii") == (if ascii then On else Default)
    ensures SettingOf(o, "interactive") == (if interactive || ascii then On else Default)
    ensures forall key :: SettingOf(o, key) != Off
    ensures forall key :: key in o.settings ==> key in {"verbose", "ascii", "interactive"}
    ensures o.headerColor == Clear && o.rowColor == Clear
  {
    var settings: map<string, bool> := map[];
    if verbose {
      settings := settings["verbose" := true];
    }
    if ascii {
      settings := settings["ascii" := true];
    }
    if interactive || ascii {
      settings := settings["interactive" := true];
    }
    o := OutputOptions(Clear, Clear, settings);
  }

  /** A cell of the table. */
  datatype Cell = Number(n: nat) | Text(s: string)

  /**
   * The Index and Name cells of a guide's row: the index, then the parts joined with '_' when
   * verbose, the humanized name otherwise. Either way the Name cell names the same words: it
   * standardizes to the parts joined with '_'. (The verbose File column is not modelled.)
   */
  function Row(di: nat, g: Guide, verbose: bool): (r: seq<Cell>)
    ensures |r| == 2 && r[0] == Number(Index(di, g)) && r[1].Text?
    ensures verbose ==> r[1].s == Join("_", Parts(di, g))
    ensures !verbose ==> r[1].s == HumanizedName(di, g)
    ensures Standardize(r[1].s) == Join("_", Parts(di, g))
  {
    HumanizedNameStandardizesToParts(di, g);
    JoinedPartsAreStandard(di, g);
    [Number(Index(di, g)), Text(if verbose then Join("_", Parts(di, g)) else HumanizedName(di, g))]
  }

  lemma {:induction false} JoinStandard(ws: seq<string>)
    requires forall k :: 0 <= k < |ws| ==> IsStandard(ws[k])
    ensures IsStandard(Join("_", ws))
  {
    if |ws| > 1 {
      JoinStandard(ws[1..]);
      assert Join("_", ws) == ws[0] + "_" + Join("_", ws[1..]);
    }
  }

  /** The verbose name is already standard, so standardizing it changes nothing. */
  lemma JoinedPartsAreStandard(di: nat, g: Guide)
    ensures Standardize(Join("_", Parts(di, g))) == Join("_", Parts(di, g))
  {
    PartsAreStandard(di, g);
    JoinStandard(Parts(di, g));
    StandardizeKeepsStandard(Join("_", Parts(di, g)));
  }

  /** The two Name cells of a guide agree: the verbose one is the standardized terse one. */
  lemma NameCellsAgree(di: nat, g: Guide)
    ensures Row(di, g, true)[1].s == Standardize(Row(di, g, false)[1].s)
    ensures Row(di, g, true)[0] == Row(di, g, false)[0]
  {
  }
}

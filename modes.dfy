/** The table of bag modes and `mode_name`, which describes a mode, with the
    option that configures it, for the user. */
module Modes {
  import opened Text
  import opened Wrappers

  /** The bag builders, by mode number. */
  const ModeTable: map<int, string> := map[
    0 := "bag_of_nodes",
    1 := "bag_of_edges",
    2 := "bag_of_weakly_connected_components",
    3 := "bag_of_strongly_connected_components",
    4 := "bag_of_attracting_components",
    5 := "bag_of_neighborhoods",
    6 := "bag_of_reachabilities",
    7 := "bag_of_shortest_paths"
  ]

  /** The command line options `mode_name` reads. */
  datatype Args = Args(size: int, depth: int, maxlen: int)

  /** The option that configures a mode, with its value, if the mode has one:
      `size` for neighborhoods, `depth` for reachabilities, `maxlen` for
      shortest paths. */
  function ModeOption(mode: int, args: Args): (r: Option<(string, int)>)
    ensures r.Some? <==> 5 <= mode <= 7
    ensures mode == 5 ==> r == Some(("size", args.size))
    ensures mode == 6 ==> r == Some(("depth", args.depth))
    ensures mode == 7 ==> r == Some(("maxlen", args.maxlen))
    ensures r.Some? ==> |r.value.0| > 0 && '_' !in r.value.0
  {
    if mode == 5 then Some(("size", args.size))
    else if mode == 6 then Some(("depth", args.depth))
    else if mode == 7 then Some(("maxlen", args.maxlen))
    else None
  }

  /** What `mode_name` appends to the name: ` (option: value)` for a mode
      with an option, nothing otherwise. */
  function OptionSuffix(mode: int, args: Args): (r: string)
    ensures '_' !in r
  {
    match ModeOption(mode, args)
    case None => ""
    case Some((option, value)) =>
      " (" + option + ": " + FormatInt(value) + ")"
  }

  /** `mode_name(mode, args)`. An unknown mode is a failure, where the
      dictionary lookup raises `KeyError`. */
  function ModeName(mode: int, args: Args): (r: Result<string>)
    ensures r.Success? <==> 0 <= mode < 8
    ensures r.Success? ==> '_' !in r.value
  {
    if mode !in ModeTable then Failure("KeyError")
    else
      ReplaceRemoves(ModeTable[mode], '_', ' ');
      Success(Replace(ModeTable[mode], '_', ' ') + OptionSuffix(mode, args))
  }

  /** `s` reads ` (option: value)`. */
  predicate Describes(s: string, option: string, value: int)
  {
    var start := |option| + 4;
    start < |s| && s[..start] == " (" + option + ": " && s[|s| - 1] == ')' && ParseInt(s[start..|s| - 1]) == value
  }

  /** The value written after an option reads back as the value. */
  lemma SuffixReadsBack(option: string, value: int)
    ensures Describes(" (" + option + ": " + FormatInt(value) + ")", option, value)
  {
    var head := " (" + option + ": ";
    var s := head + FormatInt(value) + ")";
    assert s[..|head|] == head;
    assert s[|head|..|s| - 1] == FormatInt(value);
    FormatIntRoundTrip(value);
  }

  /** A description starts with the builder's name, words separated by spaces
      where the name has underscores. A mode without an option is described
      by that alone; a mode with one goes on with ` (option: value)`, and the
      value reads back as the option's. */
  lemma ModeNameParts(mode: int, args: Args)
    requires mode in ModeTable
    ensures var name, d := ModeTable[mode], ModeName(mode, args).value;
      |name| <= |d| && d[..|name|] == Replace(name, '_', ' ') &&
      (ModeOption(mode, args).None? ==> |d| == |name|) &&
      (ModeOption(mode, args).Some? ==> Describes(d[|name|..], ModeOption(mode, args).value.0, ModeOption(mode, args).value.1))
  {
    var name, d := ModeTable[mode], ModeName(mode, args).value;
    var s := Replace(name, '_', ' ');
    assert d == s + OptionSuffix(mode, args);
    assert d[..|name|] == s;
    assert d[|name|..] == OptionSuffix(mode, args);
    if ModeOption(mode, args).Some? {
      SuffixReadsBack(ModeOption(mode, args).value.0, ModeOption(mode, args).value.1);
    }
  }

  /** The table holds modes 0 to 7, each the name of a `bag_of_` builder. */
  lemma ModeTableShape()
    ensures forall m :: m in ModeTable <==> 0 <= m < 8
    ensures forall m :: m in ModeTable ==> |ModeTable[m]| > 7 && ModeTable[m][..7] == "bag_of_"
  {
  }

  /** Each builder's name goes on past `bag_of_` with two characters that
      are not underscores. */
  lemma BuilderNameLength(m: int)
    requires m in ModeTable
    ensures |ModeTable[m]| > 8 && ModeTable[m][7] != '_' && ModeTable[m][8] != '_'
  {
  }

  /** Two builders' names differ in the two characters after `bag_of_`. */
  lemma BuilderNamesDiffer(m1: int, m2: int)
    requires m1 in ModeTable && m2 in ModeTable && m1 != m2
    ensures ModeTable[m1][7] != ModeTable[m2][7] || ModeTable[m1][8] != ModeTable[m2][8]
  {
  }

  /** No two modes are described alike, whatever the options. */
  lemma ModeNamesDiffer(m1: int, m2: int, a1: Args, a2: Args)
    requires m1 in ModeTable && m2 in ModeTable && m1 != m2
    ensures ModeName(m1, a1) != ModeName(m2, a2)
  {
    var n1, n2 := ModeTable[m1], ModeTable[m2];
    var d1, d2 := ModeName(m1, a1).value, ModeName(m2, a2).value;
    BuilderNameLength(m1);
    BuilderNameLength(m2);
    BuilderNamesDiffer(m1, m2);
    assert d1 == Replace(n1, '_', ' ') + OptionSuffix(m1, a1);
    assert d2 == Replace(n2, '_', ' ') + OptionSuffix(m2, a2);
    assert d1[7] == n1[7] && d1[8] == n1[8];
    assert d2[7] == n2[7] && d2[8] == n2[8];
  }
}

/** Concrete parses over two small catalogs. */
module Examples {
  import opened Options
  import opened Extraction
  import opened Catalog
  import opened Table
  import opened Parser

  /** -v/--verbose without argument, -o/--output with a required argument,
      and the help option -?/--help (names and descriptions left empty). */
  function VerboseOutput(): (c: OptionList)
    ensures WellFormed(c)
  {
    [ OptionDescriptor("-v", "--verbose", "", NoArgument, ""),
      OptionDescriptor("-o", "--output", "", RequiredArgument, ""),
      OptionDescriptor("-?", "--help", "", NoArgument, "") ]
  }

  /** A list option with a long form only. */
  function Tags(): (c: OptionList)
    ensures WellFormed(c)
  {
    [ OptionDescriptor("", "--tags", "", ListArgument, "") ]
  }

  /** The first value stored under a key of an empty table. */
  lemma PutIntoEmpty(options: OptionList, option: string, value: string)
    requires WellFormed(options) && ToKey(options, option) != ""
    ensures Put(options, map[], option, value) == map[ToKey(options, option) := [value]]
  {
    assert ValuesOf(map[], ToKey(options, option)) + [value] == [value];
  }

  /** A second value under a key already holding one. */
  lemma PutSecond(options: OptionList, option: string, first: string, second: string)
    requires WellFormed(options) && ToKey(options, option) != ""
    ensures var key := ToKey(options, option);
      Put(options, map[key := [first]], option, second) == map[key := [first, second]]
  {
    var key := ToKey(options, option);
    assert ValuesOf(map[key := [first]], key) + [second] == [first, second];
  }

  lemma MatchesVerbose()
    ensures FirstMatch(VerboseOutput(), "-v") == Found(0)
  {
    assert IsOptionOf(VerboseOutput()[0], "-v");
  }

  lemma MatchesShortOutput()
    ensures FirstMatch(VerboseOutput(), "-o") == Found(1)
    ensures !IsLongOptionOf(VerboseOutput()[1], "-o")
  {
    SplitAtFirstEquals("-o");
    FirstMatchAt(VerboseOutput(), "-o", 1);
  }

  lemma MatchesHelp()
    ensures FirstMatch(VerboseOutput(), "-?") == Found(2)
  {
    SplitAtFirstEquals("-?");
    FirstMatchAt(VerboseOutput(), "-?", 2);
  }

  lemma OutputKey()
    ensures ToKey(VerboseOutput(), "--output") == "output"
    ensures ToKey(VerboseOutput(), "-o") == "output"
  {
    LongOutputKey();
    ShortOutputKey();
  }

  /** A token shorter than an entry's long form, and not its short form,
      does not match the entry. */
  lemma ShorterThanLongForm(d: OptionDescriptor, s: string)
    requires |s| < |d.longopt| && s != d.shortopt
    ensures !IsOptionOf(d, s)
  {
    SplitAtFirstEquals(s);
  }

  lemma LongOutputKey()
    ensures ToKey(VerboseOutput(), "--output") == "output"
  {
    var c := VerboseOutput();
    var s := "--output";
    ShorterThanLongForm(c[0], s);
    FirstMatchAt(c, s, 1);
    assert Resolve(c, "--output") == Found(1);
    assert c[1].longopt[2..] == "output";
  }

  lemma ShortOutputKey()
    ensures ToKey(VerboseOutput(), "-o") == "output"
  {
    var c := VerboseOutput();
    MatchesShortOutput();
    assert Resolve(c, "-o") == Found(1);
    assert c[1].longopt[2..] == "output";
  }

  lemma MatchesLongOutput(value: string)
    ensures ExtractOption("--output=" + value) == "--output"
    ensures ExtractValue("--output=" + value) == value
    ensures FirstMatch(VerboseOutput(), "--output=" + value) == Found(1)
  {
    assert "--output=" + value == "--output" + "=" + value;
    SplitIsUnique("--output", value);
    var s := "--output=" + value;
    assert s != "-v" && s != "--verbose" by {
      assert s[2] == 'o';
    }
    FirstMatchAt(VerboseOutput(), s, 1);
  }

  /** "-v --output=V": V is stored under "output", and the option without
      argument is not stored at all, so has("verbose") is false. */
  lemma VerboseAndLongOutput(value: string)
    ensures ParseAll(VerboseOutput(), ["prog", "-v", "--output=" + value], map[]) ==
      ParseResult(Ok, map["output" := [value]])
  {
    var c := VerboseOutput();
    var argv := ["prog", "-v", "--output=" + value];
    var t := map["output" := [value]];
    MatchesVerbose();
    NoArgumentStep(c, argv, 1, false, "-v", map[]);
    RunUnfolds(c, argv, 1, false, "-v", map[]);
    MatchesLongOutput(value);
    LongFormStep(c, argv, 2, false, "-v", map[]);
    RunUnfolds(c, argv, 2, false, "-v", map[]);
    OutputKey();
    PutIntoEmpty(c, "--output", value);
    assert Run(c, argv, 3, false, argv[2], t) == ParseResult(Ok, t);
  }

  /** "-o A -o B": both values are kept in order under "output"; get returns A. */
  lemma RepeatedShortOutput(a: string, b: string)
    requires !IsOption(VerboseOutput(), a) && !IsOption(VerboseOutput(), b)
    ensures ParseAll(VerboseOutput(), ["prog", "-o", a, "-o", b], map[]) ==
      ParseResult(Ok, map["output" := [a, b]])
  {
    var c := VerboseOutput();
    var argv := ["prog", "-o", a, "-o", b];
    MatchesShortOutput();
    OutputKey();
    ShortFormStep(c, argv, 1, false, "-o", map[]);
    RunUnfolds(c, argv, 1, false, "-o", map[]);
    PutIntoEmpty(c, "-o", a);
    ShortFormStep(c, argv, 3, false, "-o", map["output" := [a]]);
    RunUnfolds(c, argv, 3, false, "-o", map["output" := [a]]);
    PutSecond(c, "-o", a, b);
  }

  /** "-o -v": the short form is followed by an option, so "" is stored and
      "-v" is parsed as an option of its own. */
  lemma ShortOutputBeforeOption()
    ensures ParseAll(VerboseOutput(), ["prog", "-o", "-v"], map[]) ==
      ParseResult(Ok, map["output" := [""]])
  {
    var c := VerboseOutput();
    var argv := ["prog", "-o", "-v"];
    MatchesShortOutput();
    MatchesVerbose();
    OutputKey();
    ShortFormStep(c, argv, 1, false, "-o", map[]);
    RunUnfolds(c, argv, 1, false, "-o", map[]);
    PutIntoEmpty(c, "-o", "");
    NoArgumentStep(c, argv, 2, false, "-o", map["output" := [""]]);
    RunUnfolds(c, argv, 2, false, "-o", map["output" := [""]]);
  }

  /** "-?": the help option ends the parse with Help. */
  lemma HelpRequested()
    ensures ParseAll(VerboseOutput(), ["prog", "-?"], map[]).outcome == Help
  {
    MatchesHelp();
    NoArgumentStep(VerboseOutput(), ["prog", "-?"], 1, false, "-?", map[]);
    RunUnfolds(VerboseOutput(), ["prog", "-?"], 1, false, "-?", map[]);
  }

  /** "--bogus" is no option of the catalog: InvalidOption. */
  lemma UnknownOption()
    ensures ParseAll(VerboseOutput(), ["prog", "--bogus"], map[]).outcome == InvalidOption("--bogus")
  {
    var c := VerboseOutput();
    BogusIsNoOption();
    UnknownOutsideListMode(c, ["prog", "--bogus"], 1, "--bogus", map[]);
  }

  lemma BogusIsNoOption()
    ensures !IsOption(VerboseOutput(), "--bogus")
  {
    var c := VerboseOutput();
    SplitAtFirstEquals("--bogus");
    FirstMatchIsEarliest(c, "--bogus");
    forall k | 0 <= k < |c| ensures !IsOptionOf(c[k], "--bogus") {
      assert "--bogus"[..6][2] == 'b';
    }
  }

  lemma TagsKey()
    ensures FirstMatch(Tags(), "--tags") == Found(0)
    ensures ToKey(Tags(), "--tags") == "tags"
  {
    FirstMatchAt(Tags(), "--tags", 0);
  }

  /** "--tags X Y": both values are collected, in order, under "tags". */
  lemma TagsCollected(x: string, y: string)
    requires !IsOption(Tags(), x) && !IsOption(Tags(), y)
    ensures ParseAll(Tags(), ["prog", "--tags", x, y], map[]) ==
      ParseResult(Ok, map["tags" := [x, y]])
  {
    var c := Tags();
    var argv := ["prog", "--tags", x, y];
    TagsKey();
    ListOptionStep(c, argv, 1, false, "--tags", map[]);
    RunUnfolds(c, argv, 1, false, "--tags", map[]);
    RunAtListValue(c, argv, 2, "--tags", map[]);
    PutIntoEmpty(c, "--tags", x);
    RunAtListValue(c, argv, 3, "--tags", map["tags" := [x]]);
    PutSecond(c, "--tags", x, y);
  }

  /** "--tags --bogus": in list mode an unknown dash token is stored as a
      list value, not reported as an invalid option. */
  lemma UnknownDashTokenIsListValue()
    ensures ParseAll(Tags(), ["prog", "--tags", "--bogus"], map[]) ==
      ParseResult(Ok, map["tags" := ["--bogus"]])
  {
    var c := Tags();
    var argv := ["prog", "--tags", "--bogus"];
    SplitAtFirstEquals("--bogus");
    assert !IsOption(c, "--bogus");
    TagsKey();
    ListOptionStep(c, argv, 1, false, "--tags", map[]);
    RunUnfolds(c, argv, 1, false, "--tags", map[]);
    RunAtListValue(c, argv, 2, "--tags", map[]);
    PutIntoEmpty(c, "--tags", "--bogus");
  }

  /** "--tags" as the last token: MissingListArg. */
  lemma TagsWithoutValue()
    ensures ParseAll(Tags(), ["prog", "--tags"], map[]).outcome == MissingListArg("--tags")
  {
    TagsKey();
    ListOptionStep(Tags(), ["prog", "--tags"], 1, false, "--tags", map[]);
    RunUnfolds(Tags(), ["prog", "--tags"], 1, false, "--tags", map[]);
  }
}

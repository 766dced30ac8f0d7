/** The parse loop of interface::parse and the decisions of parse_argument,
    parse_short_argument, parse_long_argument, parse_help_option and
    parse_list_argument, as functions over the argument vector. */
module Parser {
  import opened Options
  import opened Extraction
  import opened Catalog
  import opened Table

  /** How a parse ends. The source prints usage and exits with 0 for Help,
      and prints a message and exits with 1 for the three errors. */
  datatype Outcome =
    | Ok
    | Help                     // --help or -? was given
    | InvalidOption(token: string)   // a token that matches no entry
    | MissingListArg(token: string)  // a list option as the last token
    | Ambiguous(token: string)       // neither the long nor the short form

  /** The outcome of a parse together with the table it left. */
  datatype ParseResult = ParseResult(outcome: Outcome, table: KeyValues)

  /** What parse_argument does: end the parse, or return the pointer to the
      last token it used, the list flag, and the updated table. */
  datatype Step =
    | Stop(outcome: Outcome)
    | Next(cursor: nat, listflag: bool, table: KeyValues)

  /** parse_help_option: the entry is the built-in help option. */
  predicate IsHelpOption(d: OptionDescriptor)
  {
    d.longopt == "--help" || d.shortopt == "-?"
  }

  /** parse_short_argument: for the short option at argv[i], the pointer moves
      to the next token, which becomes the value, exactly when that token
      exists and no catalog entry matches it; otherwise the value is "". */
  function ShortArgument(options: OptionList, argv: seq<string>, i: nat): (r: (nat, string))
    requires i < |argv|
    ensures r.0 == i || r.0 == i + 1
    ensures r.0 == i + 1 <==> i + 1 < |argv| && !IsOption(options, argv[i + 1])
    ensures r.0 == i + 1 <==>
      (i + 1 < |argv| && forall k :: 0 <= k < |options| ==> !IsOptionOf(options[k], argv[i + 1]))
    ensures r.0 == i + 1 ==> r.1 == argv[i + 1]
    ensures r.0 == i ==> r.1 == ""
  {
    if i + 1 < |argv| then
      IsOptionIffSomeEntry(options, argv[i + 1]);
      if !IsOption(options, argv[i + 1]) then (i + 1, argv[i + 1]) else (i, "")
    else (i, "")
  }

  /** parse_argument for the token argv[i] and the entry d it resolved to. */
  function Dispatch(options: OptionList, argv: seq<string>, i: nat, listflag: bool,
                    d: OptionDescriptor, t: KeyValues): (r: Step)
    requires WellFormed(options) && i < |argv|
    ensures r.Next? ==> i <= r.cursor < |argv|
  {
    var token := argv[i];
    match d.argument
    case NoArgument =>
      if IsHelpOption(d) then Stop(Help) else Next(i, listflag, t)
    case ListArgument =>
      if i + 1 == |argv| then Stop(MissingListArg(token)) else Next(i, true, t)
    case _ =>
      if IsLongOptionOf(d, token) then
        Next(i, listflag, Put(options, t, ExtractOption(token), ExtractValue(token)))
      else if IsShortOptionOf(d, token) then
        var (j, value) := ShortArgument(options, argv, i);
        Next(j, listflag, Put(options, t, token, value))
      else
        Stop(Ambiguous(token))
  }

  /** What one iteration of the loop of interface::parse does. */
  datatype Move =
    | Done(result: ParseResult)
    | Goto(cursor: nat, listflag: bool, option: string, table: KeyValues)

  /** One iteration of the loop at the token argv[i], with the list flag and
      the last option token (the key that list values go under): a token
      collected in list mode, an unknown token, or parse_argument for the
      entry find_option found. */
  function Advance(options: OptionList, argv: seq<string>, i: nat, listflag: bool,
                   option: string, t: KeyValues): (r: Move)
    requires WellFormed(options) && i < |argv|
    ensures r.Goto? ==> i < r.cursor <= |argv|
  {
    if listflag && !IsOption(options, argv[i]) then
      Goto(i + 1, true, option, Put(options, t, option, argv[i]))
    else
      match FirstMatch(options, argv[i])
      case NoMatch => Done(ParseResult(InvalidOption(argv[i]), t))
      case Found(k) =>
        match Dispatch(options, argv, i, false, options[k], t)
        case Stop(outcome) => Done(ParseResult(outcome, t))
        case Next(j, flag, t') => Goto(j + 1, flag, argv[i], t')
  }

  /** The loop of interface::parse from the token argv[i] on. */
  function Run(options: OptionList, argv: seq<string>, i: nat, listflag: bool,
               option: string, t: KeyValues): (r: ParseResult)
    requires WellFormed(options) && i <= |argv|
    decreases |argv| - i
  {
    if i == |argv| then ParseResult(Ok, t)
    else
      match Advance(options, argv, i, listflag, option, t)
      case Done(result) => result
      case Goto(j, flag, option', t') => Run(options, argv, j, flag, option', t')
  }

  /** The whole parse of argv: the program name argv[0] is skipped, and the
      initial last-option token is argv[1] (never used: the list flag starts off). */
  function ParseAll(options: OptionList, argv: seq<string>, t: KeyValues): (r: ParseResult)
    requires WellFormed(options) && |argv| >= 2
  {
    Run(options, argv, 1, false, argv[1], t)
  }

  /** The "unable to determine if long or short" branch cannot be taken for
      the entry find_option returned: that entry matched by one of the same
      two predicates. */
  lemma DispatchOfMatchNeverAmbiguous(options: OptionList, argv: seq<string>, i: nat,
                                      listflag: bool, t: KeyValues)
    requires WellFormed(options) && i < |argv|
    requires FirstMatch(options, argv[i]).Found?
    ensures Dispatch(options, argv, i, listflag, options[FirstMatch(options, argv[i]).index], t).Stop? ==>
      !Dispatch(options, argv, i, listflag, options[FirstMatch(options, argv[i]).index], t).outcome.Ambiguous?
  {
  }

  /** Run does one iteration and goes on from where it left off. */
  lemma RunUnfolds(options: OptionList, argv: seq<string>, i: nat, listflag: bool,
                   option: string, t: KeyValues)
    requires WellFormed(options) && i < |argv|
    ensures var r := Advance(options, argv, i, listflag, option, t);
      Run(options, argv, i, listflag, option, t) ==
        if r.Done? then r.result else Run(options, argv, r.cursor, r.listflag, r.option, r.table)
  {
  }

  /** In list mode a token that is not a recognised option is stored under
      the list option, and list mode goes on. */
  lemma AdvanceAtListValue(options: OptionList, argv: seq<string>, i: nat,
                           option: string, t: KeyValues)
    requires WellFormed(options) && i < |argv|
    requires !IsOption(options, argv[i])
    ensures Advance(options, argv, i, true, option, t) ==
      Goto(i + 1, true, option, Put(options, t, option, argv[i]))
  {
  }

  /** Outside list mode a token that matches no entry ends the parse. */
  lemma AdvanceAtUnknown(options: OptionList, argv: seq<string>, i: nat,
                         option: string, t: KeyValues)
    requires WellFormed(options) && i < |argv|
    requires !IsOption(options, argv[i])
    ensures Advance(options, argv, i, false, option, t) ==
      Done(ParseResult(InvalidOption(argv[i]), t))
  {
  }

  /** A recognised token, in list mode or not, is given to parse_argument with
      the list flag off, and becomes the last option token. */
  lemma AdvanceAtOption(options: OptionList, argv: seq<string>, i: nat,
                        listflag: bool, option: string, t: KeyValues)
    requires WellFormed(options) && i < |argv|
    requires FirstMatch(options, argv[i]).Found?
    ensures var step := Dispatch(options, argv, i, false, options[FirstMatch(options, argv[i]).index], t);
      Advance(options, argv, i, listflag, option, t) ==
        if step.Stop? then Done(ParseResult(step.outcome, t))
        else Goto(step.cursor + 1, step.listflag, argv[i], step.table)
  {
  }

  /** One iteration of the loop at a recognised token. */
  lemma RunAtOption(options: OptionList, argv: seq<string>, i: nat,
                    listflag: bool, option: string, t: KeyValues)
    requires WellFormed(options) && i < |argv|
    requires FirstMatch(options, argv[i]).Found?
    ensures var step := Dispatch(options, argv, i, false, options[FirstMatch(options, argv[i]).index], t);
      Run(options, argv, i, listflag, option, t) ==
        if step.Stop? then ParseResult(step.outcome, t)
        else Run(options, argv, step.cursor + 1, step.listflag, argv[i], step.table)
  {
    AdvanceAtOption(options, argv, i, listflag, option, t);
    RunUnfolds(options, argv, i, listflag, option, t);
  }

  /** One iteration of the loop at a token collected in list mode. */
  lemma RunAtListValue(options: OptionList, argv: seq<string>, i: nat,
                       option: string, t: KeyValues)
    requires WellFormed(options) && i < |argv|
    requires !IsOption(options, argv[i])
    ensures Run(options, argv, i, true, option, t) ==
      Run(options, argv, i + 1, true, option, Put(options, t, option, argv[i]))
  {
    AdvanceAtListValue(options, argv, i, option, t);
    RunUnfolds(options, argv, i, true, option, t);
  }

  /** One iteration never ends the parse with the Ambiguous error. */
  lemma AdvanceNeverAmbiguous(options: OptionList, argv: seq<string>, i: nat,
                              listflag: bool, option: string, t: KeyValues)
    requires WellFormed(options) && i < |argv|
    ensures var r := Advance(options, argv, i, listflag, option, t);
      r.Done? ==> !r.result.outcome.Ambiguous?
  {
    if FirstMatch(options, argv[i]).Found? {
      DispatchOfMatchNeverAmbiguous(options, argv, i, false, t);
    }
  }

  /** A parse never ends with the Ambiguous error. */
  lemma {:induction false} RunNeverAmbiguous(options: OptionList, argv: seq<string>, i: nat,
                                             listflag: bool, option: string, t: KeyValues)
    requires WellFormed(options) && i <= |argv|
    ensures !Run(options, argv, i, listflag, option, t).outcome.Ambiguous?
    decreases |argv| - i
  {
    if i < |argv| {
      AdvanceNeverAmbiguous(options, argv, i, listflag, option, t);
      var r := Advance(options, argv, i, listflag, option, t);
      if r.Goto? {
        RunNeverAmbiguous(options, argv, r.cursor, r.listflag, r.option, r.table);
      }
    }
  }

  /** parse_argument only ever extends the table. */
  lemma DispatchExtends(options: OptionList, argv: seq<string>, i: nat, listflag: bool,
                        d: OptionDescriptor, t: KeyValues)
    requires WellFormed(options) && i < |argv|
    ensures Dispatch(options, argv, i, listflag, d, t).Next? ==>
      Extends(t, Dispatch(options, argv, i, listflag, d, t).table) &&
      (Consistent(t) ==> Consistent(Dispatch(options, argv, i, listflag, d, t).table))
  {
    var token := argv[i];
    var r := Dispatch(options, argv, i, listflag, d, t);
    if r.Next? && !(d.argument == NoArgument || d.argument == ListArgument) {
      if IsLongOptionOf(d, token) {
        var key, value := ExtractOption(token), ExtractValue(token);
        assert r.table == Put(options, t, key, value);
        PutExtends(options, t, key, value);
        PutStores(options, t, key, value);
      } else {
        var value := ShortArgument(options, argv, i).1;
        assert r.table == Put(options, t, token, value);
        PutExtends(options, t, token, value);
        PutStores(options, t, token, value);
      }
    }
  }

  /** One iteration only ever extends the table, and keeps it consistent; an
      iteration that ends the parse leaves the table as it was. */
  lemma AdvanceExtends(options: OptionList, argv: seq<string>, i: nat,
                       listflag: bool, option: string, t: KeyValues)
    requires WellFormed(options) && i < |argv|
    ensures var r := Advance(options, argv, i, listflag, option, t);
      (r.Done? ==> r.result.table == t) &&
      (r.Goto? ==> Extends(t, r.table) && (Consistent(t) ==> Consistent(r.table)))
  {
    if listflag && !IsOption(options, argv[i]) {
      PutExtends(options, t, option, argv[i]);
      PutStores(options, t, option, argv[i]);
    } else if FirstMatch(options, argv[i]).Found? {
      var k := FirstMatch(options, argv[i]).index;
      DispatchExtends(options, argv, i, false, options[k], t);
    }
  }

  /** A parse keeps the table consistent and only extends it: values already
      stored keep their place, so get keeps returning the first value entered
      (for "-o a -o b" it returns "a"). */
  lemma {:induction false} RunExtends(options: OptionList, argv: seq<string>, i: nat,
                                      listflag: bool, option: string, t: KeyValues)
    requires WellFormed(options) && i <= |argv|
    ensures Extends(t, Run(options, argv, i, listflag, option, t).table)
    ensures Consistent(t) ==> Consistent(Run(options, argv, i, listflag, option, t).table)
    decreases |argv| - i
  {
    if i < |argv| {
      AdvanceExtends(options, argv, i, listflag, option, t);
      var r := Advance(options, argv, i, listflag, option, t);
      if r.Goto? {
        RunExtends(options, argv, r.cursor, r.listflag, r.option, r.table);
        ExtendsTransitive(t, r.table, Run(options, argv, r.cursor, r.listflag, r.option, r.table).table);
      }
    }
  }

  /** A whole parse never ends with the Ambiguous error, and leaves a table
      that extends the one it started from, consistent when that one was. */
  lemma ParseAllGuarantees(options: OptionList, argv: seq<string>, t: KeyValues)
    requires WellFormed(options) && |argv| >= 2
    ensures !ParseAll(options, argv, t).outcome.Ambiguous?
    ensures Extends(t, ParseAll(options, argv, t).table)
    ensures Consistent(t) ==> Consistent(ParseAll(options, argv, t).table)
  {
    RunNeverAmbiguous(options, argv, 1, false, argv[1], t);
    RunExtends(options, argv, 1, false, argv[1], t);
  }

  /** In list mode, a run of tokens none of which is a recognised option (an
      unknown "--x" included) is appended, in order, under the list option's key. */
  lemma {:induction false} ListCollects(options: OptionList, argv: seq<string>, i: nat, j: nat,
                                        option: string, t: KeyValues)
    requires WellFormed(options) && i <= j <= |argv|
    requires forall m :: i <= m < j ==> !IsOption(options, argv[m])
    ensures Run(options, argv, i, true, option, t) ==
      Run(options, argv, j, true, option, PutAll(options, t, option, argv[i..j]))
    decreases j - i
  {
    if i < j {
      var t1 := Put(options, t, option, argv[i]);
      ListCollects(options, argv, i + 1, j, option, t1);
      assert argv[i..j][0] == argv[i];
      assert argv[i..j][1..] == argv[i + 1..j];
    }
  }

  /** In list mode, the first recognised option ends list mode and is parsed
      as if list mode had not been on. */
  lemma ListEnds(options: OptionList, argv: seq<string>, i: nat, option: string, t: KeyValues)
    requires WellFormed(options) && i < |argv|
    requires IsOption(options, argv[i])
    ensures Run(options, argv, i, true, option, t) == Run(options, argv, i, false, option, t)
  {
  }

  /** A token that is not a recognised option is an InvalidOption error
      outside list mode, whatever the last option was. */
  lemma UnknownOutsideListMode(options: OptionList, argv: seq<string>, i: nat,
                              option: string, t: KeyValues)
    requires WellFormed(options) && i < |argv|
    requires !IsOption(options, argv[i])
    ensures Run(options, argv, i, false, option, t) == ParseResult(InvalidOption(argv[i]), t)
  {
    AdvanceAtUnknown(options, argv, i, option, t);
    RunUnfolds(options, argv, i, false, option, t);
  }

  /** A recognised option with no argument stores nothing and uses no extra
      token; the help option ends the parse with Help instead. */
  lemma NoArgumentStep(options: OptionList, argv: seq<string>, i: nat, listflag: bool,
                       option: string, t: KeyValues)
    requires WellFormed(options) && i < |argv|
    requires FirstMatch(options, argv[i]).Found?
    requires options[FirstMatch(options, argv[i]).index].argument == NoArgument
    ensures Advance(options, argv, i, listflag, option, t) ==
      if IsHelpOption(options[FirstMatch(options, argv[i]).index]) then Done(ParseResult(Help, t))
      else Goto(i + 1, false, argv[i], t)
  {
    var d := options[FirstMatch(options, argv[i]).index];
    AdvanceAtOption(options, argv, i, listflag, option, t);
    assert Dispatch(options, argv, i, false, d, t) ==
      if IsHelpOption(d) then Stop(Help) else Next(i, false, t);
  }

  /** A recognised list option starts list mode under its own token without
      storing anything, or is a MissingListArg error as the last token. */
  lemma ListOptionStep(options: OptionList, argv: seq<string>, i: nat, listflag: bool,
                       option: string, t: KeyValues)
    requires WellFormed(options) && i < |argv|
    requires FirstMatch(options, argv[i]).Found?
    requires options[FirstMatch(options, argv[i]).index].argument == ListArgument
    ensures Advance(options, argv, i, listflag, option, t) ==
      if i + 1 == |argv| then Done(ParseResult(MissingListArg(argv[i]), t))
      else Goto(i + 1, true, argv[i], t)
  {
    var d := options[FirstMatch(options, argv[i]).index];
    AdvanceAtOption(options, argv, i, listflag, option, t);
    assert Dispatch(options, argv, i, false, d, t) ==
      if i + 1 == |argv| then Stop(MissingListArg(argv[i])) else Next(i, true, t);
  }

  /** A required or optional option in long form stores the part after '='
      under the part before it and uses no extra token. */
  lemma LongFormStep(options: OptionList, argv: seq<string>, i: nat, listflag: bool,
                     option: string, t: KeyValues)
    requires WellFormed(options) && i < |argv|
    requires FirstMatch(options, argv[i]).Found?
    requires var d := options[FirstMatch(options, argv[i]).index];
      (d.argument == RequiredArgument || d.argument == OptionalArgument) &&
      IsLongOptionOf(d, argv[i])
    ensures Advance(options, argv, i, listflag, option, t) ==
      Goto(i + 1, false, argv[i], Put(options, t, ExtractOption(argv[i]), ExtractValue(argv[i])))
  {
    var d := options[FirstMatch(options, argv[i]).index];
    AdvanceAtOption(options, argv, i, listflag, option, t);
    assert Dispatch(options, argv, i, false, d, t) ==
      Next(i, false, Put(options, t, ExtractOption(argv[i]), ExtractValue(argv[i])));
  }

  /** A required or optional option in short form takes the next token as its
      value, and uses it, when that token exists and is not a recognised
      option; otherwise it stores "" and does not use the next token. */
  lemma ShortFormStep(options: OptionList, argv: seq<string>, i: nat, listflag: bool,
                      option: string, t: KeyValues)
    requires WellFormed(options) && i < |argv|
    requires FirstMatch(options, argv[i]).Found?
    requires var d := options[FirstMatch(options, argv[i]).index];
      (d.argument == RequiredArgument || d.argument == OptionalArgument) &&
      !IsLongOptionOf(d, argv[i])
    ensures Advance(options, argv, i, listflag, option, t) ==
      if i + 1 < |argv| && !IsOption(options, argv[i + 1])
      then Goto(i + 2, false, argv[i], Put(options, t, argv[i], argv[i + 1]))
      else Goto(i + 1, false, argv[i], Put(options, t, argv[i], ""))
  {
    var d := options[FirstMatch(options, argv[i]).index];
    FirstMatchIsEarliest(options, argv[i]);
    AdvanceAtOption(options, argv, i, listflag, option, t);
    var (j, value) := ShortArgument(options, argv, i);
    assert Dispatch(options, argv, i, false, d, t) == Next(j, false, Put(options, t, argv[i], value));
  }
}

/** The commandline::interface class: the fixed option catalog, the result
    table it fills, and its members (commandline.hpp, commandline.cpp). */
module CommandLine {
  import opened Options
  import opened Extraction
  import opened Catalog
  import opened Table
  import opened Parser

  /** Whether parse_argument ended the parse (the source calls exit there). */
  datatype Halt = Continue | Exit(outcome: Outcome)

  class Interface {
    /** m_options: supplied once, never changed. */
    const options: OptionList
    /** m_table: key to the values entered for it. */
    var table: KeyValues

    ghost predicate Valid()
      reads this
    {
      WellFormed(options) && Consistent(table)
    }

    /** interface(options): the catalog is kept and the table starts empty. */
    constructor(options: OptionList)
      requires WellFormed(options)
      ensures Valid()
      ensures this.options == options && table == map[]
    {
      this.options := options;
      table := map[];
    }

    /** find_option, with the iterator loop of the source: the earliest entry
        the token matches, NoMatch when none does. */
    method FindOption(option: string) returns (r: Match)
      ensures r == FirstMatch(options, option)
    {
      var k := 0;
      while k < |options|
        invariant 0 <= k <= |options|
        invariant forall j :: 0 <= j < k ==> !IsOptionOf(options[j], option)
      {
        if IsOptionOf(options[k], option) {
          FirstMatchAt(options, option, k);
          return Found(k);
        }
        k := k + 1;
      }
      FirstMatchIsEarliest(options, option);
      return NoMatch;
    }

    /** set: returns -1 and leaves the table as it was when no key can be
        found for the option; otherwise appends value under the key, returns 0,
        and get of the option then gives the first value ever stored for it. */
    method Set(option: string, value: string) returns (code: int)
      requires Valid()
      modifies this
      ensures Valid()
      ensures code == SetCode(options, option)
      ensures table == Put(options, old(table), option, value)
      ensures code == 0 ==> Has(option)
      ensures code == -1 ==> !Has(option) && Get(option) == ""
      ensures old(Has(option)) ==> Get(option) == old(Get(option))
      ensures !old(Has(option)) && code == 0 ==> Get(option) == value
    {
      var key := ToKey(options, option);
      PutStores(options, table, option, value);
      if key == "" {
        return -1;
      }
      table := table[key := ValuesOf(table, key) + [value]];
      return 0;
    }

    /** has: the option's key is in the table; never for an option with no key. */
    function Has(option: string): (r: bool)
      reads this
      requires Valid()
      ensures r ==> ToKey(options, option) != ""
      ensures r <==> ToKey(options, option) in table
    {
      ToKey(options, option) in table
    }

    /** get: what FirstValue reports for the option's key, which
        FirstValueAfterPut ties to the first set of the option. */
    function Get(option: string): (r: string)
      reads this
      requires Valid()
      ensures r == FirstValue(table, ToKey(options, option))
      ensures !Has(option) ==> r == ""
    {
      if Has(option) then table[ToKey(options, option)][0] else ""
    }

    /** parse_short_argument: moves to the next token, and takes it as the
        value, exactly when it exists and is not a recognised option. */
    method ParseShortArgument(argv: seq<string>, i: nat) returns (j: nat, value: string)
      requires i < |argv|
      ensures (j, value) == ShortArgument(options, argv, i)
      ensures j == i + 1 <==>
        (i + 1 < |argv| && forall k :: 0 <= k < |options| ==> !IsOptionOf(options[k], argv[i + 1]))
      ensures j == i + 1 ==> value == argv[i + 1]
      ensures j != i + 1 ==> j == i && value == ""
    {
      if i + 1 < |argv| && !IsOption(options, argv[i + 1]) {
        value := argv[i + 1];
        j := i + 1;
      } else {
        value := "";
        j := i;
      }
    }

    /** parse_long_argument: the key and value of "--option=value"; the
        pointer is not moved. */
    method ParseLongArgument(argv: seq<string>, i: nat) returns (j: nat, key: string, value: string)
      requires i < |argv|
      ensures j == i
      ensures key == ExtractOption(argv[i]) && value == ExtractValue(argv[i])
    {
      value := Extract(argv[i], 2);
      key := Extract(argv[i], 1);
      j := i;
    }

    /** parse_list_argument: in list mode a token that is not a recognised
        option is stored under the list option; a recognised option ends list
        mode. The result is the new list flag, true when the token was used. */
    method ParseListArgument(token: string, option: string, listflag: bool) returns (collected: bool)
      requires Valid()
      modifies this
      ensures Valid()
      ensures collected == (listflag && !IsOption(options, token))
      ensures table == if collected then Put(options, old(table), option, token) else old(table)
    {
      collected := listflag;
      if listflag {
        if IsOption(options, token) {
          collected := false;
        } else {
          var _ := Set(option, token);
        }
      }
    }

    /** parse_option: the entry find_option finds for the token; a token
        that is no recognised option ends the parse with InvalidOption. */
    method ParseOption(token: string) returns (data: Match, halt: Halt)
      ensures data == FirstMatch(options, token)
      ensures data.NoMatch? <==> !IsOption(options, token)
      ensures halt == if data.NoMatch? then Exit(InvalidOption(token)) else Continue
    {
      data := FindOption(token);
      halt := if data.NoMatch? then Exit(InvalidOption(token)) else Continue;
    }

    /** parse_argument for the token argv[i], which resolved to the entry d:
        the pointer to the last token used, the list flag, and whether the
        parse ends here. */
    method ParseArgument(d: OptionDescriptor, argv: seq<string>, i: nat, listflag: bool)
      returns (j: nat, flag: bool, halt: Halt)
      requires Valid() && i < |argv|
      modifies this
      ensures Valid()
      ensures halt.Exit? ==> Dispatch(options, argv, i, listflag, d, old(table)) == Stop(halt.outcome)
      ensures halt.Exit? ==> table == old(table)
      ensures halt.Continue? ==> Dispatch(options, argv, i, listflag, d, old(table)) == Next(j, flag, table)
    {
      var key := argv[i];
      var value := "";
      j, flag, halt := i, listflag, Continue;
      match d.argument {
        case NoArgument =>
          // parse_help_option
          if IsHelpOption(d) {
            halt := Exit(Help);
          }
          return;
        case ListArgument =>
          flag := true;
          if i + 1 == |argv| {
            halt := Exit(MissingListArg(argv[i]));
          }
          return;
        case _ =>
          if IsLongOptionOf(d, key) {
            j, key, value := ParseLongArgument(argv, i);
          } else if IsShortOptionOf(d, key) {
            j, value := ParseShortArgument(argv, i);
          } else {
            halt := Exit(Ambiguous(argv[i]));
            return;
          }
      }
      var _ := Set(key, value);
    }

    /** parse: one forward pass over argv[1..] with the list flag and the last
        option token; ends with the outcome and table ParseAll specifies (so,
        by ParseAllGuarantees, never with the Ambiguous error, and with a
        table that extends the old one). */
    method Parse(argv: seq<string>) returns (outcome: Outcome)
      requires Valid() && |argv| >= 2
      modifies this
      ensures Valid()
      ensures ParseResult(outcome, table) == ParseAll(options, argv, old(table))
    {
      var i := 1;
      var option := argv[1];
      var listflag := false;
      ghost var goal := ParseAll(options, argv, table);
      while i < |argv|
        invariant 1 <= i <= |argv|
        invariant Valid()
        invariant Run(options, argv, i, listflag, option, table) == goal
        decreases |argv| - i
      {
        ghost var wasList, before := listflag, table;
        listflag := ParseListArgument(argv[i], option, listflag);
        if listflag {
          RunAtListValue(options, argv, i, option, before);
          i := i + 1;
          continue;
        }
        var found, stop := ParseOption(argv[i]);
        if stop.Exit? {
          UnknownOutsideListMode(options, argv, i, option, before);
          return stop.outcome;
        }
        RunAtOption(options, argv, i, wasList, option, before);
        option := argv[i];
        var last, halt;
        last, listflag, halt := ParseArgument(options[found.index], argv, i, listflag);
        if halt.Exit? {
          return halt.outcome;
        }
        i := last + 1;
      }
      outcome := Ok;
    }
  }
}

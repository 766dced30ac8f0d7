/** Matching tokens against the option catalog and turning any spelling of an
    option into its table key (find_option, the is_*_option predicates,
    to_short_option, to_long_option and to_key of commandline.cpp). */
module Catalog {
  import opened Options
  import opened Extraction

  /** The result of find_option: the index of the entry found, or NULL. */
  datatype Match = NoMatch | Found(index: nat)

  /** is_short_option(data, s): s is the entry's short form. */
  predicate IsShortOptionOf(d: OptionDescriptor, s: string)
  {
    s == d.shortopt
  }

  /** is_long_option(data, s): s is the entry's long form, or its part before
      the first '=' is. */
  predicate IsLongOptionOf(d: OptionDescriptor, s: string)
  {
    s == d.longopt || ExtractOption(s) == d.longopt
  }

  /** is_option(data, s). */
  predicate IsOptionOf(d: OptionDescriptor, s: string)
  {
    IsShortOptionOf(d, s) || IsLongOptionOf(d, s)
  }

  /** find_option: the catalog entry s matches (FirstMatchIsEarliest says which). */
  function FirstMatch(options: OptionList, s: string): (r: Match)
    ensures r.Found? ==> r.index < |options|
  {
    if options == [] then NoMatch
    else if IsOptionOf(options[0], s) then Found(0)
    else match FirstMatch(options[1..], s)
      case NoMatch => NoMatch
      case Found(k) => Found(k + 1)
  }

  /** find_option returns the earliest entry s matches, and NULL exactly when
      no entry matches s. */
  lemma {:induction false} FirstMatchIsEarliest(options: OptionList, s: string)
    ensures var r := FirstMatch(options, s);
      r.Found? ==> IsOptionOf(options[r.index], s)
    ensures var r := FirstMatch(options, s);
      r.Found? ==> forall j :: 0 <= j < r.index ==> !IsOptionOf(options[j], s)
    ensures FirstMatch(options, s).NoMatch? ==>
      forall j :: 0 <= j < |options| ==> !IsOptionOf(options[j], s)
  {
    if options != [] && !IsOptionOf(options[0], s) {
      FirstMatchIsEarliest(options[1..], s);
      assert forall j :: 1 <= j < |options| ==> options[j] == options[1..][j - 1];
    }
  }

  /** The entry s matches with nothing earlier matching it is what find_option finds. */
  lemma FirstMatchAt(options: OptionList, s: string, k: nat)
    requires k < |options| && IsOptionOf(options[k], s)
    requires forall j :: 0 <= j < k ==> !IsOptionOf(options[j], s)
    ensures FirstMatch(options, s) == Found(k)
  {
    FirstMatchIsEarliest(options, s);
  }

  /** is_short_option(s): the entry find_option gives for s has s as its short form. */
  predicate IsShortOption(options: OptionList, s: string)
  {
    match FirstMatch(options, s)
    case NoMatch => false
    case Found(k) => IsShortOptionOf(options[k], s)
  }

  /** is_long_option(s): the entry find_option gives for s has s, or s up to
      its '=', as its long form. */
  predicate IsLongOption(options: OptionList, s: string)
  {
    match FirstMatch(options, s)
    case NoMatch => false
    case Found(k) => IsLongOptionOf(options[k], s)
  }

  /** is_option(s): s is a recognised option exactly when find_option finds an
      entry for it, that is, when some entry of the catalog matches it. */
  function IsOption(options: OptionList, s: string): (r: bool)
    ensures r <==> FirstMatch(options, s).Found?
  {
    FirstMatchIsEarliest(options, s);
    IsShortOption(options, s) || IsLongOption(options, s)
  }

  /** is_option(s) holds exactly when some entry of the catalog matches s. */
  lemma IsOptionIffSomeEntry(options: OptionList, s: string)
    ensures IsOption(options, s) <==>
      exists k :: 0 <= k < |options| && IsOptionOf(options[k], s)
  {
    FirstMatchIsEarliest(options, s);
    if FirstMatch(options, s).Found? {
      var k := FirstMatch(options, s).index;
      assert IsOptionOf(options[k], s);
    }
  }

  /** to_short_option: "" when no entry matches s, else the short form of the
      first entry that does. */
  function ToShortOption(options: OptionList, s: string): (r: string)
    ensures (forall k :: 0 <= k < |options| ==> !IsOptionOf(options[k], s)) ==> r == ""
    ensures forall k ::
      (0 <= k < |options| && IsOptionOf(options[k], s) &&
       forall j :: 0 <= j < k ==> !IsOptionOf(options[j], s)) ==> r == options[k].shortopt
  {
    FirstMatchIsEarliest(options, s);
    match FirstMatch(options, s)
    case NoMatch => ""
    case Found(k) => options[k].shortopt
  }

  /** to_long_option: "" when no entry matches s, else the long form of the
      first entry that does. */
  function ToLongOption(options: OptionList, s: string): (r: string)
    ensures (forall k :: 0 <= k < |options| ==> !IsOptionOf(options[k], s)) ==> r == ""
    ensures forall k ::
      (0 <= k < |options| && IsOptionOf(options[k], s) &&
       forall j :: 0 <= j < k ==> !IsOptionOf(options[j], s)) ==> r == options[k].longopt
  {
    FirstMatchIsEarliest(options, s);
    match FirstMatch(options, s)
    case NoMatch => ""
    case Found(k) => options[k].longopt
  }

  /** The lookup of to_key: an input without a leading '-' (the empty input
      included, whose first character in the source is the terminating NUL)
      is tried as "--input" and then as "-input". */
  function Resolve(options: OptionList, input: string): (r: Match)
  {
    if |input| == 0 || input[0] != '-' then
      match FirstMatch(options, "--" + input)
      case Found(k) => Found(k)
      case NoMatch => FirstMatch(options, "-" + input)
    else
      FirstMatch(options, input)
  }

  /** The table key of an entry: its long form without "--", else its short
      form without "-", else "" (the last branch of to_key). */
  function KeyOf(d: OptionDescriptor): (key: string)
    requires |d.longopt| != 1
  {
    if d.longopt != "" then d.longopt[2..]
    else if d.shortopt != "" then d.shortopt[1..]
    else ""
  }

  /** to_key: the key of the entry the input resolves to, "" when none. */
  function ToKey(options: OptionList, input: string): (key: string)
    requires WellFormed(options)
  {
    match Resolve(options, input)
    case NoMatch => ""
    case Found(k) => KeyOf(options[k])
  }

  /** A dashless input is looked up with "--" first; only when that finds
      nothing is it looked up as a short option with "-". */
  lemma DashlessLookupOrder(options: OptionList, input: string)
    requires WellFormed(options)
    requires |input| == 0 || input[0] != '-'
    ensures FirstMatch(options, "--" + input).Found? ==>
      ToKey(options, input) == ToKey(options, "--" + input)
    ensures FirstMatch(options, "--" + input).NoMatch? ==>
      ToKey(options, input) == ToKey(options, "-" + input)
  {
    assert ("--" + input)[0] == '-';
    assert ("-" + input)[0] == '-';
  }

  /** No entry matches a spelling (short or long form) of a different entry. */
  predicate SpellingsDistinct(options: OptionList)
  {
    forall i, j :: 0 <= i < |options| && 0 <= j < |options| && i != j ==>
      (options[j].shortopt != "" ==> !IsOptionOf(options[i], options[j].shortopt)) &&
      (options[j].longopt != "" ==> !IsOptionOf(options[i], options[j].longopt))
  }

  /** In a catalog with distinct spellings an entry's own spellings find it. */
  lemma SpellingFindsEntry(options: OptionList, k: nat)
    requires SpellingsDistinct(options) && k < |options|
    ensures options[k].shortopt != "" ==> FirstMatch(options, options[k].shortopt) == Found(k)
    ensures options[k].longopt != "" ==> FirstMatch(options, options[k].longopt) == Found(k)
  {
    var d := options[k];
    if d.shortopt != "" {
      assert IsOptionOf(d, d.shortopt);
      FirstMatchAt(options, d.shortopt, k);
    }
    if d.longopt != "" {
      assert IsOptionOf(d, d.longopt);
      FirstMatchAt(options, d.longopt, k);
    }
  }

  /** A long form "--name": the shape the key round trip needs. */
  predicate IsLongForm(s: string)
  {
    |s| > 2 && s[0] == '-' && s[1] == '-' && s[2] != '-'
  }

  /** A short form "-name". */
  predicate IsShortForm(s: string)
  {
    |s| > 1 && s[0] == '-' && s[1] != '-'
  }

  /** With distinct spellings, an entry with a long form "--output" has the key
      "output", and "--output", "output" and its short form "-o" all map to it. */
  lemma CanonicalKey(options: OptionList, k: nat)
    requires WellFormed(options) && SpellingsDistinct(options) && k < |options|
    requires IsLongForm(options[k].longopt)
    ensures ToKey(options, options[k].longopt) == options[k].longopt[2..]
    ensures ToKey(options, options[k].longopt[2..]) == options[k].longopt[2..]
    ensures IsShortForm(options[k].shortopt) ==>
      ToKey(options, options[k].shortopt) == options[k].longopt[2..]
  {
    var d := options[k];
    SpellingFindsEntry(options, k);
    var name := d.longopt[2..];
    assert "--" + name == d.longopt;
    assert name[0] != '-';
  }

  /** With distinct spellings, an entry with only a short form "-o" has the key
      "o"; "-o" maps to it, and so does "o" unless "--o" denotes some entry. */
  lemma ShortOnlyKey(options: OptionList, k: nat)
    requires WellFormed(options) && SpellingsDistinct(options) && k < |options|
    requires options[k].longopt == "" && IsShortForm(options[k].shortopt)
    ensures ToKey(options, options[k].shortopt) == options[k].shortopt[1..]
    ensures FirstMatch(options, "--" + options[k].shortopt[1..]).NoMatch? ==>
      ToKey(options, options[k].shortopt[1..]) == options[k].shortopt[1..]
  {
    var d := options[k];
    SpellingFindsEntry(options, k);
    var name := d.shortopt[1..];
    assert "-" + name == d.shortopt;
    assert name[0] != '-';
  }

  /** With distinct spellings, to_short_option and to_long_option convert
      between the two spellings of an entry. */
  lemma ConvertsSpellings(options: OptionList, k: nat)
    requires SpellingsDistinct(options) && k < |options|
    ensures options[k].shortopt != "" ==>
      ToLongOption(options, options[k].shortopt) == options[k].longopt
    ensures options[k].longopt != "" ==>
      ToShortOption(options, options[k].longopt) == options[k].shortopt
  {
    SpellingFindsEntry(options, k);
  }
}

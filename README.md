# commandline::interface, modelled in Dafny

This project models the option parser of the `commandline::interface` class.
The class holds a fixed catalog of options. Each catalog entry has a short
form (`-o`), a long form (`--output`), an argument type (none, required,
optional, list) and two texts used for the usage message. The class parses
`argv` once, front to back, and fills a table from keys to lists of values;
`set`, `get` and `has` read and write that table.

The modules follow the parts of the source:

- `Options` (options.dfy): `argument_t`, `struct option`, `optlist_t` and
  `keyval_t` as datatypes and types. It also holds the catalog condition that
  `to_key` needs.
- `Extraction` (extraction.dfy): `extract`, `extract_option` and
  `extract_value`. It splits a token `--option=value` at its first `=`. The
  `Extract` method keeps the source's index loop.
- `Catalog` (catalog.dfy): the `is_*_option` predicates, `find_option` as
  `FirstMatch`, `to_short_option`, `to_long_option` and `to_key`.
- `Table` (table.dfy): the table update that `set` performs, as a function on
  map values, and what it preserves.
- `Parser` (parser.dfy): the decisions of `parse_argument`, `parse_help_option`,
  `parse_short_argument`, `parse_long_argument` and `parse_list_argument`.
  - `Dispatch` is one call of `parse_argument`.
  - `Advance` is one pass of the loop body of `parse`.
  - `Run` and `ParseAll` are the whole loop, as specification functions.
  - The lemmas hold what the parse promises.
- `CommandLine` (interface.dfy): the `Interface` class. It has the catalog as
  a `const` field and the table as a `map` field that its methods change.
  - `FindOption` keeps the iterator loop.
  - `Set`, `ParseListArgument` and `ParseArgument` change the table.
  - `Parse` runs the cursor loop over `argv`, and is proved equal to
    `ParseAll`.
- `Examples` (examples.dfy): concrete parses over two small catalogs.

`parse` ends in four ways: it returns; it calls `exit(0)` after printing the
usage text; it calls `exit(1)` after an error message; or, in one branch that
cannot be reached, it reports that a token is neither a long nor a short
option. The model turns these into the `Outcome` values `Ok`, `Help`,
`InvalidOption`, `MissingListArg` and `Ambiguous`. It proves that `Ambiguous`
never happens.

Where the comments and the code disagree, the model follows the code:

- An option without argument is never stored in the table. `parse_argument`
  returns at commandline.cpp:162, before the `set` at line 194, so `has` stays
  false for such an option. `Examples.VerboseAndLongOutput` shows this.
- The comment on `extract` (commandline.hpp:273-276) says that a token without
  `=` is returned whole. That holds for field 1 only: field 2 then gives `""`
  (commandline.cpp:282-285).

## Model

| member | source | states |
|---|---|---|
| Extraction.EqualsIndex | commandline.cpp:282-295 | the position the split uses, defined by scanning for '=' from the start; it never lies past the end of the token |
| Extraction.ExtractField | commandline.cpp:276-303 | the definition of extract: "" for a field other than 1 or 2; without '=', the whole token for field 1 and "" for field 2; with '=', the part before the first '=' for 1 and the part after it for 2 |
| Extraction.ExtractOption | commandline.cpp:307-310 | extract_option is field 1 of extract |
| Extraction.ExtractValue | commandline.cpp:314-317 | extract_value is field 2 of extract |
| Extraction.EqualsIndexIsFirst | commandline.cpp:282-295 | the split position holds the first '=' of the token; there is none before it; it is inside the token exactly when the token contains '=' |
| Extraction.SplitAtFirstEquals | commandline.cpp:276-303 | the option part is a prefix of the token and has no '='; with '=', option part + "=" + value part is the token; without '=', the option part is the whole token and the value is "" |
| Extraction.SplitIsUnique | commandline.cpp:287-303 | splitting prefix + "=" + value, where prefix has no '=', gives back prefix and value |
| Extraction.Extract | commandline.cpp:276-303 | the index loop returns the field the split defines: "" for a field other than 1 or 2, the part before the first '=' for 1, the part after it for 2 |
| Catalog.IsShortOptionOf | commandline.cpp:406-409 | the definition of is_short_option(data, s): s is the entry's short form |
| Catalog.IsLongOptionOf | commandline.cpp:421-425 | the definition of is_long_option(data, s): s, or its part before the first '=', is the entry's long form |
| Catalog.IsOptionOf | commandline.cpp:390-394 | the definition of is_option(data, s): the short or the long test holds |
| Catalog.FirstMatch | commandline.cpp:259-272 | find_option, scanning the catalog from the front; an index it returns lies inside the catalog |
| Catalog.IsShortOption | commandline.cpp:398-402 | the definition of is_short_option(s): the entry find_option gives for s has s as its short form |
| Catalog.IsLongOption | commandline.cpp:413-417 | the definition of is_long_option(s): the entry find_option gives for s passes the long test for s |
| Catalog.FirstMatchIsEarliest | commandline.cpp:259-272 | find_option returns an entry the token matches, and no earlier entry matches; it returns NULL exactly when no entry matches |
| Catalog.FirstMatchAt | commandline.cpp:259-272 | the first entry a token matches is the one find_option returns |
| Catalog.IsOption | commandline.cpp:383-425 | is_option(s) holds exactly when find_option(s) is not NULL |
| Catalog.IsOptionIffSomeEntry | commandline.cpp:383-394 | is_option(s) holds exactly when some catalog entry matches s by short form, by long form, or by its part before '=' |
| Catalog.ToShortOption | commandline.cpp:321-325 | "" when no catalog entry matches the token; otherwise the short form of the entry k that matches it while no entry before k does |
| Catalog.ToLongOption | commandline.cpp:329-333 | "" when no catalog entry matches the token; otherwise the long form of the entry k that matches it while no entry before k does |
| Catalog.Resolve | commandline.cpp:351-363 | the lookup of to_key: an input without a leading '-' is tried as "--input", and when that finds nothing as "-input"; any other input is looked up as it is |
| Catalog.KeyOf | commandline.cpp:365-378 | the key of an entry: its long form without the two dashes, else its short form without the dash, else "" |
| Catalog.ToKey | commandline.cpp:346-379 | to_key: the key of the entry the input resolves to, "" when it resolves to none |
| Catalog.ConvertsSpellings | commandline.cpp:321-333 | with distinct spellings, to_long_option of an entry's short form is its long form, and to_short_option of its long form is its short form |
| Catalog.SpellingFindsEntry | commandline.cpp:259-272 | with distinct spellings, find_option returns an entry for its own short form and for its own long form |
| Catalog.DashlessLookupOrder | commandline.cpp:346-360 | an input without a leading '-' has the key of "--input" when that matches some entry, and otherwise the key of "-input" |
| Catalog.CanonicalKey | commandline.cpp:346-379 | with distinct spellings, "--output", "output" and the short form of the entry all have the key "output", the long form without its dashes |
| Catalog.ShortOnlyKey | commandline.cpp:362-379 | with distinct spellings, an entry with no long form and short form "-o" has the key "o"; "-o" reaches it, and so does "o" unless "--o" matches an entry |
| Table.SetCodeReports | commandline.cpp:107-116 | the return code of set reports what set did to a consistent table: -1 exactly when the table is left as it was, 0 exactly when the option's key is in the new table with the value as the last of its list |
| Table.FirstValueAfterPut | commandline.cpp:107-124 | get after set: the first set of an option with a key makes get return that value; once the option has a value, further sets never change what get returns; get of every other key is unchanged |
| Table.Put | commandline.cpp:107-116 | the table after set: unchanged when to_key gives "", otherwise the value appended to the list under the key |
| Table.PutAll | commandline.cpp:241-255 | the table after set of one option with each of a list of values in order, as list mode does |
| Table.PutStores | commandline.cpp:107-116 | no key: the table is unchanged; otherwise the value is appended at the end of the list under the key, the key set gains only that key, every other key keeps its list, and a consistent table stays consistent ("" is never a key, every list is non-empty) |
| Table.PutAllAppends | commandline.cpp:107-116 | repeated sets of one option append all the values, in order, after those already under its key |
| Table.PutAllKeepsOthers | commandline.cpp:107-116 | repeated sets of one option leave the lists of every other key as they were |
| Table.PutExtends | commandline.cpp:107-116 | set loses no key and only appends to lists, so the first value under a key never changes |
| Parser.IsHelpOption | commandline.cpp:200-207 | the test of parse_help_option: long form "--help" or short form "-?" |
| Parser.ShortArgument | commandline.cpp:211-224 | parse_short_argument moves the pointer by one, and takes the next token as the value, exactly when a next token exists and no entry of the catalog matches it (by short form, long form, or part before '='); otherwise the pointer stays and the value is "" |
| Parser.Dispatch | commandline.cpp:148-195 | parse_argument returns a pointer at or after the current token and inside argv |
| Parser.Run | commandline.cpp:56-72 | the loop of parse from a cursor: Ok with the table when the cursor is at the end, otherwise one pass and, unless it ends the parse, the loop from where the pass left off |
| Parser.ParseAll | commandline.cpp:56-72 | the whole parse: the loop from argv[1], with the list flag off and argv[1] as the last option token |
| Parser.Advance | commandline.cpp:62-71 | one pass of the loop moves the cursor forward and never past the end of argv |
| Parser.DispatchOfMatchNeverAmbiguous | commandline.cpp:173-190 | for the entry find_option returned, parse_argument never reaches the "unable to determine if long or short" error |
| Parser.AdvanceNeverAmbiguous | commandline.cpp:62-71 | no pass of the loop ends the parse with the Ambiguous error |
| Parser.RunNeverAmbiguous | commandline.cpp:56-72 | the loop, from any point, never ends with the Ambiguous error |
| Parser.DispatchExtends | commandline.cpp:148-195 | parse_argument only extends the table and keeps it consistent |
| Parser.AdvanceExtends | commandline.cpp:62-71 | a pass that goes on only extends the table and keeps it consistent; a pass that ends the parse leaves the table as it was |
| Parser.RunExtends | commandline.cpp:56-72 | the loop only extends the table and keeps it consistent, so `get` keeps returning the first value entered for an option |
| Parser.ParseAllGuarantees | commandline.cpp:56-72 | a whole parse never ends with the Ambiguous error, and its table extends the starting table and is consistent when that one was |
| Parser.AdvanceAtListValue | commandline.cpp:241-255 | in list mode, a token that is not a recognised option is appended under the list option, and list mode goes on with the next token |
| Parser.AdvanceAtUnknown | commandline.cpp:136-144 | outside list mode, a token that matches no entry ends the parse with InvalidOption and the table as it was |
| Parser.AdvanceAtOption | commandline.cpp:62-71 | a recognised token is handed to parse_argument with the list flag off and becomes the last option token; the loop goes on after the pointer parse_argument returns |
| Parser.ListCollects | commandline.cpp:241-255 | in list mode, a run of tokens none of which is a recognised option (unknown "--x" included) is appended, in order, under the list option's key |
| Parser.ListEnds | commandline.cpp:241-255 | in list mode, the first recognised option ends list mode and is parsed as if list mode had been off |
| Parser.UnknownOutsideListMode | commandline.cpp:136-144 | outside list mode, a token that matches no entry ends the parse with InvalidOption of that token |
| Parser.NoArgumentStep | commandline.cpp:158-162 | an option without argument stores nothing and uses no extra token; an entry with long form "--help" or short form "-?" ends the parse with Help |
| Parser.ListOptionStep | commandline.cpp:163-172 | a list option stores nothing and starts list mode under its own token; as the last token it is the MissingListArg error |
| Parser.LongFormStep | commandline.cpp:173-195 | a required or optional option in long form stores the part after '=' under the part before it and uses no extra token |
| Parser.ShortFormStep | commandline.cpp:180-195 | a required or optional option in short form takes and uses the next token as its value when that token exists and is not a recognised option; otherwise it stores "" and uses no extra token |
| CommandLine.Interface.constructor | commandline.cpp:21-23 | the catalog is kept and the table starts empty |
| CommandLine.Interface.FindOption | commandline.cpp:259-272 | the iterator loop returns the entry FirstMatch specifies |
| CommandLine.Interface.Set | commandline.cpp:107-116 | the return code and new table are those of SetCode and Put; after 0 the option is present; after -1 it is absent and get gives ""; get of an option already present is unchanged; get of a newly stored option is the value; the table stays consistent |
| CommandLine.Interface.Has | commandline.cpp:128-132 | has holds exactly when the option's key is in the table, and never for an option without key |
| CommandLine.Interface.Get | commandline.cpp:120-124 | get reports FirstValue of the option's key ("" when it is absent), which Table.FirstValueAfterPut proves to be the value of the first set of that option |
| CommandLine.Interface.ParseShortArgument | commandline.cpp:211-224 | the pointer moves by one exactly when a next token exists and no catalog entry matches it, and that token is then the value; otherwise the pointer stays and the value is "" |
| CommandLine.Interface.ParseLongArgument | commandline.cpp:228-234 | the pointer does not move; the key and value are the two parts of the token split at its first '=' |
| CommandLine.Interface.ParseListArgument | commandline.cpp:241-255 | the token is collected exactly when list mode is on and the token is not a recognised option; then it is appended under the last option, otherwise the table is unchanged |
| CommandLine.Interface.ParseOption | commandline.cpp:136-144 | returns the entry find_option finds; it ends the parse with InvalidOption exactly when the token is no recognised option |
| CommandLine.Interface.ParseArgument | commandline.cpp:148-195 | ends the parse exactly when Dispatch stops, without changing the table; otherwise the pointer, list flag and table it leaves are the ones Dispatch gives |
| CommandLine.Interface.Parse | commandline.cpp:56-72 | the cursor loop ends with the outcome and table ParseAll specifies, and the table stays consistent |
| Examples.VerboseAndLongOutput | commandline.cpp:158-195 | "-v --output=V" stores V under "output" and nothing under "verbose" |
| Examples.RepeatedShortOutput | commandline.cpp:211-224 | "-o A -o B" stores [A, B] under "output" |
| Examples.ShortOutputBeforeOption | commandline.cpp:211-224 | "-o -v" stores "" under "output" and then parses "-v" on its own |
| Examples.HelpRequested | commandline.cpp:200-207 | "-?" ends the parse with Help |
| Examples.UnknownOption | commandline.cpp:136-144 | "--bogus" ends the parse with InvalidOption |
| Examples.TagsCollected | commandline.cpp:241-255 | "--tags X Y" stores [X, Y] under "tags" |
| Examples.UnknownDashTokenIsListValue | commandline.cpp:241-255 | "--tags --bogus" parses with Ok and stores ["--bogus"] under "tags": list mode collects an unknown dash token as a value |
| Examples.TagsWithoutValue | commandline.cpp:163-172 | "--tags" as the last token is the MissingListArg error |

## Left out

- `usage()` and `test()`: they print, and their output is not modelled. The
  help option is modelled only as the decision to stop with `Help`.
- The messages on stderr, the `PROGRAM` macro and `exit()`: each way the
  parse ends is an `Outcome` value. On an error or help outcome the model
  returns the table as it was at that point; the source exits and never uses
  it.
- The NULL-terminated `char**` argument list is a `seq<string>` with an index.
- CommandLine.Interface.Parse requires at least one token after the program
  name. commandline.cpp:59 builds a `std::string` from `argv[1]`, which is
  undefined when it is NULL.
- The constructor requires the catalog condition `WellFormed`: no long form of
  length one. `to_key` calls `substr(2)` on a non-empty long form, and that
  throws for a one-character string (commandline.cpp:365-368).
- The iteration order of the `unordered_map`, which only `test()` shows.
- The branch `if (!data) return NULL;` of `parse_argument`
  (commandline.cpp:153-156). It cannot be reached because `parse_option`
  exits first.
- A C++ `std::string` is a sequence of bytes; a Dafny `string` is a sequence
  of characters. The model reads one character as one byte, and is exact under
  that reading. It differs where a multi-byte character meets a byte count:
  `substr(2)` and `substr(1)` in `to_key` (Catalog.KeyOf) drop characters
  rather than bytes, and the catalog condition `WellFormed` counts characters.
  For the long form "éx" (three bytes in UTF-8), for instance, `substr(2)`
  leaves a one-byte key and `set` returns 0, while the model's key is "" and
  `set` gives -1; and the model refuses the long form "é" (one character, two
  bytes), which the source accepts.
- `extract` keeps the length in an `int`. The model uses unbounded integers,
  so it does not model tokens longer than 2^31 - 1 characters.
- Parser.Dispatch: its own contract only bounds the pointer it returns. What
  it does for each argument type is stated by NoArgumentStep, ListOptionStep,
  LongFormStep and ShortFormStep, through Advance.
- Catalog.ToKey carries no contract of its own. What it computes is stated by
  the lemmas DashlessLookupOrder, CanonicalKey and ShortOnlyKey, and through
  Table.SetCodeReports and CommandLine.Interface.Has.

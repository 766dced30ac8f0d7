/** The data types of the option catalog and of the result table
    (commandline.hpp). */
module Options {

  /** How many command-line tokens an option takes (argument_t). */
  datatype ArgumentType =
    | NoArgument        // the option takes no value
    | RequiredArgument  // one value after the option
    | OptionalArgument  // one optional value after the option
    | ListArgument      // one or more values after the option

  /** One declared option (struct option): short form such as "-o", long form
      such as "--output", the name of its value for the usage text, its
      argument type and a description. */
  datatype OptionDescriptor = OptionDescriptor(
    shortopt: string,
    longopt: string,
    name: string,
    argument: ArgumentType,
    desc: string)

  /** The options a program supports, in declaration order (optlist_t). */
  type OptionList = seq<OptionDescriptor>

  /** The result table: key to the values entered for it, in order (keyval_t). */
  type KeyValues = map<string, seq<string>>

  /** A catalog whose keys can be computed: the key of an option with a long
      form drops the first two characters of that form, which the source does
      with substr(2) and which throws on a one-character string. */
  predicate WellFormed(options: OptionList)
  {
    forall k :: 0 <= k < |options| ==> |options[k].longopt| != 1
  }
}

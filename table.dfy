/** The result table and interface::set (commandline.cpp:107-116), as
    functions on map values. */
module Table {
  import opened Options
  import opened Catalog

  /** What set keeps true of the table: "" is never a key and every key holds
      at least one value (so the at(0) of get never fails). */
  predicate Consistent(t: KeyValues)
  {
    "" !in t && forall key :: key in t ==> t[key] != []
  }

  /** The values stored under key, [] when there are none. */
  function ValuesOf(t: KeyValues, key: string): seq<string>
  {
    if key in t then t[key] else []
  }

  /** The table after set(option, value) (the push_back into m_table). */
  function Put(options: OptionList, t: KeyValues, option: string, value: string): (t': KeyValues)
    requires WellFormed(options)
  {
    var key := ToKey(options, option);
    if key == "" then t else t[key := ValuesOf(t, key) + [value]]
  }

  /** set: when to_key finds no key the table is unchanged; otherwise value is
      appended at the end of the values under the key of option, and every
      other key keeps its values. The table stays consistent. */
  lemma PutStores(options: OptionList, t: KeyValues, option: string, value: string)
    requires WellFormed(options)
    ensures var t' := Put(options, t, option, value);
      var key := ToKey(options, option);
      (key == "" ==> t' == t) &&
      (key != "" ==>
         t'.Keys == t.Keys + {key} &&
         t'[key] == ValuesOf(t, key) + [value] &&
         forall other :: other in t && other != key ==> t'[other] == t[other]) &&
      (Consistent(t) ==> Consistent(t'))
  {
  }

  /** The return code of set: -1 when no key can be found for the option, else 0. */
  function SetCode(options: OptionList, option: string): (code: int)
    requires WellFormed(options)
    ensures code == 0 || code == -1
    ensures code == -1 <==> ToKey(options, option) == ""
  {
    if ToKey(options, option) == "" then -1 else 0
  }

  /** The return code of set reports whether the table changed: -1 exactly
      when set leaves it as it was, and 0 exactly when the option's key is in
      the table afterwards with value as the last of its values. */
  lemma SetCodeReports(options: OptionList, t: KeyValues, option: string, value: string)
    requires WellFormed(options) && Consistent(t)
    ensures SetCode(options, option) == -1 <==> Put(options, t, option, value) == t
    ensures var t' := Put(options, t, option, value);
      SetCode(options, option) == 0 <==>
        ToKey(options, option) in t' && t'[ToKey(options, option)][|t'[ToKey(options, option)]| - 1] == value
  {
    var key := ToKey(options, option);
    var t' := Put(options, t, option, value);
    if key != "" {
      PutStores(options, t, option, value);
      assert |t'[key]| == |ValuesOf(t, key)| + 1;
      assert t' != t by {
        if key in t {
          assert t'[key] != t[key];
        } else {
          assert key in t';
        }
      }
    }
  }

  /** What get reports for a key: the first value stored under it, "" when
      there is none. */
  function FirstValue(t: KeyValues, key: string): (v: string)
  {
    if key in t && t[key] != [] then t[key][0] else ""
  }

  /** get after set: the first set of an option makes get return its value;
      once an option has a value, later sets never change what get returns;
      get of every other key is unaffected. */
  lemma FirstValueAfterPut(options: OptionList, t: KeyValues, option: string, value: string)
    requires WellFormed(options) && Consistent(t)
    ensures var key := ToKey(options, option);
      FirstValue(Put(options, t, option, value), key) ==
        if key != "" && key !in t then value else FirstValue(t, key)
    ensures forall other :: other != ToKey(options, option) ==>
      FirstValue(Put(options, t, option, value), other) == FirstValue(t, other)
  {
    PutStores(options, t, option, value);
  }

  /** set applied to each of values in order. */
  function PutAll(options: OptionList, t: KeyValues, option: string, values: seq<string>): (t': KeyValues)
    requires WellFormed(options)
    decreases |values|
  {
    if values == [] then t
    else PutAll(options, Put(options, t, option, values[0]), option, values[1..])
  }

  /** Storing several values under one option appends all of them, in order,
      at the end of the values under its key. */
  lemma {:induction false} PutAllAppends(options: OptionList, t: KeyValues, option: string, values: seq<string>)
    requires WellFormed(options) && ToKey(options, option) != ""
    ensures ValuesOf(PutAll(options, t, option, values), ToKey(options, option)) ==
      ValuesOf(t, ToKey(options, option)) + values
    decreases |values|
  {
    if values != [] {
      var key := ToKey(options, option);
      var t1 := Put(options, t, option, values[0]);
      assert ValuesOf(t1, key) == ValuesOf(t, key) + [values[0]];
      assert PutAll(options, t, option, values) == PutAll(options, t1, option, values[1..]);
      PutAllAppends(options, t1, option, values[1..]);
      assert values == [values[0]] + values[1..];
      assert ValuesOf(t, key) + values == ValuesOf(t, key) + [values[0]] + values[1..];
    }
  }

  /** Storing several values under one option leaves every other key as it was. */
  lemma {:induction false} PutAllKeepsOthers(options: OptionList, t: KeyValues, option: string,
                                             values: seq<string>, other: string)
    requires WellFormed(options) && other != ToKey(options, option)
    ensures ValuesOf(PutAll(options, t, option, values), other) == ValuesOf(t, other)
    decreases |values|
  {
    if values != [] {
      var t1 := Put(options, t, option, values[0]);
      PutStores(options, t, option, values[0]);
      assert ValuesOf(t1, other) == ValuesOf(t, other);
      PutAllKeepsOthers(options, t1, option, values[1..], other);
    }
  }

  /** t' extends t: no key is lost and each list of values only grows at its end. */
  predicate Extends(t: KeyValues, t': KeyValues)
  {
    forall key :: key in t ==> key in t' && t[key] <= t'[key]
  }

  /** set only extends the table, so the first value under a key never changes. */
  lemma PutExtends(options: OptionList, t: KeyValues, option: string, value: string)
    requires WellFormed(options)
    ensures Extends(t, Put(options, t, option, value))
  {
    PutStores(options, t, option, value);
  }

  lemma ExtendsTransitive(t1: KeyValues, t2: KeyValues, t3: KeyValues)
    requires Extends(t1, t2) && Extends(t2, t3)
    ensures Extends(t1, t3)
  {
  }
}

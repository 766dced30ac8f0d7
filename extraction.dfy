/** Splitting a long-option token "--option=value" at its first '='
    (interface::extract, extract_option, extract_value). */
module Extraction {

  /** The position of the first '=' in s at or after i, |s| when there is
      none. */
  function EqualsIndexFrom(s: string, i: nat): (r: nat)
    requires i <= |s|
    ensures i <= r <= |s|
    decreases |s| - i
  {
    if i == |s| then i
    else if s[i] == '=' then i
    else EqualsIndexFrom(s, i + 1)
  }

  /** The position of the first '=' in s, |s| when s has none (the result of
      std::string::find, with npos written as |s|). */
  function EqualsIndex(s: string): (r: nat)
    ensures r <= |s|
  {
    EqualsIndexFrom(s, 0)
  }

  /** EqualsIndexFrom stops at the first '=' from i on, or at the end. */
  lemma {:induction false} EqualsIndexFromIsFirst(s: string, i: nat)
    requires i <= |s|
    ensures forall k :: i <= k < EqualsIndexFrom(s, i) ==> s[k] != '='
    ensures EqualsIndexFrom(s, i) < |s| ==> s[EqualsIndexFrom(s, i)] == '='
    decreases |s| - i
  {
    if i < |s| && s[i] != '=' {
      EqualsIndexFromIsFirst(s, i + 1);
    }
  }

  /** EqualsIndex is the first '=': there is none before it, and it is one
      unless s has no '=' at all. */
  lemma EqualsIndexIsFirst(s: string)
    ensures forall k :: 0 <= k < EqualsIndex(s) ==> s[k] != '='
    ensures EqualsIndex(s) < |s| ==> s[EqualsIndex(s)] == '='
    ensures EqualsIndex(s) < |s| <==> '=' in s
  {
    EqualsIndexFromIsFirst(s, 0);
  }

  /** The first '=' is the unique position with no '=' before it. */
  lemma EqualsIndexAt(s: string, i: nat)
    requires i < |s| && s[i] == '='
    requires forall k :: 0 <= k < i ==> s[k] != '='
    ensures EqualsIndex(s) == i
  {
    EqualsIndexIsFirst(s);
  }

  /** extract(option, field). */
  function ExtractField(option: string, field: int): (r: string)
  {
    if field != 1 && field != 2 then ""
    else
      var i := EqualsIndex(option);
      if i == |option| then (if field == 1 then option else "")
      else if field == 1 then option[..i] else option[i + 1..]
  }

  /** extract_option: the "--option" part of "--option=value". */
  function ExtractOption(option: string): (r: string)
  {
    ExtractField(option, 1)
  }

  /** extract_value: the "value" part of "--option=value". */
  function ExtractValue(option: string): (r: string)
  {
    ExtractField(option, 2)
  }

  /** The option part of a token is a prefix of it and holds no '='; a token with '=' is its option part, '=', and its value part; a token without '=' is all option part, with
      an empty value. */
  lemma SplitAtFirstEquals(option: string)
    ensures |ExtractOption(option)| <= |option|
    ensures ExtractOption(option) == option[..|ExtractOption(option)|]
    ensures '=' !in ExtractOption(option)
    ensures '=' in option ==>
      ExtractOption(option) + "=" + ExtractValue(option) == option
    ensures '=' !in option ==>
      ExtractOption(option) == option && ExtractValue(option) == ""
  {
    EqualsIndexIsFirst(option);
    var i := EqualsIndex(option);
    if '=' in option {
      assert option == option[..i] + "=" + option[i + 1..];
      assert forall k :: 0 <= k < i ==> option[..i][k] == option[k];
    }
  }

  /** Conversely, the split of prefix + "=" + value, when prefix has no '=',
      gives back prefix and value. */
  lemma SplitIsUnique(prefix: string, value: string)
    requires '=' !in prefix
    ensures ExtractOption(prefix + "=" + value) == prefix
    ensures ExtractValue(prefix + "=" + value) == value
  {
    var s := prefix + "=" + value;
    assert s[|prefix|] == '=';
    forall k | 0 <= k < |prefix| ensures s[k] != '=' {
      assert s[k] == prefix[k];
    }
    EqualsIndexAt(s, |prefix|);
    assert s[..|prefix|] == prefix;
    assert s[|prefix| + 1..] == value;
  }

  /** interface::extract, with the index loop of the source: the same result
      as ExtractField. */
  method Extract(option: string, field: int) returns (r: string)
    ensures r == ExtractField(option, field)
  {
    if field != 1 && field != 2 {
      return "";
    }
    EqualsIndexIsFirst(option);
    if '=' !in option {
      return if field == 1 then option else "";
    }
    var length := |option|;
    var i := 0;
    while i < length
      invariant 0 <= i <= length
      invariant forall k :: 0 <= k < i ==> option[k] != '='
    {
      if option[i] == '=' {
        break;
      }
      i := i + 1;
    }
    EqualsIndexAt(option, i);
    if field == 1 {
      return option[..i];
    }
    i := i + 1;
    return option[i..];
  }
}

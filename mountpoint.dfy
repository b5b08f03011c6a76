/**
 * Mount options as they appear in the fourth field of /proc/self/mounts:
 * `name`, `noname`, `name=value` and `name=v1:v2:...`.
 */
module Mountpoint {
  import opened Wrappers
  import opened Strings

  datatype Value = Boolean(flag: bool) | Number(number: int) | Str(text: string) | List(items: seq<string>)

  datatype MountpointOption = MountpointOption(name: string, value: Value)
  {
    /** `string()`: the option as written in a mount table. */
    function ToString(): (s: string)
      ensures value.Boolean? && value.flag ==> s == name
      ensures value.Boolean? && !value.flag ==> s == "no" + name
      ensures !value.Boolean? ==> HasPrefix(s, name + "=")
      ensures value.List? ==> s[|name| + 1..] == Join(value.items, ':')
      ensures value.Number? ==> s[|name| + 1..] == IntToString(value.number)
      ensures value.Str? ==> s[|name| + 1..] == value.text
    {
      match value
      case List(items) => name + "=" + Join(items, ':')
      case Number(n) => name + "=" + IntToString(n)
      case Str(v) => name + "=" + v
      case Boolean(b) => if b then name else "no" + name
    }
  }

  /** What `from(string:)` does: return an option, or trap at run time. */
  datatype Parsed = Parsed(option: MountpointOption) | Trapped

  /**
   * `from(string:)`. A leading "=" makes `index(before:)` step before the
   * start of the string, which is a run-time trap.
   */
  function From(s: string): (r: Parsed)
    ensures '=' !in s ==> r == Parsed(MountpointOption(s, Boolean(!HasPrefix(s, "no"))))
    ensures s != [] && s[0] == '=' ==> r == Trapped
    ensures r.Trapped? ==> s != [] && s[0] == '='
    ensures r.Parsed? ==> !r.option.value.Number?
  {
    match FirstIndexOf(s, '=')
    case None =>
      if HasPrefix(s, "no") then Parsed(MountpointOption(s, Boolean(false)))
      else Parsed(MountpointOption(s, Boolean(true)))
    case Some(equals) =>
      if equals == 0 then Trapped
      else
        var name := s[..equals];
        var value := s[equals + 1..];
        var values := Split(value, ':');
        if |values| > 0 then Parsed(MountpointOption(name, List(values)))
        else
          assert ParseInt(value) == None by { ColonsAreNotAnInt(value); }
          match ParseInt(value)
          case None => Parsed(MountpointOption(name, Str(value)))
          case Some(number) => Parsed(MountpointOption(name, Number(number)))
  }

  lemma ColonsAreNotAnInt(value: string)
    requires OnlySeparators(value, ':')
    ensures ParseInt(value) == None
  {
    if value != [] {
      assert value[0] == ':';
    }
  }

  /**
   * With an "=" after a non-empty, "="-free name, the name is everything
   * before the first "=" and the value everything after it (later "="
   * included): a list of its non-empty ":"-pieces if there is one, else
   * the raw text.
   */
  lemma FromSplitsAtFirstEquals(name: string, value: string)
    requires name != [] && '=' !in name
    ensures From(name + "=" + value) ==
      Parsed(MountpointOption(name, if Split(value, ':') != [] then List(Split(value, ':')) else Str(value)))
  {
    var s := name + "=" + value;
    FirstIndexOfAfter(name, '=', value);
    assert s[..|name|] == name;
    assert s[|name| + 1..] == value;
  }

  /** A list option with a proper name and non-empty, ":"-free items reads back as itself. */
  lemma ListRoundTrip(name: string, items: seq<string>)
    requires name != [] && '=' !in name
    requires items != [] && forall i :: 0 <= i < |items| ==> items[i] != [] && ':' !in items[i]
    ensures From(MountpointOption(name, List(items)).ToString()) == Parsed(MountpointOption(name, List(items)))
  {
    FromSplitsAtFirstEquals(name, Join(items, ':'));
    SplitJoin(items, ':');
  }

  /** A set flag whose "="-free name does not begin with "no" reads back as itself. */
  lemma EnabledFlagRoundTrip(name: string)
    requires '=' !in name && !HasPrefix(name, "no")
    ensures From(MountpointOption(name, Boolean(true)).ToString()) == Parsed(MountpointOption(name, Boolean(true)))
  {
  }

  /**
   * A cleared flag never reads back as itself: "atime"/false is written
   * "noatime", which reads back as the flag named "noatime", cleared.
   */
  lemma ClearedFlagGainsPrefix(name: string)
    requires '=' !in name
    ensures From(MountpointOption(name, Boolean(false)).ToString()) == Parsed(MountpointOption("no" + name, Boolean(false)))
    ensures From(MountpointOption(name, Boolean(false)).ToString()) != Parsed(MountpointOption(name, Boolean(false)))
  {
    var s := "no" + name;
    assert '=' !in s by { assert forall k :: 2 <= k < |s| ==> s[k] == name[k - 2]; }
    assert s[..2] == "no";
  }

  /** A number option is written as decimal digits and reads back as a one-item list. */
  lemma NumberReadsBackAsList(name: string, n: int)
    requires name != [] && '=' !in name
    ensures From(MountpointOption(name, Number(n)).ToString()) == Parsed(MountpointOption(name, List([IntToString(n)])))
  {
    var digits := IntToString(n);
    FromSplitsAtFirstEquals(name, digits);
    assert FirstIndexOf(digits, ':') == None;
  }

  /**
   * Reading then writing reproduces an option whose value is well separated
   * (non-empty, no leading, trailing or doubled ":").
   */
  lemma WellSeparatedListRoundTrip(name: string, value: string)
    requires name != [] && '=' !in name && WellSeparated(value, ':')
    ensures From(name + "=" + value).Parsed?
    ensures From(name + "=" + value).option.ToString() == name + "=" + value
  {
    FromSplitsAtFirstEquals(name, value);
    JoinSplit(value, ':');
    assert Split(value, ':') != [] by { assert value[0] != ':'; }
  }
}

/**
 * The Swift `String` operations the core relies on, over `seq<char>`
 * (one `char` per Swift `Character`).
 */
module Strings {
  import opened Wrappers

  /** `s.hasPrefix(p)` / `s.starts(with: p)` */
  predicate HasPrefix(s: string, p: string) {
    |p| <= |s| && s[..|p|] == p
  }

  /** `s.firstIndex(of: c)`, as an offset. */
  function FirstIndexOf(s: string, c: char): (r: Option<nat>)
    ensures r.None? <==> c !in s
    ensures r.Some? ==> r.value < |s| && s[r.value] == c && c !in s[..r.value]
  {
    if s == [] then None
    else if s[0] == c then Some(0)
    else
      match FirstIndexOf(s[1..], c)
      case None => None
      case Some(i) =>
        assert s[1..][..i] == s[1..i + 1];
        assert s[..i + 1] == [s[0]] + s[1..i + 1];
        Some(i + 1)
  }

  lemma FirstIndexOfAfter(a: string, c: char, b: string)
    requires c !in a
    ensures FirstIndexOf(a + [c] + b, c) == Some(|a|)
  {
    var s := a + [c] + b;
    assert s[|a|] == c;
    assert s[..|a|] == a;
  }

  /** Every character of `s` is `sep` (vacuously so for the empty string). */
  predicate OnlySeparators(s: string, sep: char)
  {
    forall k :: 0 <= k < |s| ==> s[k] == sep
  }

  /**
   * `s.split(separator: sep)` with Swift's defaults: every maximal run of
   * characters other than `sep`, empty pieces omitted.
   */
  function Split(s: string, sep: char): (pieces: seq<string>)
    ensures forall i :: 0 <= i < |pieces| ==> pieces[i] != [] && sep !in pieces[i]
    ensures pieces == [] <==> OnlySeparators(s, sep)
    decreases |s|
  {
    match FirstIndexOf(s, sep)
    case None => if s == [] then [] else [s]
    case Some(i) =>
      var rest := Split(s[i + 1..], sep);
      assert rest == [] <==> forall k :: i + 1 <= k < |s| ==> s[k] == sep by {
        if rest == [] {
          forall k | i + 1 <= k < |s| ensures s[k] == sep { assert s[i + 1..][k - (i + 1)] == s[k]; }
        }
      }
      assert i == 0 && rest == [] <==> OnlySeparators(s, sep);
      (if i == 0 then [] else [s[..i]]) + rest
  }

  /** `items.joined(separator: [sep])` */
  function Join(items: seq<string>, sep: char): string
    decreases |items|
  {
    if |items| == 0 then []
    else if |items| == 1 then items[0]
    else items[0] + [sep] + Join(items[1..], sep)
  }

  /** Joining non-empty pieces that do not contain the separator, then splitting, gives the pieces back. */
  lemma {:induction false} SplitJoin(items: seq<string>, sep: char)
    requires forall i :: 0 <= i < |items| ==> items[i] != [] && sep !in items[i]
    ensures Split(Join(items, sep), sep) == items
    decreases |items|
  {
    if |items| == 0 {
    } else if |items| == 1 {
      assert FirstIndexOf(items[0], sep) == None;
    } else {
      var rest := Join(items[1..], sep);
      var s := items[0] + [sep] + rest;
      FirstIndexOfAfter(items[0], sep, rest);
      assert s[..|items[0]|] == items[0];
      assert s[|items[0]| + 1..] == rest;
      SplitJoin(items[1..], sep);
      assert [items[0]] + items[1..] == items;
    }
  }

  /** A string whose separators all sit between two non-separator characters. */
  predicate WellSeparated(s: string, sep: char) {
    && s != []
    && s[0] != sep
    && s[|s| - 1] != sep
    && forall k :: 0 <= k < |s| - 1 ==> !(s[k] == sep && s[k + 1] == sep)
  }

  lemma JoinCons(head: string, rest: seq<string>, sep: char)
    requires rest != []
    ensures Join([head] + rest, sep) == head + [sep] + Join(rest, sep)
  {
    assert ([head] + rest)[1..] == rest;
  }

  lemma WellSeparatedTail(s: string, sep: char, i: nat)
    requires WellSeparated(s, sep) && i < |s| - 1 && s[i] == sep
    ensures WellSeparated(s[i + 1..], sep)
  {
    var tail := s[i + 1..];
    assert tail[0] == s[i + 1] && tail[|tail| - 1] == s[|s| - 1];
    forall k | 0 <= k < |tail| - 1 ensures !(tail[k] == sep && tail[k + 1] == sep) {
      assert tail[k] == s[i + 1 + k] && tail[k + 1] == s[i + 1 + k + 1];
    }
  }

  /** A separator at `i > 0`, the first one, cuts off the first piece. */
  lemma SplitAtFirst(s: string, sep: char, i: nat)
    requires FirstIndexOf(s, sep) == Some(i) && i > 0
    ensures Split(s, sep) == [s[..i]] + Split(s[i + 1..], sep)
  {
  }

  /** In a well-separated string the first separator, if any, has a non-separator on each side. */
  lemma FirstSeparatorInside(s: string, sep: char)
    requires WellSeparated(s, sep) && FirstIndexOf(s, sep).Some?
    ensures 0 < FirstIndexOf(s, sep).value < |s| - 1
  {
  }

  /** Joining the first piece with pieces that join back to the text after the separator gives `s`. */
  lemma JoinAtSeparator(s: string, sep: char, i: nat, rest: seq<string>)
    requires i < |s| && s[i] == sep && rest != [] && Join(rest, sep) == s[i + 1..]
    ensures Join([s[..i]] + rest, sep) == s
  {
    JoinCons(s[..i], rest, sep);
    assert s == s[..i] + [sep] + s[i + 1..];
  }

  /** Splitting a well-separated string and joining the pieces gives the string back. */
  lemma {:induction false} JoinSplit(s: string, sep: char)
    requires WellSeparated(s, sep)
    ensures Join(Split(s, sep), sep) == s
    decreases |s|
  {
    if FirstIndexOf(s, sep).None? {
      assert Split(s, sep) == [s];
    } else {
      var i := FirstIndexOf(s, sep).value;
      FirstSeparatorInside(s, sep);
      var tail := s[i + 1..];
      WellSeparatedTail(s, sep, i);
      SplitAtFirst(s, sep, i);
      JoinSplit(tail, sep);
      assert Split(tail, sep) != [] by { assert tail[0] != sep; }
      JoinAtSeparator(s, sep, i, Split(tail, sep));
    }
  }

  /** The first occurrence inside a prefix is the first occurrence of the whole. */
  lemma FirstIndexOfPrefix(a: string, b: string, c: char)
    requires c in a
    ensures FirstIndexOf(a + b, c) == FirstIndexOf(a, c)
  {
    var i := FirstIndexOf(a, c).value;
    assert (a + b)[..i] == a[..i];
    assert (a + b)[i] == c;
  }

  /** A leading separator yields no piece. */
  lemma SplitLeadingSeparator(s: string, sep: char)
    ensures Split([sep] + s, sep) == Split(s, sep)
  {
    assert ([sep] + s)[1..] == s;
  }

  /** A trailing separator yields no piece. */
  lemma {:induction false} SplitTrailingSeparator(s: string, sep: char)
    ensures Split(s + [sep], sep) == Split(s, sep)
    decreases |s|
  {
    if sep !in s {
      FirstIndexOfAfter(s, sep, []);
      assert s + [sep] + [] == s + [sep];
      assert (s + [sep])[..|s|] == s;
      assert (s + [sep])[|s| + 1..] == [];
    } else {
      var i := FirstIndexOf(s, sep).value;
      FirstIndexOfPrefix(s, [sep], sep);
      assert (s + [sep])[..i] == s[..i];
      assert (s + [sep])[i + 1..] == s[i + 1..] + [sep];
      SplitTrailingSeparator(s[i + 1..], sep);
    }
  }

  /** A separator-free `a` followed by a separator is one piece (none if `a` is empty), then the split of the rest. */
  lemma SplitAfterPiece(a: string, t: string, sep: char)
    requires sep !in a
    ensures Split(a + [sep] + t, sep) == (if a == [] then [] else [a]) + Split(t, sep)
  {
    FirstIndexOfAfter(a, sep, t);
    assert (a + [sep] + t)[..|a|] == a && (a + [sep] + t)[|a| + 1..] == t;
    SplitAt(a + [sep] + t, sep, |a|);
  }

  /** After a separator-free `a`, an extra separator in front of `v` splits like `v`. */
  lemma SplitDoubledAfterPiece(a: string, v: string, sep: char)
    requires sep !in a && v != [] && v[0] == sep
    ensures Split(a + ([sep] + v), sep) == Split(a + v, sep)
  {
    var w := v[1..];
    assert v == [sep] + w;
    assert a + ([sep] + v) == a + [sep] + v;
    assert a + v == a + [sep] + w;
    SplitAfterPiece(a, v, sep);
    SplitAfterPiece(a, w, sep);
    SplitLeadingSeparator(w, sep);
  }

  /** `Split` at a known first separator. */
  lemma SplitAt(s: string, sep: char, i: nat)
    requires FirstIndexOf(s, sep) == Some(i)
    ensures Split(s, sep) == (if i == 0 then [] else [s[..i]]) + Split(s[i + 1..], sep)
  {
  }

  /** `a + t` cut at `a`'s first separator. */
  lemma CutInPrefix(a: string, t: string, sep: char, i: nat)
    requires FirstIndexOf(a, sep) == Some(i)
    ensures FirstIndexOf(a + t, sep) == Some(i)
    ensures (a + t)[..i] == a[..i] && (a + t)[i + 1..] == a[i + 1..] + t
  {
    FirstIndexOfPrefix(a, t, sep);
  }

  /**
   * When `a` holds a separator, `a + t1` and `a + t2` split alike if what
   * follows `a`'s first separator does, followed by `t1` and `t2`.
   */
  lemma SplitAfterFirstSeparator(a: string, t1: string, t2: string, sep: char)
    requires sep in a
    requires var r := a[FirstIndexOf(a, sep).value + 1..]; Split(r + t1, sep) == Split(r + t2, sep)
    ensures Split(a + t1, sep) == Split(a + t2, sep)
  {
    var i := FirstIndexOf(a, sep).value;
    CutInPrefix(a, t1, sep, i);
    CutInPrefix(a, t2, sep, i);
    SplitAt(a + t1, sep, i);
    SplitAt(a + t2, sep, i);
  }

  /** An extra separator in front of a tail that starts with one changes nothing. */
  lemma {:induction false} SplitDoubledTail(a: string, v: string, sep: char)
    requires v != [] && v[0] == sep
    ensures Split(a + ([sep] + v), sep) == Split(a + v, sep)
    decreases |a|
  {
    if sep !in a {
      SplitDoubledAfterPiece(a, v, sep);
    } else {
      var r := a[FirstIndexOf(a, sep).value + 1..];
      SplitDoubledTail(r, v, sep);
      SplitAfterFirstSeparator(a, [sep] + v, v, sep);
    }
  }

  /** Two adjacent separators split like one: empty pieces are dropped. */
  lemma SplitDoubledSeparator(a: string, b: string, sep: char)
    ensures Split(a + [sep, sep] + b, sep) == Split(a + [sep] + b, sep)
  {
    SplitDoubledTail(a, [sep] + b, sep);
    assert a + [sep, sep] + b == a + ([sep] + ([sep] + b));
    assert a + [sep] + b == a + ([sep] + b);
  }

  predicate IsDigit(c: char) {
    '0' <= c <= '9'
  }

  /** Every character of `ds` is a decimal digit. */
  predicate AllDigits(ds: string) {
    forall k :: 0 <= k < |ds| ==> IsDigit(ds[k])
  }

  /** Decimal digits of `n`, most significant first, with no leading zero. */
  function NatToString(n: nat): (s: string)
    ensures s != [] && AllDigits(s)
    ensures s[0] == '0' <==> n == 0
    ensures n == 0 ==> s == "0"
    ensures |s| > 1 ==> s[0] != '0'
  {
    var last := ['0' + (n % 10) as char];
    if n < 10 then last else NatToString(n / 10) + last
  }

  /** `"\(n)"` for an `Int`: a "-" exactly for negatives, then digits with no leading zero. */
  function IntToString(n: int): (s: string)
    ensures s != []
    ensures s[0] == '-' <==> n < 0
    ensures s[0] != '-' ==> IsDigit(s[0])
    ensures forall k :: 0 < k < |s| ==> IsDigit(s[k])
    ensures s[0] == '-' ==> |s| > 1 && s[1] != '0'
    ensures |s| > 1 ==> s[0] != '0'
  {
    if n < 0 then "-" + NatToString(-n) else NatToString(n)
  }

  /** The value of a string of decimal digits. */
  function DigitsValue(ds: string): nat
    requires AllDigits(ds)
    decreases |ds|
  {
    if ds == [] then 0
    else
      assert IsDigit(ds[|ds| - 1]);
      DigitsValue(ds[..|ds| - 1]) * 10 + (ds[|ds| - 1] as int - '0' as int)
  }

  /** `s` without its leading "+" or "-", if any. */
  function Unsigned(s: string): (ds: string)
    ensures s != [] && (s[0] == '+' || s[0] == '-') ==> ds == s[1..]
    ensures s == [] || (s[0] != '+' && s[0] != '-') ==> ds == s
  {
    if s != [] && (s[0] == '-' || s[0] == '+') then s[1..] else s
  }

  /**
   * `Int(s)`: an optional sign followed by at least one decimal digit,
   * whose value fits a 64-bit `Int`.
   */
  function ParseInt(s: string): (r: Option<int>)
    ensures r.Some? ==> s != [] && (IsDigit(s[0]) || s[0] == '+' || s[0] == '-')
    ensures r.Some? ==> -0x8000_0000_0000_0000 <= r.value <= 0x7fff_ffff_ffff_ffff
  {
    var digits := Unsigned(s);
    if digits == [] || !AllDigits(digits) then None
    else
      var magnitude: int := DigitsValue(digits);
      var v := if s[0] == '-' then -magnitude else magnitude;
      if -0x8000_0000_0000_0000 <= v <= 0x7fff_ffff_ffff_ffff then Some(v) else None
  }

  /** The digits of `n` denote `n`. */
  lemma {:induction false} NatToStringValue(n: nat)
    ensures DigitsValue(NatToString(n)) == n
  {
    if n >= 10 {
      NatToStringValue(n / 10);
      var s := NatToString(n);
      assert s[..|s| - 1] == NatToString(n / 10);
    }
  }

  /** `Int(s)` of a string of digits, optionally signed, is its value when that fits 64 bits, and nil otherwise. */
  lemma ParseIntDigits(sign: string, ds: string)
    requires sign == "" || sign == "+" || sign == "-"
    requires ds != [] && AllDigits(ds)
    ensures var v := if sign == "-" then -(DigitsValue(ds) as int) else DigitsValue(ds) as int;
            ParseInt(sign + ds) ==
              if -0x8000_0000_0000_0000 <= v <= 0x7fff_ffff_ffff_ffff then Some(v) else None
  {
    var s := sign + ds;
    assert IsDigit(ds[0]);
    assert s[0] == if sign == "" then ds[0] else sign[0];
    assert sign != "" ==> s[1..] == ds;
    assert sign == "" ==> s == ds;
  }

  /** `Int(s)` is nil when a character after the optional sign is not a digit. */
  lemma ParseIntRejects(s: string, k: nat)
    requires k < |s| && !IsDigit(s[k]) && (k == 0 ==> s[0] != '+' && s[0] != '-')
    ensures ParseInt(s) == None
  {
    if s[0] == '-' || s[0] == '+' {
      assert Unsigned(s)[k - 1] == s[k];
    } else {
      assert Unsigned(s)[k] == s[k];
    }
  }

  /** `Int(s)` is nil for a lone sign and for the empty string. */
  lemma ParseIntNoDigits(s: string)
    requires s == "" || s == "+" || s == "-"
    ensures ParseInt(s) == None
  {
  }

  /** Printing an `Int` and reading it back gives the same `Int`. */
  lemma ParseIntToString(n: int)
    requires -0x8000_0000_0000_0000 <= n <= 0x7fff_ffff_ffff_ffff
    ensures ParseInt(IntToString(n)) == Some(n)
  {
    var sign := if n < 0 then "-" else "";
    var ds := NatToString(if n < 0 then -n else n);
    NatToStringValue(if n < 0 then -n else n);
    ParseIntDigits(sign, ds);
    assert IntToString(n) == sign + ds;
  }
}

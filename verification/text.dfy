/**
  The string primitives the gate borrows from Python: `int()` and `str()` on non-negative
  decimal numerals, and `str.split` on a single separator character.
 */
module Text {

  predicate IsDigit(c: char) {
    '0' <= c <= '9'
  }

  predicate AllDigits(t: string) {
    forall i :: 0 <= i < |t| ==> IsDigit(t[i])
  }

  /** The shape of the group `0|[1-9]\d*`: a bare zero, or digits without a leading zero. */
  predicate Canonical(t: string) {
    |t| >= 1 && AllDigits(t) && (t[0] == '0' ==> |t| == 1)
  }

  function DigitValue(c: char): nat
    requires IsDigit(c)
  {
    c as int - '0' as int
  }

  function DigitChar(d: nat): (c: char)
    requires d < 10
    ensures IsDigit(c) && DigitValue(c) == d
  {
    ('0' as int + d) as char
  }

  /** `int(t)` on a run of ASCII digits. */
  function ParseNat(t: string): nat
    requires AllDigits(t)
    decreases |t|
  {
    if |t| == 0 then 0 else 10 * ParseNat(t[..|t| - 1]) + DigitValue(t[|t| - 1])
  }

  /** `str(n)`: the decimal numeral of n, which is always canonical. */
  function ShowNat(n: nat): (t: string)
    ensures Canonical(t)
    ensures t[0] == '0' <==> n == 0
    decreases n
  {
    if n < 10 then [DigitChar(n)] else ShowNat(n / 10) + [DigitChar(n % 10)]
  }

  /** Reading back a printed number gives the number. */
  lemma {:induction false} ParseShowNat(n: nat)
    ensures ParseNat(ShowNat(n)) == n
    decreases n
  {
    if n >= 10 {
      var t := ShowNat(n);
      assert t[..|t| - 1] == ShowNat(n / 10);
      ParseShowNat(n / 10);
    }
  }

  /** A numeral that does not start with zero denotes a positive number, at least 10 when it has two digits or more. */
  lemma {:induction false} ParseNatLeadingDigit(t: string)
    requires AllDigits(t) && |t| >= 1 && t[0] != '0'
    ensures ParseNat(t) >= 1
    ensures |t| >= 2 ==> ParseNat(t) >= 10
    decreases |t|
  {
    if |t| >= 2 {
      var p := t[..|t| - 1];
      assert p[0] == t[0];
      ParseNatLeadingDigit(p);
    }
  }

  /** Printing the number a canonical numeral denotes gives back that numeral. */
  lemma {:induction false} ShowParseNat(t: string)
    requires Canonical(t)
    ensures ShowNat(ParseNat(t)) == t
    decreases |t|
  {
    if |t| >= 2 {
      var p := t[..|t| - 1];
      assert p[0] == t[0];
      ParseNatLeadingDigit(p);
      ShowParseNat(p);
      var n := ParseNat(t);
      assert n / 10 == ParseNat(p) && n % 10 == DigitValue(t[|t| - 1]);
      assert t == p + [t[|t| - 1]];
    }
  }

  /** `s.split(sep)`: the pieces between occurrences of sep, at least one, none containing sep. */
  function Split(s: string, sep: char): (parts: seq<string>)
    ensures |parts| >= 1
    ensures forall i :: 0 <= i < |parts| ==> sep !in parts[i]
    decreases |s|
  {
    if |s| == 0 then [""]
    else
      var rest := Split(s[1..], sep);
      if s[0] == sep then [""] + rest else [[s[0]] + rest[0]] + rest[1..]
  }

  /** `sep.join(parts)`. */
  function Join(parts: seq<string>, sep: char): string
    requires |parts| >= 1
    decreases |parts|
  {
    if |parts| == 1 then parts[0] else parts[0] + ([sep] + Join(parts[1..], sep))
  }

  /** Joining the pieces of a split with the same separator restores the string. */
  lemma {:induction false} JoinSplit(s: string, sep: char)
    ensures Join(Split(s, sep), sep) == s
    decreases |s|
  {
    if |s| > 0 {
      var rest := Split(s[1..], sep);
      JoinSplit(s[1..], sep);
      if s[0] == sep {
        assert ([""] + rest)[1..] == rest;
      } else if |rest| > 1 {
        var parts := [[s[0]] + rest[0]] + rest[1..];
        assert parts[1..] == rest[1..];
        assert Join(rest, sep) == rest[0] + ([sep] + Join(rest[1..], sep));
      }
    }
  }

  /** A string free of the separator splits into itself alone. */
  lemma {:induction false} SplitNoSep(a: string, sep: char)
    requires sep !in a
    ensures Split(a, sep) == [a]
    decreases |a|
  {
    if |a| > 0 {
      assert a[0] in a;
      assert forall c :: c in a[1..] ==> c in a;
      SplitNoSep(a[1..], sep);
      assert [a[0]] + a[1..] == a;
    }
  }

  /** Splitting at the first separator: the separator-free prefix becomes the first piece. */
  lemma {:induction false} SplitAtSep(a: string, b: string, sep: char)
    requires sep !in a
    ensures Split(a + ([sep] + b), sep) == [a] + Split(b, sep)
    decreases |a|
  {
    var s := a + ([sep] + b);
    if |a| == 0 {
      assert s[1..] == b;
    } else {
      assert a[0] in a;
      assert forall c :: c in a[1..] ==> c in a;
      assert s[1..] == a[1..] + ([sep] + b);
      SplitAtSep(a[1..], b, sep);
      assert [a[0]] + a[1..] == a;
    }
  }

  /** A run of digits contains no separator other than a digit. */
  lemma DigitsHaveNoSep(t: string, sep: char)
    requires AllDigits(t) && !IsDigit(sep)
    ensures sep !in t
  {
  }
}

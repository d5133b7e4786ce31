/**
  `SEMVER_RE`, `semver_tuple` and Python's ordering of the resulting tuples.

  The pattern `^(0|[1-9]\d*)\.(0|[1-9]\d*)\.(0|[1-9]\d*)$` is modelled by a scanner. Each group
  is deterministic: a leading `0` can only be the first alternative, and a greedy `\d*` is the only
  run that can be followed by `.` or by the end, so backtracking never finds another match.
 */
module Semver {
  import opened Wrappers
  import opened Text

  /** The tuple `(major, minor, patch)` that `semver_tuple` returns. */
  datatype Version = Version(major: nat, minor: nat, patch: nat)

  /** `\d*`, greedy: the longest leading run of ASCII digits of s, and what follows it. */
  function DigitRun(s: string): (r: (string, string))
    ensures AllDigits(r.0) && s == r.0 + r.1
    ensures |r.1| == 0 || !IsDigit(r.1[0])
    decreases |s|
  {
    if |s| > 0 && IsDigit(s[0]) then
      var r := DigitRun(s[1..]);
      assert s == [s[0]] + r.0 + r.1;
      ([s[0]] + r.0, r.1)
    else ("", s)
  }

  /** The group `(0|[1-9]\d*)` at the start of s: the numeral it matches and what follows, if it matches. */
  function Group(s: string): (r: Option<(string, string)>)
    ensures r.Some? ==> Canonical(r.value.0) && s == r.value.0 + r.value.1
  {
    if |s| > 0 && s[0] == '0' then
      assert s == "0" + s[1..];
      Some(("0", s[1..]))
    else if |s| > 0 && '1' <= s[0] <= '9' then
      var r := DigitRun(s[1..]);
      assert s == [s[0]] + r.0 + r.1;
      Some(([s[0]] + r.0, r.1))
    else None
  }

  /** The string `f"{a}.{b}.{c}"`. */
  function Dotted(a: string, b: string, c: string): string {
    a + (['.'] + (b + (['.'] + c)))
  }

  /**
    The match of `^(0|[1-9]\d*)\.(0|[1-9]\d*)\.(0|[1-9]\d*)` at the start of s, if any: the three
    numerals it matched and what is left after them.
   */
  function Prefix(s: string): (r: Option<(string, string, string, string)>)
    ensures r.Some? ==> Canonical(r.value.0) && Canonical(r.value.1) && Canonical(r.value.2)
  {
    match Group(s)
    case None => None
    case Some(g1) =>
      if |g1.1| > 0 && g1.1[0] == '.' then
        match Group(g1.1[1..])
        case None => None
        case Some(g2) =>
          if |g2.1| > 0 && g2.1[0] == '.' then
            match Group(g2.1[1..])
            case None => None
            case Some(g3) => Some((g1.0, g2.0, g3.0, g3.1))
          else None
      else None
  }

  /**
    `SEMVER_RE.match(s)` as written. Without MULTILINE, Python's `$` matches at the end of the
    string and also just before a newline that ends it.
   */
  predicate Matches(s: string) {
    Prefix(s).Some? && (Prefix(s).value.3 == "" || Prefix(s).value.3 == "\n")
  }

  /** The anchoring the pattern evidently intends: the three groups make up the whole string. */
  predicate FullMatches(s: string) {
    Prefix(s).Some? && Prefix(s).value.3 == ""
  }

  /**
    Which end anchor the validator applies: Python's `$` as the pattern is written, which also
    matches before a final newline, or the end of the whole string, as the pattern intends.
   */
  datatype Anchoring = Dollar | WholeString

  /** The validator's semver test under the given anchoring. */
  predicate Accepts(anchoring: Anchoring, s: string)
    ensures FullMatches(s) ==> Accepts(anchoring, s)
    ensures Accepts(anchoring, s) ==> Matches(s)
    ensures anchoring == WholeString ==> (Accepts(anchoring, s) <==> FullMatches(s))
    ensures anchoring == Dollar ==> (Accepts(anchoring, s) <==> Matches(s))
  {
    match anchoring
    case Dollar => Matches(s)
    case WholeString => FullMatches(s)
  }

  /** Reference reading of a version string: exactly three `.`-separated canonical numerals. */
  predicate WellFormed(s: string) {
    var parts := Split(s, '.');
    |parts| == 3 && Canonical(parts[0]) && Canonical(parts[1]) && Canonical(parts[2])
  }

  lemma StartsWithDot(x: string)
    requires |x| > 0 && x[0] == '.'
    ensures x == ['.'] + x[1..]
  {
  }

  /** A matched prefix is the three numerals with their dots, followed by the rest. */
  lemma PrefixParts(s: string)
    requires Prefix(s).Some?
    ensures var (a, b, c, rest) := Prefix(s).value;
      s == Dotted(a, b, c + rest)
  {
    var g1 := Group(s).value;
    var g2 := Group(g1.1[1..]).value;
    StartsWithDot(g1.1);
    StartsWithDot(g2.1);
  }

  lemma JoinThree(parts: seq<string>)
    requires |parts| == 3
    ensures Join(parts, '.') == Dotted(parts[0], parts[1], parts[2])
  {
    assert parts[1..][1..] == [parts[2]];
    assert Join(parts[1..][1..], '.') == parts[2];
  }

  /** A digit run followed by a non-digit is exactly what `\d*` takes. */
  lemma {:induction false} DigitRunOf(t: string, post: string)
    requires AllDigits(t) && (|post| == 0 || !IsDigit(post[0]))
    ensures DigitRun(t + post) == (t, post)
    decreases |t|
  {
    if |t| > 0 {
      assert (t + post)[0] == t[0];
      assert (t + post)[1..] == t[1..] + post;
      DigitRunOf(t[1..], post);
      assert [t[0]] + t[1..] == t;
    } else {
      assert t + post == post;
    }
  }

  /** A canonical numeral followed by a non-digit is exactly what the group takes. */
  lemma GroupOf(t: string, post: string)
    requires Canonical(t) && (|post| == 0 || !IsDigit(post[0]))
    ensures Group(t + post) == Some((t, post))
  {
    assert (t + post)[0] == t[0];
    assert (t + post)[1..] == t[1..] + post;
    if t[0] != '0' {
      DigitRunOf(t[1..], post);
      assert [t[0]] + t[1..] == t;
    }
  }

  /** Three canonical numerals joined by `.`, then a rest that does not start with a digit, match the prefix. */
  lemma PrefixOf(a: string, b: string, c: string, rest: string)
    requires Canonical(a) && Canonical(b) && Canonical(c) && (|rest| == 0 || !IsDigit(rest[0]))
    ensures Prefix(Dotted(a, b, c + rest)) == Some((a, b, c, rest))
  {
    GroupOf(a, ['.'] + (b + (['.'] + (c + rest))));
    assert (['.'] + (b + (['.'] + (c + rest))))[1..] == b + (['.'] + (c + rest));
    GroupOf(b, ['.'] + (c + rest));
    assert (['.'] + (c + rest))[1..] == c + rest;
    GroupOf(c, rest);
  }

  /** Three numerals joined by `.` split back into those numerals. */
  lemma SplitThree(a: string, b: string, c: string)
    requires AllDigits(a) && AllDigits(b) && AllDigits(c)
    ensures Split(Dotted(a, b, c), '.') == [a, b, c]
  {
    DigitsHaveNoSep(a, '.');
    DigitsHaveNoSep(b, '.');
    DigitsHaveNoSep(c, '.');
    SplitAtSep(a, b + (['.'] + c), '.');
    SplitAtSep(b, c, '.');
    SplitNoSep(c, '.');
  }

  /** The scanner's anchored match is exactly the split-based reading. */
  lemma FullMatchesIffWellFormed(s: string)
    ensures FullMatches(s) <==> WellFormed(s)
  {
    if FullMatches(s) {
      var (a, b, c, rest) := Prefix(s).value;
      PrefixParts(s);
      assert c + rest == c;
      SplitThree(a, b, c);
    }
    if WellFormed(s) {
      var parts := Split(s, '.');
      JoinSplit(s, '.');
      JoinThree(parts);
      assert parts[2] + "" == parts[2];
      PrefixOf(parts[0], parts[1], parts[2], "");
    }
  }

  /** The pattern as written accepts exactly the intended version strings and each of them followed by a newline. */
  lemma MatchesAsWritten(s: string)
    ensures Matches(s) <==> FullMatches(s) || (|s| >= 1 && s[|s| - 1] == '\n' && FullMatches(s[..|s| - 1]))
  {
    if Matches(s) && !FullMatches(s) {
      MatchedBeforeNewline(s);
    }
    if |s| >= 1 && s[|s| - 1] == '\n' && FullMatches(s[..|s| - 1]) {
      NewlineAfterMatch(s);
    }
  }

  /** What `$` lets through besides a full match: a full match followed by one newline. */
  lemma MatchedBeforeNewline(s: string)
    requires Matches(s) && !FullMatches(s)
    ensures |s| >= 1 && s[|s| - 1] == '\n' && FullMatches(s[..|s| - 1])
    ensures s == s[..|s| - 1] + "\n"
  {
    var (a, b, c, rest) := Prefix(s).value;
    PrefixParts(s);
    NewlineAfter(a, b, c);
    assert c + "" == c;
    PrefixOf(a, b, c, "");
  }

  /** A full match followed by a newline is still a match of the pattern as written. */
  lemma NewlineAfterMatch(s: string)
    requires |s| >= 1 && s[|s| - 1] == '\n' && FullMatches(s[..|s| - 1])
    ensures Matches(s)
  {
    var p := s[..|s| - 1];
    assert s == p + "\n";
    var (a, b, c, rest) := Prefix(p).value;
    PrefixParts(p);
    assert c + rest == c;
    NewlineAfter(a, b, c);
    PrefixOf(a, b, c, "\n");
  }

  /** A newline after a dotted version is a newline after its last numeral. */
  lemma NewlineAfter(a: string, b: string, c: string)
    ensures Dotted(a, b, c) + "\n" == Dotted(a, b, c + "\n")
    ensures var s := Dotted(a, b, c + "\n"); s[..|s| - 1] == Dotted(a, b, c)
  {
    var s := Dotted(a, b, c + "\n");
    assert Dotted(a, b, c) + "\n" == s;
  }

  /**
    `semver_tuple(s)`: split on `.` and apply `int()` to each of the three pieces. On a string the
    intended pattern accepts, the tuple renders back to that very string.
   */
  function Parse(s: string): (v: Version)
    requires FullMatches(s)
    ensures Render(v) == s
  {
    FullMatchesIffWellFormed(s);
    var parts := Split(s, '.');
    JoinSplit(s, '.');
    JoinThree(parts);
    ShowParseNat(parts[0]);
    ShowParseNat(parts[1]);
    ShowParseNat(parts[2]);
    Version(ParseNat(parts[0]), ParseNat(parts[1]), ParseNat(parts[2]))
  }

  /** The string `f"{major}.{minor}.{patch}"`. */
  function Render(v: Version): string {
    Dotted(ShowNat(v.major), ShowNat(v.minor), ShowNat(v.patch))
  }

  /** Every triple of naturals renders to an accepted version string that parses back to it. */
  lemma RenderRoundTrip(v: Version)
    ensures FullMatches(Render(v))
    ensures Parse(Render(v)) == v
  {
    var a, b, c := ShowNat(v.major), ShowNat(v.minor), ShowNat(v.patch);
    assert c + "" == c;
    PrefixOf(a, b, c, "");
    SplitThree(a, b, c);
    ParseShowNat(v.major);
    ParseShowNat(v.minor);
    ParseShowNat(v.patch);
  }

  /**
    `semver_tuple` on a string the pattern accepts as written: `int()` ignores the final newline,
    so such a string parses to the tuple whose rendering it extends by that newline.
   */
  function ParseAsWritten(s: string): (v: Version)
    requires Matches(s)
    ensures FullMatches(s) ==> v == Parse(s)
    ensures !FullMatches(s) ==> s == Render(v) + "\n"
  {
    if FullMatches(s) then Parse(s)
    else
      MatchedBeforeNewline(s);
      Parse(s[..|s| - 1])
  }

  /** A full match ends in a digit: the last numeral is never empty. */
  lemma FullMatchEndsInDigit(s: string)
    ensures FullMatches(s) ==> |s| > 0 && IsDigit(s[|s| - 1])
  {
    if FullMatches(s) {
      var (a, b, c, rest) := Prefix(s).value;
      PrefixParts(s);
      assert c + rest == c;
      DottedLast(a, b, c);
    }
  }

  /** A dotted version ends with the last character of its last numeral. */
  lemma DottedLast(a: string, b: string, c: string)
    requires |c| > 0
    ensures var d := Dotted(a, b, c); |d| > 0 && d[|d| - 1] == c[|c| - 1]
  {
    var tail := ['.'] + c;
    assert tail[|tail| - 1] == c[|c| - 1];
    var mid := b + tail;
    assert mid[|mid| - 1] == c[|c| - 1];
    var dot := ['.'] + mid;
    assert dot[|dot| - 1] == c[|c| - 1];
  }

  /**
    An intended version string followed by a newline matches the pattern as written, and only as
    written. `NewlineAccepted` adds how it parses; this part is kept apart for proofs about the
    validator, which need the match and not the parse.
   */
  lemma NewlineMatches(s: string)
    requires FullMatches(s)
    ensures Matches(s + "\n") && !FullMatches(s + "\n")
  {
    var t := s + "\n";
    assert t[..|t| - 1] == s;
    NewlineAfterMatch(t);
    FullMatchEndsInDigit(t);
  }

  /**
    Every intended version string followed by a newline passes the pattern as written, is not
    itself an intended version string, and is compared as the version it extends.
   */
  lemma NewlineAccepted(s: string)
    requires FullMatches(s)
    ensures Matches(s + "\n") && !FullMatches(s + "\n")
    ensures ParseAsWritten(s + "\n") == Parse(s)
  {
    var t := s + "\n";
    NewlineMatches(s);
    assert t[..|t| - 1] == s;
  }

  /** The pattern as written lets a version followed by a newline through, and it does not round-trip. */
  lemma TrailingNewlineAccepted()
    ensures Matches("1.2.3\n") && !FullMatches("1.2.3\n")
    ensures ParseAsWritten("1.2.3\n") == Version(1, 2, 3)
    ensures Render(ParseAsWritten("1.2.3\n")) != "1.2.3\n"
  {
    var v := Version(1, 2, 3);
    RenderRoundTrip(v);
    assert Render(v) == "1.2.3";
    NewlineAccepted("1.2.3");
    assert "1.2.3" + "\n" == "1.2.3\n";
  }

  /** Python's `<` on tuples of ints: the first position that differs decides; a proper prefix is smaller. */
  predicate SeqLess(a: seq<int>, b: seq<int>)
    decreases |a|
  {
    if |a| == 0 then |b| > 0
    else if |b| == 0 then false
    else if a[0] != b[0] then a[0] < b[0]
    else SeqLess(a[1..], b[1..])
  }

  function AsTuple(v: Version): seq<int> {
    [v.major, v.minor, v.patch]
  }

  /** `a < b` on the tuples `semver_tuple` returns. */
  predicate Less(a: Version, b: Version) {
    SeqLess(AsTuple(a), AsTuple(b))
  }

  /** `a <= b` on the same tuples. */
  predicate LessEq(a: Version, b: Version) {
    Less(a, b) || AsTuple(a) == AsTuple(b)
  }

  /** Tuple comparison is precedence by major, then minor, then patch. */
  lemma LessIsPrecedence(a: Version, b: Version)
    ensures Less(a, b) <==>
      a.major < b.major
      || (a.major == b.major && a.minor < b.minor)
      || (a.major == b.major && a.minor == b.minor && a.patch < b.patch)
  {
    var x, y := AsTuple(a), AsTuple(b);
    assert x[1..] == [a.minor, a.patch] && y[1..] == [b.minor, b.patch];
    assert x[1..][1..] == [a.patch] && y[1..][1..] == [b.patch];
    assert x[1..][1..][1..] == [] && y[1..][1..][1..] == [];
    assert SeqLess(x[1..][1..], y[1..][1..]) <==> a.patch < b.patch;
    assert SeqLess(x[1..], y[1..]) <==> a.minor < b.minor || (a.minor == b.minor && a.patch < b.patch);
  }

  /** `Less` is a strict total order on versions. */
  lemma LessIsStrictTotalOrder(a: Version, b: Version, c: Version)
    ensures !Less(a, a)
    ensures Less(a, b) && Less(b, c) ==> Less(a, c)
    ensures a != b ==> Less(a, b) || Less(b, a)
    ensures !(Less(a, b) && Less(b, a))
  {
    LessIsPrecedence(a, a);
    LessIsPrecedence(a, b);
    LessIsPrecedence(b, a);
    LessIsPrecedence(b, c);
    LessIsPrecedence(a, c);
  }

  /** `a <= b` is the negation of `b < a`; equal tuples are equal versions. */
  lemma LessEqIsNotGreater(a: Version, b: Version)
    ensures LessEq(a, b) <==> !Less(b, a)
    ensures LessEq(a, b) <==> Less(a, b) || a == b
  {
    LessIsStrictTotalOrder(a, b, a);
    assert AsTuple(a) == AsTuple(b) ==> a == b by {
      if AsTuple(a) == AsTuple(b) {
        assert AsTuple(a)[0] == AsTuple(b)[0] && AsTuple(a)[1] == AsTuple(b)[1] && AsTuple(a)[2] == AsTuple(b)[2];
      }
    }
  }
}

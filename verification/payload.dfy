/**
  `validate_payload`: the checks a version record must pass, made in a fixed order, the first
  failure deciding the diagnostic.
 */
module Payload {
  import opened Wrappers
  import opened Json
  import Semver

  const VersionKey := "marketing_version"
  const BuildKey := "build_number"

  /** The checks, in the order the validator makes them. */
  datatype Check =
    | MissingVersion
    | MissingBuild
    | VersionNotString
    | VersionNotSemver
    | BuildNotInteger
    | BuildNegative

  function Rank(c: Check): nat {
    match c
    case MissingVersion => 0
    case MissingBuild => 1
    case VersionNotString => 2
    case VersionNotSemver => 3
    case BuildNotInteger => 4
    case BuildNegative => 5
  }

  /** A version record that passed validation. */
  datatype Record = Record(marketingVersion: string, buildNumber: nat)

  /** The record's version string passes the semver test under the given anchoring. */
  predicate Valid(anchoring: Semver.Anchoring, r: Record) {
    Semver.Accepts(anchoring, r.marketingVersion)
  }

  /** The payload, taken on its own, fails check c (whatever the other checks say). */
  predicate Violated(anchoring: Semver.Anchoring, c: Check, p: Object) {
    match c
    case MissingVersion => VersionKey !in p
    case MissingBuild => BuildKey !in p
    case VersionNotString => VersionKey in p && !p[VersionKey].JString?
    case VersionNotSemver =>
      VersionKey in p && p[VersionKey].JString? && !Semver.Accepts(anchoring, p[VersionKey].s)
    case BuildNotInteger => BuildKey in p && !IsPythonInt(p[BuildKey])
    case BuildNegative => BuildKey in p && IsPythonInt(p[BuildKey]) && IntValue(p[BuildKey]) < 0
  }

  /**
    Validates a decoded version record: the first check it fails is reported, and it is accepted
    exactly when it fails none, yielding the version string and build number it holds. With the
    `Dollar` anchoring this is the validator as written; with `WholeString`, as intended.
   */
  function Validate(anchoring: Semver.Anchoring, p: Object): (r: Result<Record, Check>)
    ensures r.Failure? ==> Violated(anchoring, r.error, p)
    ensures r.Failure? ==> forall c :: Rank(c) < Rank(r.error) ==> !Violated(anchoring, c, p)
    ensures r.Success? <==> forall c :: !Violated(anchoring, c, p)
    ensures r.Success? ==>
      && Valid(anchoring, r.value)
      && VersionKey in p && p[VersionKey] == JString(r.value.marketingVersion)
      && BuildKey in p && IsPythonInt(p[BuildKey]) && IntValue(p[BuildKey]) == r.value.buildNumber
  {
    if VersionKey !in p then assert Violated(anchoring, MissingVersion, p); Failure(MissingVersion)
    else if BuildKey !in p then assert Violated(anchoring, MissingBuild, p); Failure(MissingBuild)
    else
      var version := p[VersionKey];
      var build := p[BuildKey];
      if !version.JString? then assert Violated(anchoring, VersionNotString, p); Failure(VersionNotString)
      else if !Semver.Accepts(anchoring, version.s) then assert Violated(anchoring, VersionNotSemver, p); Failure(VersionNotSemver)
      else if !IsPythonInt(build) then assert Violated(anchoring, BuildNotInteger, p); Failure(BuildNotInteger)
      else if IntValue(build) < 0 then assert Violated(anchoring, BuildNegative, p); Failure(BuildNegative)
      else Success(Record(version.s, IntValue(build)))
  }

  /**
    The validator as written and as intended disagree only on a version string that is an intended
    one followed by a newline: the intended validator rejects it as not semver, the written one does not.
   */
  lemma AnchoringsDisagreeOnlyOnNewline(p: Object)
    ensures Validate(Semver.WholeString, p).Success? ==>
      Validate(Semver.Dollar, p) == Validate(Semver.WholeString, p)
    ensures Validate(Semver.Dollar, p) != Validate(Semver.WholeString, p) ==>
      && Validate(Semver.WholeString, p) == Failure(VersionNotSemver)
      && VersionKey in p && p[VersionKey].JString?
      && var s := p[VersionKey].s;
         |s| >= 1 && s[|s| - 1] == '\n' && Semver.FullMatches(s[..|s| - 1])
  {
    if VersionKey in p && BuildKey in p && p[VersionKey].JString? {
      var s := p[VersionKey].s;
      Semver.MatchesAsWritten(s);
      if Semver.FullMatches(s) || !Semver.Matches(s) {
        assert Semver.Accepts(Semver.Dollar, s) == Semver.Accepts(Semver.WholeString, s);
      } else {
        assert Validate(Semver.WholeString, p) == Failure(VersionNotSemver);
      }
    }
  }
}

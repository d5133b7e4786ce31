/**
  `main`: the comparison engine as a pure verdict function. The version-control queries, the
  file reads and the environment lookups are replaced by the values they produce.
 */
module Gate {
  import opened Wrappers
  import opened Json
  import Semver
  import Payload
  import Labels
  import BaseRef

  /** Which record a diagnostic is about: the working copy's version file, or the file at a baseline. */
  datatype Source = VersionFile | VersionFileAt(baseRef: string)

  /** A version file as read: absent, not valid JSON, or a decoded object. */
  datatype Document = Missing | Malformed | Parsed(payload: Object)

  /** How a run ends: one of three passes (exit status 0) or the first violation found (exit status 1). */
  datatype Verdict =
    | PassCurrentOnly
    | PassInitialVersion(baseRef: string)
    | PassValidated
    | FailMissingFile
    | FailInvalidJson(source: Source)
    | FailInvalidPayload(source: Source, check: Payload.Check)
    | FailReleaseWithoutChange
    | FailBuildNotIncreased(currentBuild: int, baseBuild: int)
    | FailVersionDecreased(currentVersion: string, baseVersion: string)
    | FailReleaseNeedsBump(currentVersion: string, baseVersion: string)
    | Crashed
  {
    predicate Passed() {
      PassCurrentOnly? || PassInitialVersion? || PassValidated?
    }

    /** The verdict is one of the three comparison rules failing. */
    predicate ComparisonFailure() {
      FailBuildNotIncreased? || FailVersionDecreased? || FailReleaseNeedsBump?
    }
  }

  /** `not base_ref`: no reference, or an empty one. */
  predicate NoBaseline(baseRef: Option<string>) {
    baseRef.None? || baseRef.value == ""
  }

  /**
    What a changed version file must show against its baseline: a strictly larger build number,
    a version at least the baseline's, and, under release intent, a strictly larger version.
   */
  predicate Progresses(cur: Payload.Record, base: Payload.Record, release: bool)
    requires Semver.Matches(cur.marketingVersion) && Semver.Matches(base.marketingVersion)
  {
    var c := Semver.ParseAsWritten(cur.marketingVersion);
    var b := Semver.ParseAsWritten(base.marketingVersion);
    && cur.buildNumber > base.buildNumber
    && Semver.LessEq(b, c)
    && (release ==> Semver.Less(b, c))
  }

  /**
    The comparison rules, applied when the version file changed: build number first, then no
    regression, then a strict bump under release intent. It passes exactly when the record progresses,
    and each failure reports the two records' values it was decided on.
   */
  function Compare(cur: Payload.Record, base: Payload.Record, release: bool): (v: Verdict)
    requires Semver.Matches(cur.marketingVersion) && Semver.Matches(base.marketingVersion)
    ensures v.Passed() <==> Progresses(cur, base, release)
    ensures v.PassValidated? || v.ComparisonFailure()
    ensures v.FailBuildNotIncreased? ==>
      v == FailBuildNotIncreased(cur.buildNumber, base.buildNumber) && cur.buildNumber <= base.buildNumber
    ensures v.FailVersionDecreased? ==>
      && v == FailVersionDecreased(cur.marketingVersion, base.marketingVersion)
      && cur.buildNumber > base.buildNumber
      && Semver.Less(Semver.ParseAsWritten(cur.marketingVersion), Semver.ParseAsWritten(base.marketingVersion))
    ensures v.FailReleaseNeedsBump? ==>
      && v == FailReleaseNeedsBump(cur.marketingVersion, base.marketingVersion)
      && cur.buildNumber > base.buildNumber && release
      && Semver.ParseAsWritten(cur.marketingVersion) == Semver.ParseAsWritten(base.marketingVersion)
  {
    var c := Semver.ParseAsWritten(cur.marketingVersion);
    var b := Semver.ParseAsWritten(base.marketingVersion);
    Semver.LessEqIsNotGreater(b, c);
    Semver.LessEqIsNotGreater(c, b);
    if cur.buildNumber <= base.buildNumber then
      FailBuildNotIncreased(cur.buildNumber, base.buildNumber)
    else if Semver.Less(c, b) then
      FailVersionDecreased(cur.marketingVersion, base.marketingVersion)
    else if release && Semver.LessEq(c, b) then
      FailReleaseNeedsBump(cur.marketingVersion, base.marketingVersion)
    else
      PassValidated
  }

  /** When a run must pass, stated as the conditions it checks rather than the order it checks them in. */
  predicate Acceptable(anchoring: Semver.Anchoring, current: Object, baseRef: Option<string>, changed: bool, labels: set<string>, base: Document) {
    var release := Labels.ReleaseRequested(labels);
    && Payload.Validate(anchoring, current).Success?
    && (|| NoBaseline(baseRef)
        || (&& (release ==> changed)
            && (|| base.Missing?
                || (&& base.Parsed?
                    && Payload.Validate(anchoring, base.payload).Success?
                    && (changed ==>
                          Progresses(Payload.Validate(anchoring, current).value, Payload.Validate(anchoring, base.payload).value, release))))))
  }

  /**
    The verdict of one run, given the decoded current record, the resolved baseline reference,
    whether the version file changed since it, the pull request's label names, and the version
    file as read at that reference. The anchoring says which semver test the validator applies.
   */
  function Decide(anchoring: Semver.Anchoring, current: Object, baseRef: Option<string>, changed: bool, labels: set<string>, base: Document): (v: Verdict)
    ensures v.Passed() <==> Acceptable(anchoring, current, baseRef, changed, labels, base)
    ensures Payload.Validate(anchoring, current).Failure? ==>
      v == FailInvalidPayload(VersionFile, Payload.Validate(anchoring, current).error)
    ensures Payload.Validate(anchoring, current).Success? && NoBaseline(baseRef) ==> v == PassCurrentOnly
    ensures v == FailReleaseWithoutChange <==>
      Payload.Validate(anchoring, current).Success? && !NoBaseline(baseRef) && "release" in labels && !changed
    ensures v.ComparisonFailure() ==> changed && base.Parsed?
    ensures !v.Crashed? && !v.FailMissingFile?
  {
    match Payload.Validate(anchoring, current)
    case Failure(check) => FailInvalidPayload(VersionFile, check)
    case Success(cur) =>
      if NoBaseline(baseRef) then PassCurrentOnly
      else
        var ref := baseRef.value;
        var release := Labels.ReleaseRequested(labels);
        if release && !changed then FailReleaseWithoutChange
        else AgainstBaseline(anchoring, cur, ref, changed, release, base)
  }

  /**
    The second half of a run, past the release check: the record at the baseline is absent (the
    initial version), unreadable, invalid, or valid, and then compared if the file changed.
   */
  function AgainstBaseline(anchoring: Semver.Anchoring, cur: Payload.Record, ref: string, changed: bool, release: bool, base: Document): (v: Verdict)
    requires Semver.Matches(cur.marketingVersion)
    ensures v.Passed() <==>
      || base.Missing?
      || (&& base.Parsed?
          && Payload.Validate(anchoring, base.payload).Success?
          && (changed ==> Progresses(cur, Payload.Validate(anchoring, base.payload).value, release)))
    ensures base.Missing? ==> v == PassInitialVersion(ref)
    ensures base.Malformed? ==> v == FailInvalidJson(VersionFileAt(ref))
    ensures base.Parsed? && Payload.Validate(anchoring, base.payload).Failure? ==>
      v == FailInvalidPayload(VersionFileAt(ref), Payload.Validate(anchoring, base.payload).error)
    ensures v.ComparisonFailure() ==> changed && base.Parsed?
    ensures !v.Crashed? && !v.FailMissingFile? && !v.FailReleaseWithoutChange?
    ensures v.FailInvalidPayload? ==> v.source == VersionFileAt(ref)
  {
    match base
    case Missing => PassInitialVersion(ref)
    case Malformed => FailInvalidJson(VersionFileAt(ref))
    case Parsed(payload) =>
      match Payload.Validate(anchoring, payload)
      case Failure(check) => FailInvalidPayload(VersionFileAt(ref), check)
      case Success(b) => if changed then Compare(cur, b, release) else PassValidated
  }

  /**
    An absent record at the baseline passes as the initial version; an unreadable one fails, distinctly.
    These are `AgainstBaseline`'s baseline cases, lifted to a whole decision: they hold once the current
    record is valid and the release check is passed.
   */
  lemma BaselineRecordAbsentOrBroken(anchoring: Semver.Anchoring, current: Object, ref: string, changed: bool, labels: set<string>)
    requires Payload.Validate(anchoring, current).Success? && ref != ""
    requires !("release" in labels && !changed)
    ensures Decide(anchoring, current, Some(ref), changed, labels, Missing) == PassInitialVersion(ref)
    ensures Decide(anchoring, current, Some(ref), changed, labels, Malformed) == FailInvalidJson(VersionFileAt(ref))
    ensures forall p :: Payload.Validate(anchoring, p).Failure? ==>
      Decide(anchoring, current, Some(ref), changed, labels, Parsed(p)) == FailInvalidPayload(VersionFileAt(ref), Payload.Validate(anchoring, p).error)
  {
  }

  /**
    The comparison rules on two records: each rule fails exactly when its condition holds and the
    earlier rules pass. `ComparisonRuleOrder` lifts this to a whole decision with a changed file.
   */
  lemma CompareRuleOrder(cur: Payload.Record, b: Payload.Record, release: bool)
    requires Semver.Matches(cur.marketingVersion) && Semver.Matches(b.marketingVersion)
    ensures var v := Compare(cur, b, release);
      var c, bv := Semver.ParseAsWritten(cur.marketingVersion), Semver.ParseAsWritten(b.marketingVersion);
      && (v == FailBuildNotIncreased(cur.buildNumber, b.buildNumber) <==> cur.buildNumber <= b.buildNumber)
      && (v.FailVersionDecreased? <==> cur.buildNumber > b.buildNumber && Semver.Less(c, bv))
      && (v.FailReleaseNeedsBump? <==> cur.buildNumber > b.buildNumber && release && c == bv)
      && (v == PassValidated <==>
            cur.buildNumber > b.buildNumber && !Semver.Less(c, bv) && (release ==> Semver.Less(bv, c)))
  {
    var c, bv := Semver.ParseAsWritten(cur.marketingVersion), Semver.ParseAsWritten(b.marketingVersion);
    Semver.LessEqIsNotGreater(c, bv);
    Semver.LessEqIsNotGreater(bv, c);
  }

  /**
    With a changed file and both records valid, the rules fire in order: build, regression, release
    bump. This is `CompareRuleOrder` stated for `Decide`, with release intent read from the labels.
   */
  lemma ComparisonRuleOrder(anchoring: Semver.Anchoring, current: Object, cur: Payload.Record, ref: string, labels: set<string>, p: Object, b: Payload.Record)
    requires Payload.Validate(anchoring, current) == Success(cur) && Payload.Validate(anchoring, p) == Success(b) && ref != ""
    ensures var v := Decide(anchoring, current, Some(ref), true, labels, Parsed(p));
      var c, bv := Semver.ParseAsWritten(cur.marketingVersion), Semver.ParseAsWritten(b.marketingVersion);
      && (v == FailBuildNotIncreased(cur.buildNumber, b.buildNumber) <==> cur.buildNumber <= b.buildNumber)
      && (v.FailVersionDecreased? <==> cur.buildNumber > b.buildNumber && Semver.Less(c, bv))
      && (v.FailReleaseNeedsBump? <==>
            cur.buildNumber > b.buildNumber && "release" in labels && c == bv)
      && (v == PassValidated <==>
            cur.buildNumber > b.buildNumber && !Semver.Less(c, bv) && ("release" in labels ==> Semver.Less(bv, c)))
  {
    var release := Labels.ReleaseRequested(labels);
    assert Decide(anchoring, current, Some(ref), true, labels, Parsed(p)) == Compare(cur, b, release);
    CompareRuleOrder(cur, b, release);
  }

  /** An unchanged version file skips the comparison rules entirely, whatever the two records hold. */
  lemma UnchangedSkipsComparison(anchoring: Semver.Anchoring, current: Object, ref: string, labels: set<string>, p: Object)
    requires Payload.Validate(anchoring, current).Success? && Payload.Validate(anchoring, p).Success? && ref != ""
    requires "release" !in labels
    ensures Decide(anchoring, current, Some(ref), false, labels, Parsed(p)) == PassValidated
  {
  }

  /** A version below the baseline's fails a changed file whatever the labels say. */
  lemma RegressionAlwaysFails(anchoring: Semver.Anchoring, current: Object, cur: Payload.Record, ref: string, labels: set<string>, p: Object, b: Payload.Record)
    requires Payload.Validate(anchoring, current) == Success(cur) && Payload.Validate(anchoring, p) == Success(b) && ref != ""
    requires Semver.Less(Semver.ParseAsWritten(cur.marketingVersion), Semver.ParseAsWritten(b.marketingVersion))
    ensures !Decide(anchoring, current, Some(ref), true, labels, Parsed(p)).Passed()
  {
    var c, bv := Semver.ParseAsWritten(cur.marketingVersion), Semver.ParseAsWritten(b.marketingVersion);
    Semver.LessIsStrictTotalOrder(c, bv, c);
    Semver.LessEqIsNotGreater(bv, c);
  }

  /** Under release intent an unchanged version fails, and a strictly larger one clears the release rule. */
  lemma ReleaseNeedsStrictBump(anchoring: Semver.Anchoring, current: Object, cur: Payload.Record, ref: string, labels: set<string>, p: Object, b: Payload.Record)
    requires Payload.Validate(anchoring, current) == Success(cur) && Payload.Validate(anchoring, p) == Success(b) && ref != ""
    requires "release" in labels
    ensures Semver.ParseAsWritten(cur.marketingVersion) == Semver.ParseAsWritten(b.marketingVersion) ==>
      !Decide(anchoring, current, Some(ref), true, labels, Parsed(p)).Passed()
    ensures cur.buildNumber > b.buildNumber
            && Semver.Less(Semver.ParseAsWritten(b.marketingVersion), Semver.ParseAsWritten(cur.marketingVersion)) ==>
      Decide(anchoring, current, Some(ref), true, labels, Parsed(p)) == PassValidated
  {
    var c, bv := Semver.ParseAsWritten(cur.marketingVersion), Semver.ParseAsWritten(b.marketingVersion);
    assert Labels.ReleaseRequested(labels);
    assert Decide(anchoring, current, Some(ref), true, labels, Parsed(p)) == Compare(cur, b, true);
    Semver.LessIsStrictTotalOrder(c, bv, c);
    Semver.LessEqIsNotGreater(bv, c);
    Semver.LessEqIsNotGreater(c, bv);
  }

  /**
    The gate as written and the gate as intended reach the same verdict, unless the intended one
    rejects a version string as not semver (which the written one may let through with a final newline).
   */
  lemma AnchoringsAgreeUnlessNotSemver(current: Object, baseRef: Option<string>, changed: bool, labels: set<string>, base: Document)
    ensures var w := Decide(Semver.WholeString, current, baseRef, changed, labels, base);
      !(w.FailInvalidPayload? && w.check == Payload.VersionNotSemver) ==>
        Decide(Semver.Dollar, current, baseRef, changed, labels, base) == w
  {
    Payload.AnchoringsDisagreeOnlyOnNewline(current);
    if base.Parsed? {
      Payload.AnchoringsDisagreeOnlyOnNewline(base.payload);
    }
  }

  /** The collaborators' answers for one run: files, environment hints and version-control queries. */
  datatype Environment = Environment(
    versionFile: Document,
    baseRefHint: Option<string>,
    refExists: string -> bool,
    changedSince: string -> bool,
    event: Labels.Event,
    versionFileAt: string -> Document)

  /**
    A whole run: read and validate the version file, resolve the baseline, then read the change,
    the labels and the baseline record and decide. Only the label extraction can raise. With the
    `Dollar` anchoring this is the script as written.
   */
  function Run(anchoring: Semver.Anchoring, env: Environment): (v: Verdict)
    ensures env.versionFile.Missing? ==> v == FailMissingFile
    ensures env.versionFile.Malformed? ==> v == FailInvalidJson(VersionFile)
    ensures var ref := BaseRef.Resolve(env.baseRefHint, env.refExists);
      v.Crashed? <==>
        env.versionFile.Parsed? && Payload.Validate(anchoring, env.versionFile.payload).Success?
        && ref.Some? && Labels.Raises(env.event)
    ensures var ref := BaseRef.Resolve(env.baseRefHint, env.refExists);
      env.versionFile.Parsed? && ref.Some? && Labels.Extract(env.event).Names? ==>
        v == Decide(anchoring, env.versionFile.payload, ref, env.changedSince(ref.value),
                    Labels.Extract(env.event).names, env.versionFileAt(ref.value))
    ensures env.versionFile.Parsed? && BaseRef.Resolve(env.baseRefHint, env.refExists).None? ==>
      (v.Passed() <==> Payload.Validate(anchoring, env.versionFile.payload).Success?)
    ensures env.versionFile.Parsed? && Payload.Validate(anchoring, env.versionFile.payload).Failure? ==>
      v == FailInvalidPayload(VersionFile, Payload.Validate(anchoring, env.versionFile.payload).error)
    ensures env.versionFile.Parsed? && Payload.Validate(anchoring, env.versionFile.payload).Success?
            && BaseRef.Resolve(env.baseRefHint, env.refExists).None? ==>
      v == PassCurrentOnly
  {
    match env.versionFile
    case Missing => FailMissingFile
    case Malformed => FailInvalidJson(VersionFile)
    case Parsed(current) =>
      match Payload.Validate(anchoring, current)
      case Failure(check) => FailInvalidPayload(VersionFile, check)
      case Success(_) =>
        match BaseRef.Resolve(env.baseRefHint, env.refExists)
        case None => PassCurrentOnly
        case Some(ref) =>
          match Labels.Extract(env.event)
          case Raised => Crashed
          case Names(labels) =>
            Decide(anchoring, current, Some(ref), env.changedSince(ref), labels, env.versionFileAt(ref))
  }
}

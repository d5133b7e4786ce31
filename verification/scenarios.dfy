/** Six concrete runs of the gate, each under either anchoring, and one run that tells the two apart. */
module Scenarios {
  import opened Wrappers
  import opened Json
  import Text
  import Semver
  import Payload
  import Labels
  import BaseRef
  import opened Gate

  function VersionFileWith(version: string, build: int): Object {
    map[Payload.VersionKey := JString(version), Payload.BuildKey := JInt(build)]
  }

  /** An event whose pull request carries exactly the given label names. */
  function EventWithLabels(names: seq<string>): Labels.Event {
    var entries := seq(|names|, i requires 0 <= i < |names| => JObject(map["name" := JString(names[i])]));
    Labels.Document(JObject(map["pull_request" := JObject(map["labels" := JArray(entries)])]))
  }

  /** A pull request targeting `main`, with the given change answer, labels and baseline file. */
  function PullRequest(current: Object, changed: bool, event: Labels.Event, base: Document): Environment {
    Environment(Parsed(current), Some("main"), _ => false, _ => changed, event, _ => base)
  }

  /** `1.2.0` is a version string, and it denotes the tuple (1, 2, 0). */
  lemma Version120()
    ensures Semver.FullMatches("1.2.0") && Semver.Parse("1.2.0") == Semver.Version(1, 2, 0)
  {
    var v := Semver.Version(1, 2, 0);
    Semver.RenderRoundTrip(v);
    assert Text.ShowNat(1) == "1" && Text.ShowNat(2) == "2" && Text.ShowNat(0) == "0";
    assert Semver.Render(v) == "1.2.0";
  }

  /** A version file holding an intended version string and a non-negative build passes under either anchoring. */
  lemma RecordIsValid(anchoring: Semver.Anchoring, version: string, build: nat)
    requires Semver.FullMatches(version)
    ensures Payload.Validate(anchoring, VersionFileWith(version, build)) == Success(Payload.Record(version, build))
  {
    var p := VersionFileWith(version, build);
    assert p[Payload.VersionKey] == JString(version) && p[Payload.BuildKey] == JInt(build);
  }

  lemma Version120IsValid(anchoring: Semver.Anchoring, build: nat)
    ensures Payload.Validate(anchoring, VersionFileWith("1.2.0", build)) == Success(Payload.Record("1.2.0", build))
  {
    Version120();
    RecordIsValid(anchoring, "1.2.0", build);
  }

  lemma ReleaseLabelIsRecognised()
    ensures Labels.Extract(EventWithLabels(["release"])) == Labels.Names({"release"})
  {
    var items := [JObject(map["name" := JString("release")])];
    assert EventWithLabels(["release"]).doc.fields["pull_request"].fields["labels"].items == items;
    assert Labels.Collect(items[1..]) == Labels.Names({});
  }

  /** On a pull request targeting `main`, a valid record and readable labels reach the rule sequence at `origin/main`. */
  lemma PullRequestReachesDecide(anchoring: Semver.Anchoring, current: Object, changed: bool, event: Labels.Event, base: Document, labels: set<string>)
    requires Payload.Validate(anchoring, current).Success?
    requires Labels.Extract(event) == Labels.Names(labels)
    ensures Run(anchoring, PullRequest(current, changed, event, base)) == Decide(anchoring, current, Some("origin/main"), changed, labels, base)
  {
    var env := PullRequest(current, changed, event, base);
    assert env.baseRefHint == Some("main");
    assert "origin/" + "main" == "origin/main";
    assert BaseRef.Resolve(env.baseRefHint, env.refExists) == Some("origin/main");
  }

  /** With no baseline reference anywhere, only the current record is validated, and it passes. */
  lemma NoBaselineValidatesCurrentOnly(anchoring: Semver.Anchoring)
    ensures Run(anchoring, Environment(Parsed(VersionFileWith("1.2.0", 5)), None, _ => false, _ => true,
                                       EventWithLabels(["release"]), _ => Malformed)) == PassCurrentOnly
  {
    var env := Environment(Parsed(VersionFileWith("1.2.0", 5)), None, _ => false, _ => true,
                           EventWithLabels(["release"]), _ => Malformed);
    Version120IsValid(anchoring, 5);
    assert forall j :: 0 <= j < |BaseRef.Candidates| ==> !env.refExists(BaseRef.Candidates[j]);
    assert BaseRef.Resolve(env.baseRefHint, env.refExists) == None;
  }

  /** The same record on both sides with the file unchanged passes without comparing. */
  lemma UnchangedFilePasses(anchoring: Semver.Anchoring)
    ensures Run(anchoring, PullRequest(VersionFileWith("1.2.0", 5), false, Labels.Unavailable,
                                       Parsed(VersionFileWith("1.2.0", 5)))) == PassValidated
  {
    Version120IsValid(anchoring, 5);
    PullRequestReachesDecide(anchoring, VersionFileWith("1.2.0", 5), false, Labels.Unavailable, Parsed(VersionFileWith("1.2.0", 5)), {});
    UnchangedSkipsComparison(anchoring, VersionFileWith("1.2.0", 5), "origin/main", {}, VersionFileWith("1.2.0", 5));
  }

  /** A build bump without a release label passes. */
  lemma BuildBumpPasses(anchoring: Semver.Anchoring)
    ensures Run(anchoring, PullRequest(VersionFileWith("1.2.0", 6), true, Labels.Unavailable,
                                       Parsed(VersionFileWith("1.2.0", 5)))) == PassValidated
  {
    Version120IsValid(anchoring, 6);
    PullRequestReachesDecide(anchoring, VersionFileWith("1.2.0", 6), true, Labels.Unavailable, Parsed(VersionFileWith("1.2.0", 5)), {});
    Version120();
    BumpedBuild(anchoring, "1.2.0", {});
  }

  /** A build bump under a release label, with the version unchanged, fails the release rule. */
  lemma ReleaseWithoutVersionBumpFails(anchoring: Semver.Anchoring)
    ensures Run(anchoring, PullRequest(VersionFileWith("1.2.0", 6), true, EventWithLabels(["release"]),
                                       Parsed(VersionFileWith("1.2.0", 5)))) == FailReleaseNeedsBump("1.2.0", "1.2.0")
  {
    Version120IsValid(anchoring, 6);
    ReleaseLabelIsRecognised();
    PullRequestReachesDecide(anchoring, VersionFileWith("1.2.0", 6), true, EventWithLabels(["release"]),
                             Parsed(VersionFileWith("1.2.0", 5)), {"release"});
    Version120();
    BumpedBuild(anchoring, "1.2.0", {"release"});
  }

  /** Build 5 to 6 with the version kept: passes without release intent, fails the release rule with it. */
  lemma BumpedBuild(anchoring: Semver.Anchoring, version: string, labels: set<string>)
    requires Semver.FullMatches(version)
    ensures Decide(anchoring, VersionFileWith(version, 6), Some("origin/main"), true, labels, Parsed(VersionFileWith(version, 5)))
            == if "release" in labels then FailReleaseNeedsBump(version, version) else PassValidated
  {
    RecordIsValid(anchoring, version, 5);
    RecordIsValid(anchoring, version, 6);
    var v := Semver.Parse(version);
    Semver.LessIsStrictTotalOrder(v, v, v);
    ComparisonRuleOrder(anchoring, VersionFileWith(version, 6), Payload.Record(version, 6), "origin/main", labels,
                        VersionFileWith(version, 5), Payload.Record(version, 5));
  }

  /** A release label on an untouched version file fails before the baseline is read. */
  lemma ReleaseLabelWithoutChangeFails(anchoring: Semver.Anchoring)
    ensures Run(anchoring, PullRequest(VersionFileWith("1.2.0", 5), false, EventWithLabels(["release"]),
                                       Malformed)) == FailReleaseWithoutChange
  {
    Version120IsValid(anchoring, 5);
    ReleaseLabelIsRecognised();
    PullRequestReachesDecide(anchoring, VersionFileWith("1.2.0", 5), false, EventWithLabels(["release"]), Malformed, {"release"});
  }

  /** A baseline without a version file is the initial version. */
  lemma MissingBaselineFileIsInitialVersion(anchoring: Semver.Anchoring)
    ensures Run(anchoring, PullRequest(VersionFileWith("1.2.0", 5), true, Labels.Unavailable, Missing))
            == PassInitialVersion("origin/main")
  {
    Version120IsValid(anchoring, 5);
    PullRequestReachesDecide(anchoring, VersionFileWith("1.2.0", 5), true, Labels.Unavailable, Missing, {});
    BaselineRecordAbsentOrBroken(anchoring, VersionFileWith("1.2.0", 5), "origin/main", true, {});
  }

  /** A version file holding an intended version string plus a final newline passes the validator as written. */
  lemma NewlineRecordAcceptedAsWritten(version: string, build: nat)
    requires Semver.FullMatches(version)
    ensures Payload.Validate(Semver.Dollar, VersionFileWith(version + "\n", build))
            == Success(Payload.Record(version + "\n", build))
  {
    Semver.NewlineMatches(version);
    var p := VersionFileWith(version + "\n", build);
    assert p[Payload.VersionKey] == JString(version + "\n") && p[Payload.BuildKey] == JInt(build);
  }

  /** The same version file fails the intended validator, on the semver check. */
  lemma NewlineRecordRejectedAsIntended(version: string, build: nat)
    requires Semver.FullMatches(version)
    ensures Payload.Validate(Semver.WholeString, VersionFileWith(version + "\n", build))
            == Failure(Payload.VersionNotSemver)
  {
    Semver.NewlineMatches(version);
    var p := VersionFileWith(version + "\n", build);
    assert p[Payload.VersionKey] == JString(version + "\n") && p[Payload.BuildKey] == JInt(build);
  }

  /**
    A build bump whose new version string is an intended one plus a final newline, over a baseline
    holding that intended string: the script as written validates the new string and compares it as
    the version it extends, so the run passes; the intended gate rejects the record.
   */
  lemma NewlineVersionPassesAsWritten(version: string)
    requires Semver.FullMatches(version)
    ensures Run(Semver.Dollar, PullRequest(VersionFileWith(version + "\n", 6), true, Labels.Unavailable,
                                           Parsed(VersionFileWith(version, 5)))) == PassValidated
    ensures Run(Semver.WholeString, PullRequest(VersionFileWith(version + "\n", 6), true, Labels.Unavailable,
                                                Parsed(VersionFileWith(version, 5))))
            == FailInvalidPayload(VersionFile, Payload.VersionNotSemver)
  {
    NewlineRecordAcceptedAsWritten(version, 6);
    NewlineRecordRejectedAsIntended(version, 6);
    Semver.NewlineAccepted(version);
    RecordIsValid(Semver.Dollar, version, 5);
    PullRequestReachesDecide(Semver.Dollar, VersionFileWith(version + "\n", 6), true, Labels.Unavailable,
                             Parsed(VersionFileWith(version, 5)), {});
    var v := Semver.Parse(version);
    Semver.LessIsStrictTotalOrder(v, v, v);
    ComparisonRuleOrder(Semver.Dollar, VersionFileWith(version + "\n", 6), Payload.Record(version + "\n", 6), "origin/main", {},
                        VersionFileWith(version, 5), Payload.Record(version, 5));
  }
}

/** `resolve_base_ref`: which reference the version record is compared against. */
module BaseRef {
  import opened Wrappers

  /** The conventional default branches, remote-tracking before local, probed in this order. */
  const Candidates: seq<string> := ["origin/main", "origin/master", "main", "master"]

  /** The first candidate that refExists accepts, if any. */
  function FirstExisting(cands: seq<string>, refExists: string -> bool): (r: Option<string>)
    ensures r.Some? ==>
      exists k :: 0 <= k < |cands| && cands[k] == r.value && refExists(cands[k])
        && forall j :: 0 <= j < k ==> !refExists(cands[j])
    ensures r.None? <==> forall j :: 0 <= j < |cands| ==> !refExists(cands[j])
    decreases |cands|
  {
    if |cands| == 0 then None
    else if refExists(cands[0]) then Some(cands[0])
    else
      var r := FirstExisting(cands[1..], refExists);
      assert forall j :: 0 < j < |cands| ==> cands[j] == cands[1..][j - 1];
      r
  }

  /**
    The baseline reference: a non-empty pipeline hint (the target branch name) qualified with
    `origin/`, otherwise the first conventional branch that exists, otherwise none. A reference
    it yields is never empty.
   */
  function Resolve(hint: Option<string>, refExists: string -> bool): (r: Option<string>)
    ensures hint.Some? && hint.value != "" ==> r == Some("origin/" + hint.value)
    ensures !(hint.Some? && hint.value != "") ==>
      && (r.Some? ==> exists k :: 0 <= k < |Candidates| && Candidates[k] == r.value && refExists(Candidates[k])
                                  && forall j :: 0 <= j < k ==> !refExists(Candidates[j]))
      && (r.None? <==> forall j :: 0 <= j < |Candidates| ==> !refExists(Candidates[j]))
    ensures r.Some? ==> r.value != ""
  {
    if hint.Some? && hint.value != "" then Some("origin/" + hint.value)
    else FirstExisting(Candidates, refExists)
  }
}

/**
  `parse_labels_from_event` and the release-intent test: the names of the labels on the pull
  request an event describes, and whether one of them is a recognised release label.
 */
module Labels {
  import opened Json

  /** The workflow event: unavailable (no path, no file, or not valid JSON) or a decoded document. */
  datatype Event = Unavailable | Document(doc: Json)

  /**
    The label names found, or `Raised` when the source's loop raises instead of returning:
    `.get` on a document that is not an object, iterating a value that is not iterable, or
    adding an unhashable name to a set.
   */
  datatype Extraction = Names(names: set<string>) | Raised

  const ReleaseLabels: set<string> := {"release"}

  /** The label entry is an object whose `name` is the non-empty string n. */
  predicate NamesLabel(item: Json, n: string) {
    item.JObject? && "name" in item.fields && item.fields["name"] == JString(n) && |n| > 0
  }

  /** The label entry is an object whose `name` is a non-empty list or object. */
  predicate HasUnhashableName(item: Json) {
    item.JObject? && "name" in item.fields
    && Truthy(item.fields["name"]) && !Hashable(item.fields["name"])
  }

  /** The string label names that one entry contributes. */
  function NameOf(item: Json): set<string> {
    if item.JObject? && "name" in item.fields && item.fields["name"].JString? && Truthy(item.fields["name"])
    then {item.fields["name"].s}
    else {}
  }

  /**
    The loop over the entries of a labels list: an entry that is an object with a truthy
    `name` contributes that name, and every other entry is skipped.
   */
  function Collect(items: seq<Json>): (r: Extraction)
    ensures r.Raised? <==> exists i :: 0 <= i < |items| && HasUnhashableName(items[i])
    ensures r.Names? ==> forall n :: n in r.names <==> exists i :: 0 <= i < |items| && NamesLabel(items[i], n)
    decreases |items|
  {
    if |items| == 0 then Names({})
    else if HasUnhashableName(items[0]) then Raised
    else
      var rest := Collect(items[1..]);
      assert forall i :: 0 < i < |items| ==> items[i] == items[1..][i - 1];
      match rest
      case Raised => Raised
      case Names(ns) => Names(NameOf(items[0]) + ns)
  }

  /** The event lists, under `pull_request.labels`, an entry named n. */
  predicate LabelledWith(e: Event, n: string) {
    && e.Document? && e.doc.JObject?
    && "pull_request" in e.doc.fields
    && var pr := e.doc.fields["pull_request"];
    && pr.JObject? && "labels" in pr.fields
    && var labels := pr.fields["labels"];
    && labels.JArray?
    && exists i :: 0 <= i < |labels.items| && NamesLabel(labels.items[i], n)
  }

  /** Iterating the labels value raises: it is truthy but neither a list, a string nor an object. */
  predicate NotIterable(labels: Json) {
    Truthy(labels) && (labels.JBool? || labels.JInt? || labels.JFloat?)
  }

  /** The extraction raises: the document is not an object, or its pull request's labels cannot be read. */
  predicate Raises(e: Event) {
    && e.Document?
    && (|| !e.doc.JObject?
        || (&& "pull_request" in e.doc.fields
            && var pr := e.doc.fields["pull_request"];
            && pr.JObject? && "labels" in pr.fields
            && var labels := pr.fields["labels"];
            && (|| NotIterable(labels)
                || (labels.JArray? && exists i :: 0 <= i < |labels.items| && HasUnhashableName(labels.items[i])))))
  }

  /**
    The label names of an event: empty when the event is unavailable or has no pull request
    object; otherwise the non-empty string names of the object entries of its labels list.
   */
  function Extract(e: Event): (r: Extraction)
    ensures r.Raised? <==> Raises(e)
    ensures r.Names? ==> forall n :: n in r.names <==> LabelledWith(e, n)
  {
    match e
    case Unavailable => Names({})
    case Document(doc) =>
      if !doc.JObject? then Raised
      else if "pull_request" !in doc.fields then Names({})
      else
        var pr := doc.fields["pull_request"];
        if !(Truthy(pr) && pr.JObject?) then Names({})
        else
          var labels := if "labels" in pr.fields then pr.fields["labels"] else JArray([]);
          if !Truthy(labels) then Names({})
          else
            match labels
            case JArray(items) => Collect(items)
            case JString(_) => Names({})
            case JObject(_) => Names({})
            case _ => Raised
  }

  /** Release intent: the label names meet the recognised release labels. */
  function ReleaseRequested(labels: set<string>): (r: bool)
    ensures r <==> "release" in labels
  {
    var common := ReleaseLabels * labels;
    assert "release" in labels ==> "release" in common;
    common != {}
  }
}

/** The classifier interface: its result type, the lookup ("stub") backend
    over the labelled message dataset, and the dispatch by backend name with
    fallback to the lookup backend whenever the trained-model backend fails. */
module Classify {
  import opened Strings

  /** Output of a classifier; `confidence` may be absent. */
  datatype ClassificationResult = ClassificationResult(intent: string, suggestedQueue: string, confidence: Option<real>)

  /** One row of the message dataset (`labelText` is its `label` column). */
  datatype Record = Record(messageId: string, text: string, labelText: string, suggestedQueue: string)

  /** The message dataset as read: the column names it has and its rows. */
  datatype Dataset = Dataset(columns: set<string>, rows: seq<Record>)

  /** What the lookup backend answers when it finds nothing. */
  const Default := ClassificationResult("general", "General Banking", Some(0.0))

  /** Index of the first row whose `message_id` is `id`. */
  function FirstMatch(rows: seq<Record>, id: string): (r: Option<nat>)
    ensures r.Some? ==> r.value < |rows| && rows[r.value].messageId == id
    ensures r.Some? ==> forall j :: 0 <= j < r.value ==> rows[j].messageId != id
    ensures r.None? ==> forall j :: 0 <= j < |rows| ==> rows[j].messageId != id
  {
    if rows == [] then None
    else if rows[0].messageId == id then Some(0)
    else
      match FirstMatch(rows[1..], id)
      case None => None
      case Some(k) => Some(k + 1)
  }

  /** The columns the lookup backend needs. */
  predicate HasLookupColumns(d: Dataset) {
    "message_id" in d.columns && "label" in d.columns && "suggested_queue" in d.columns
  }

  /** The lookup finds a row: the dataset exists with the needed columns, the
      id is present and non-empty, and some row carries it. */
  predicate Found(data: Option<Dataset>, messageId: Option<string>) {
    data.Some? && messageId.Some? && messageId.value != "" && HasLookupColumns(data.value)
    && FirstMatch(data.value.rows, messageId.value).Some?
  }

  /** `classify_stub_from_labels`: `data` is `None` when the dataset file is
      missing, `messageId` is `None` when no id is given. The text itself is
      not consulted. */
  function ClassifyStub(text: string, data: Option<Dataset>, messageId: Option<string>): (r: ClassificationResult)
    ensures r.confidence == Some(1.0) <==> Found(data, messageId)
    ensures Found(data, messageId) ==>
              exists j :: 0 <= j < |data.value.rows| && data.value.rows[j].messageId == messageId.value
                          && r.intent == Lower(Trim(data.value.rows[j].labelText))
                          && r.suggestedQueue == Trim(data.value.rows[j].suggestedQueue)
                          && forall i :: 0 <= i < j ==> data.value.rows[i].messageId != messageId.value
    ensures !Found(data, messageId) ==> r == Default
  {
    if data.None? then Default
    else if messageId.Some? && messageId.value != "" && HasLookupColumns(data.value) then
      match FirstMatch(data.value.rows, messageId.value)
      case Some(j) =>
        var row := data.value.rows[j];
        ClassificationResult(Lower(Trim(row.labelText)), Trim(row.suggestedQueue), Some(1.0))
      case None => Default
    else Default
  }

  /** The lookup backend's confidence is 0.0 or 1.0, so within [0, 1]. */
  lemma StubConfidenceInUnitInterval(text: string, data: Option<Dataset>, messageId: Option<string>)
    ensures ClassifyStub(text, data, messageId).confidence in {Some(0.0), Some(1.0)}
    ensures var c := ClassifyStub(text, data, messageId).confidence.value; 0.0 <= c <= 1.0
  {
  }

  /** Whichever row first carries an id decides the answer: rows after it, and
      rows with other ids, change nothing. */
  lemma {:induction false} StubUsesFirstMatchingRow(rows: seq<Record>, extra: seq<Record>, id: string)
    requires exists j :: 0 <= j < |rows| && rows[j].messageId == id
    ensures FirstMatch(rows + extra, id) == FirstMatch(rows, id)
  {
    if rows[0].messageId != id {
      assert (rows + extra)[1..] == rows[1..] + extra;
      var j :| 0 <= j < |rows| && rows[j].messageId == id;
      assert rows[1..][j - 1].messageId == id;
      StubUsesFirstMatchingRow(rows[1..], extra, id);
    }
  }

  /** `classify(redacted_text, ..., backend)`. `mtlAttempt` is what the
      trained-model backend yields for this text: `None` when loading or
      training raised (a loaded model is taken to predict). Any backend name other than "mtl" is
      served by the lookup backend ("stub" and unknown names alike). */
  function Classify(redactedText: string, data: Option<Dataset>, messageId: Option<string>, backend: string,
                    mtlAttempt: Option<ClassificationResult>): (r: ClassificationResult)
    ensures backend == "mtl" && mtlAttempt.Some? ==> r == mtlAttempt.value
    ensures backend != "mtl" || mtlAttempt.None? ==> r == ClassifyStub(redactedText, data, messageId)
  {
    if backend == "stub" then ClassifyStub(redactedText, data, messageId)
    else if backend == "mtl" then
      match mtlAttempt
      case Some(res) => res
      case None => ClassifyStub(redactedText, data, messageId)
    else ClassifyStub(redactedText, data, messageId)
  }

  /** Classification never leaves [0, 1] when the trained model's answer, if
      used, stays within it. */
  lemma ClassifyConfidenceInUnitInterval(redactedText: string, data: Option<Dataset>, messageId: Option<string>,
                                         backend: string, mtlAttempt: Option<ClassificationResult>)
    requires mtlAttempt.Some? ==> mtlAttempt.value.confidence.Some?
                                  && 0.0 <= mtlAttempt.value.confidence.value <= 1.0
    ensures var r := Classify(redactedText, data, messageId, backend, mtlAttempt);
            r.confidence.Some? && 0.0 <= r.confidence.value <= 1.0
  {
    StubConfidenceInUnitInterval(redactedText, data, messageId);
  }
}

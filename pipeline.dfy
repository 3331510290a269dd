/** The batch pipeline: set up once (rules, policy store, backend, model
    switch), then, for each selected message in order, redact, classify,
    draft and check, collecting one result row per message. The single
    message mode runs the same steps on one text without an id.

    Everything the pipeline reads from outside is a parameter: the rule
    file's entries and whether it exists, the regular-expression engine,
    the loaded policy store, the trained-model backend's state, the
    `USE_LLM` setting, whether the language model is configured, and the
    language model itself. */
module Pipeline {
  import opened Strings
  import opened Redact
  import Kb
  import opened Classify
  import Mtl
  import Draft
  import Guardrails

  /** What the process finds when it starts. */
  datatype Environment = Environment(
    patternFileExists: bool,
    patternEntries: seq<PatternEntry>,
    compile: Compiler,
    kb: map<string, string>,
    mtl: Mtl.MtlEnv,
    useLlmSetting: string,
    llmAvailable: bool,
    generate: Draft.Generator)

  /** One row of the results table. */
  datatype ResultRow = ResultRow(
    msgId: string,
    intent: string,
    queue: string,
    confidence: real,
    fallback: bool,
    checksOk: bool,
    status: string,
    draftPreview: string)

  /** What one message goes through: its redacted text, its classification,
      its draft and the draft's failed checks. */
  datatype Outcome = Outcome(
    redacted: string,
    classification: ClassificationResult,
    draft: Draft.DraftResult,
    failures: seq<string>)

  const Ellipsis := "…"

  /** The rules `load_patterns` yields for this environment. */
  function Rules(env: Environment): (rules: seq<PatternEntry>)
    ensures HasRegex(rules)
    ensures !env.patternFileExists ==> rules == []
  {
    if env.patternFileExists then Kept(env.patternEntries) else []
  }

  /** The backend is the trained model exactly when its file exists. */
  function Backend(env: Environment): (backend: string)
    ensures backend == "mtl" <==> env.mtl.modelFileExists
    ensures backend == "mtl" || backend == "stub"
  {
    if env.mtl.modelFileExists then "mtl" else "stub"
  }

  /** `USE_LLM`, stripped and lower-cased, is "1", "true" or "yes". */
  function UseLlm(env: Environment): (b: bool)
    ensures Trim(env.useLlmSetting) == "" ==> !b
  {
    var v := Lower(Trim(env.useLlmSetting));
    v == "1" || v == "true" || v == "yes"
  }

  /** Redact, classify, draft, check: what happens to one message. */
  function Process(env: Environment, data: Option<Dataset>, messageId: Option<string>, text: string): (o: Outcome)
    ensures o.redacted == Redacted(text, Rules(env), env.compile)
    ensures o.classification
            == Classify.Classify(o.redacted, data, messageId, Backend(env), Mtl.Attempt(env.mtl, data, o.redacted))
    ensures o.draft
            == Draft.DraftFromPolicy(o.classification, env.kb, UseLlm(env), Some(o.redacted), env.llmAvailable, env.generate)
    ensures o.failures == Guardrails.Failures(o.draft.text)
  {
    var redacted := Redacted(text, Rules(env), env.compile);
    var res := Classify.Classify(redacted, data, messageId, Backend(env), Mtl.Attempt(env.mtl, data, redacted));
    var dr := Draft.DraftFromPolicy(res, env.kb, UseLlm(env), Some(redacted), env.llmAvailable, env.generate);
    Outcome(redacted, res, dr, Guardrails.Failures(dr.text))
  }

  /** The status cell: "OK", or "FAIL:" and the reasons joined by commas. */
  function Status(failures: seq<string>): (s: string)
    ensures s == "OK" <==> failures == []
  {
    if failures == [] then "OK" else "FAIL:" + Join(failures, ",")
  }

  /** The four statuses a row can show, one for each combination of failed
      checks, with the reasons in check order. */
  lemma StatusOfChecks(draft: string)
    ensures var s, cites, pii := Status(Guardrails.Failures(draft)), Guardrails.HasCitation(draft),
                                 Guardrails.HasDigitRun(draft) || Guardrails.HasDigitGroups(draft);
            && (cites && !pii ==> s == "OK")
            && (!cites && !pii ==> s == "FAIL:" + Guardrails.CitationMissing)
            && (cites && pii ==> s == "FAIL:" + Guardrails.PossiblePii)
            && (!cites && pii ==> s == "FAIL:" + Guardrails.CitationMissing + "," + Guardrails.PossiblePii)
  {
    var f := Guardrails.Failures(draft);
    if |f| == 2 {
      assert f[1..] == [Guardrails.PossiblePii];
      assert Join(f, ",") == Guardrails.CitationMissing + "," + Guardrails.PossiblePii;
    }
  }

  /** The first 80 characters of the draft, with an ellipsis when cut. */
  function Preview(draft: string): (p: string)
    ensures |p| <= 81
    ensures |draft| <= 80 ==> p == draft
    ensures |draft| > 80 ==> p == draft[..80] + Ellipsis
  {
    if |draft| > 80 then draft[..80] + Ellipsis else draft
  }

  /** The cell a row takes from a column the file may lack (`row.get`). */
  function Cell(d: Dataset, column: string, value: string): string {
    if column in d.columns then value else ""
  }

  /** The row `process_one` appends for a record of the messages file,
      which is also the dataset the lookup backend and training read. */
  function RowFor(env: Environment, d: Dataset, r: Record): (row: ResultRow)
    ensures row.msgId == Cell(d, "message_id", r.messageId)
    ensures row.checksOk <==> row.status == "OK"
  {
    var id := Cell(d, "message_id", r.messageId);
    var o := Process(env, Some(d), Some(id), Cell(d, "text", r.text));
    ResultRow(id, o.classification.intent, o.classification.suggestedQueue, Draft.ConfidenceOrZero(o.classification),
              o.draft.usedFallback, o.failures == [], Status(o.failures), Preview(o.draft.text))
  }

  /** Each cell of a row comes from the message's outcome; the checks pass
      exactly when the draft cites a policy and holds nothing card-like. */
  lemma RowReportsOutcome(env: Environment, d: Dataset, r: Record)
    ensures var row := RowFor(env, d, r);
            var o := Process(env, Some(d), Some(row.msgId), Cell(d, "text", r.text));
            && row.intent == o.classification.intent
            && row.queue == o.classification.suggestedQueue
            && row.confidence == Draft.ConfidenceOrZero(o.classification)
            && row.fallback == o.draft.usedFallback
            && (row.checksOk <==> Guardrails.HasCitation(o.draft.text)
                                  && !Guardrails.HasDigitRun(o.draft.text) && !Guardrails.HasDigitGroups(o.draft.text))
            && row.status == Status(o.failures)
            && row.draftPreview == Preview(o.draft.text)
  {
  }

  /** `process_one`, step by step. */
  method ProcessOne(env: Environment, rules: seq<PatternEntry>, d: Dataset, r: Record) returns (row: ResultRow)
    requires rules == Rules(env)
    ensures row == RowFor(env, d, r)
  {
    var id := Cell(d, "message_id", r.messageId);
    var text := Cell(d, "text", r.text);
    var redacted := Redact.Redact(text, rules, env.compile);
    var res := Classify.Classify(redacted, Some(d), Some(id), Backend(env), Mtl.Attempt(env.mtl, Some(d), redacted));
    var dr := Draft.DraftFromPolicy(res, env.kb, UseLlm(env), Some(redacted), env.llmAvailable, env.generate);
    var ok, failures := Guardrails.RunDraftChecks(dr.text);
    var status := if ok then "OK" else "FAIL:" + Join(failures, ",");
    var conf := if res.confidence.Some? then res.confidence.value else 0.0;
    row := ResultRow(id, res.intent, res.suggestedQueue, conf, dr.usedFallback, ok, status, Preview(dr.text));
  }

  /** `df.head(limit)` when `limit` is truthy: the first `limit` rows, or
      all but the last `-limit` rows for a negative limit. */
  function Selected(rows: seq<Record>, limit: Option<int>): (s: seq<Record>)
    ensures |s| <= |rows| && s == rows[..|s|]
    ensures limit.None? || limit.value == 0 ==> s == rows
    ensures limit.Some? && limit.value > 0 ==> |s| == (if limit.value < |rows| then limit.value else |rows|)
    ensures limit.Some? && limit.value < 0 ==> |s| == (if |rows| + limit.value > 0 then |rows| + limit.value else 0)
  {
    if limit.None? || limit.value == 0 then rows
    else if limit.value > 0 then (if limit.value < |rows| then rows[..limit.value] else rows)
    else if |rows| + limit.value > 0 then rows[..|rows| + limit.value]
    else []
  }

  /** Appending the image of the next element extends a prefix-wise image. */
  lemma AppendKeepsImage<T, U>(xs: seq<T>, ys: seq<U>, y: U, f: T -> U)
    requires |ys| < |xs|
    requires forall j :: 0 <= j < |ys| ==> ys[j] == f(xs[j])
    requires y == f(xs[|ys|])
    ensures forall j :: 0 <= j < |ys| + 1 ==> (ys + [y])[j] == f(xs[j])
  {
  }

  /** The loop of `run_pipeline`: one row per record, in order. */
  method ProcessAll(env: Environment, rules: seq<PatternEntry>, d: Dataset, records: seq<Record>)
    returns (rows: seq<ResultRow>)
    requires rules == Rules(env)
    ensures |rows| == |records|
    ensures forall j :: 0 <= j < |records| ==> rows[j] == RowFor(env, d, records[j])
  {
    rows := [];
    ghost var rowFor := (r: Record) => RowFor(env, d, r);
    for i := 0 to |records|
      invariant |rows| == i
      invariant forall j :: 0 <= j < i ==> rows[j] == rowFor(records[j])
    {
      var row := ProcessOne(env, rules, d, records[i]);
      AppendKeepsImage(records, rows, row, rowFor);
      rows := rows + [row];
    }
  }

  /** `run_pipeline`: nothing when the messages file is missing (`csv` is
      `None`); otherwise one row per selected record, in file order. */
  method RunPipeline(env: Environment, csv: Option<Dataset>, limit: Option<int>) returns (rows: seq<ResultRow>)
    ensures csv.None? ==> rows == []
    ensures csv.Some? ==> |rows| == |Selected(csv.value.rows, limit)|
    ensures csv.Some? ==> forall i :: 0 <= i < |rows| ==> rows[i] == RowFor(env, csv.value, Selected(csv.value.rows, limit)[i])
  {
    if csv.None? {
      return [];
    }
    var selected := Selected(csv.value.rows, limit);
    var rules := Redact.LoadPatterns(env.patternFileExists, env.patternEntries);
    rows := ProcessAll(env, rules, csv.value, selected);
  }

  /** `run_single_message`: one text, no id; the messages file may be
      missing. */
  function SingleMessage(env: Environment, data: Option<Dataset>, text: string): (o: Outcome)
    ensures o == Process(env, data, None, text)
    ensures Backend(env) == "stub" ==> o.classification == Default
  {
    Process(env, data, None, text)
  }

  // ---------------------------------------------------------------------
  // Properties

  /** Everything downstream of redaction sees only the redacted text: two
      messages whose texts redact alike get the same row. */
  lemma RowDependsOnlyOnRedactedText(env: Environment, d: Dataset, r1: Record, r2: Record)
    requires r1.messageId == r2.messageId
    requires Redacted(r1.text, Rules(env), env.compile) == Redacted(r2.text, Rules(env), env.compile)
    ensures RowFor(env, d, r1) == RowFor(env, d, r2)
  {
    var id := Cell(d, "message_id", r1.messageId);
    var t1, t2 := Cell(d, "text", r1.text), Cell(d, "text", r2.text);
    assert Redacted(t1, Rules(env), env.compile) == Redacted(t2, Rules(env), env.compile);
    assert Process(env, Some(d), Some(id), t1) == Process(env, Some(d), Some(id), t2);
  }

  /** A message the drafter does not serve, or one with no policy snippet,
      is escalated, and its escalation reply fails exactly the citation
      check. */
  lemma EscalatedRowFailsCitation(env: Environment, d: Dataset, r: Record)
    requires var o := Process(env, Some(d), Some(Cell(d, "message_id", r.messageId)), Cell(d, "text", r.text));
             !Draft.Eligible(o.classification.intent) || Kb.GetSnippet(env.kb, o.classification.intent) == ""
    ensures RowFor(env, d, r).fallback
    ensures RowFor(env, d, r).status == "FAIL:" + Guardrails.CitationMissing
  {
    var o := Process(env, Some(d), Some(Cell(d, "message_id", r.messageId)), Cell(d, "text", r.text));
    assert o.draft.text == Draft.OutOfScopeReply || o.draft.text == Draft.NoSnippetReply;
    Draft.EscalationsFailOnlyCitation();
    assert o.failures == [Guardrails.CitationMissing];
  }

  /** A template draft always passes the citation check, so its row is "OK"
      or fails for a card-number-like run from the snippet only. */
  lemma TemplateRowCites(env: Environment, d: Dataset, r: Record)
    requires var o := Process(env, Some(d), Some(Cell(d, "message_id", r.messageId)), Cell(d, "text", r.text));
             Draft.Eligible(o.classification.intent) && Kb.GetSnippet(env.kb, o.classification.intent) != ""
             && o.draft.usedFallback
    ensures RowFor(env, d, r).status == "OK" || RowFor(env, d, r).status == "FAIL:" + Guardrails.PossiblePii
  {
    var o := Process(env, Some(d), Some(Cell(d, "message_id", r.messageId)), Cell(d, "text", r.text));
    Draft.FallbackDraftCites(o.classification, env.kb, UseLlm(env), Some(o.redacted), env.llmAvailable, env.generate);
    assert Guardrails.HasCitation(o.draft.text);
    assert o.failures == [] || o.failures == [Guardrails.PossiblePii];
  }

  /** With the lookup backend, a single message (which has no id) is
      classified "general", which the drafter does not serve: it is
      escalated and fails the citation check. */
  lemma SingleMessageWithLookupEscalates(env: Environment, data: Option<Dataset>, text: string)
    requires Backend(env) == "stub"
    ensures SingleMessage(env, data, text).draft == Draft.DraftResult(Draft.OutOfScopeReply, true)
    ensures SingleMessage(env, data, text).failures == [Guardrails.CitationMissing]
  {
    var o := SingleMessage(env, data, text);
    assert o.classification == Default;
    Draft.GeneralIsOutOfScope(o.classification.intent);
    assert o.draft == Draft.DraftResult(Draft.OutOfScopeReply, true);
    Draft.EscalationsFailOnlyCitation();
  }

  /** Every row's confidence lies in [0, 1] when every model the trained
      backend can load or fit is calibrated. */
  lemma RowConfidenceInUnitInterval(env: Environment, d: Dataset, r: Record)
    requires env.mtl.stored.Some? ==> Mtl.Calibrated(env.mtl.stored.value)
    requires forall ex :: env.mtl.fit(ex).Some? ==> Mtl.Calibrated(env.mtl.fit(ex).value)
    ensures 0.0 <= RowFor(env, d, r).confidence <= 1.0
  {
    var id := Cell(d, "message_id", r.messageId);
    var redacted := Redacted(Cell(d, "text", r.text), Rules(env), env.compile);
    Mtl.AttemptConfidenceInUnitInterval(env.mtl, Some(d), redacted, Some(id), Backend(env));
  }

  /** The pipeline picks the trained backend only when its model file
      exists, so inside a run it always loads and never trains. */
  lemma PipelineNeverTrains(env: Environment, data: Option<Dataset>)
    requires Backend(env) == "mtl"
    ensures Mtl.LoadOrTrain(env.mtl, data) == env.mtl.stored
  {
  }
}

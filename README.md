# Intelligent message routing: a verified model of the routing core

This project models the core of a support-message router for a bank. Each
customer message goes through five steps:

1. **Redaction.** An ordered list of pattern rules replaces every match of a
   rule's pattern with that rule's mask. Rules whose pattern does not compile
   are skipped.
2. **Classification.** One of two backends assigns an intent, a suggested
   queue and a confidence:
   - the *lookup* backend finds the message's id in the labelled message
     dataset;
   - the *trained-model* backend has two heads over one text representation,
     and its confidence is the smaller of the heads' top probabilities.

   The dispatcher falls back to the lookup backend whenever the trained
   model cannot be loaded, trained or run.
3. **Policy lookup.** The intent is normalised, mapped through a fixed alias
   table to a policy key, and its snippet is read from the policy store.
4. **Drafting.**
   - An intent the drafter does not serve is escalated with a fixed reply.
   - So is a message with no policy snippet.
   - Otherwise the reply is a fixed template that cites the policy key.
   - The language model's text replaces the template only when confidence
     reaches 0.7, the model is switched on and configured, the message is
     non-empty and the model answers.
5. **Guardrails.** Two checks run on every draft: a `[kb: key]` citation
   must be present, and no card-number-like digit run may appear. The
   reasons for failed checks are listed in a fixed order.

The batch runner sets up the redaction rules, the policy store, the
classifier backend and the language-model switch once. It then processes
the selected rows of the message file in order and collects one result row
per message.
The single-message mode runs the same steps on one text that has no id.

There is one Dafny module per source file: `Redact`, `Kb`, `Classify`, `Mtl`,
`Draft`, `Guardrails` and `Pipeline`. A helper module, `Strings`, models the
Python string operations they use: `strip` over the full `isspace` set,
`lower`, `replace(" ", "_")`, substring `in` and `join`.

Everything the core reads from outside is a parameter of the model:
- whether files exist, and their parsed contents;
- the regular-expression compiler, as an oracle from a pattern to `None`
  (`re.error`) or to the literal text the pattern matches;
- the fitting library and the stored model;
- the `USE_LLM` setting, whether the language model is configured, and
  the language model itself.

The two guardrail expressions are fixed, so each is modelled twice, and the
two versions are proved to agree:
- a declarative ghost statement of what a match is;
- a left-to-right scanner that computes it.

Points where the model follows the code as written:
- `get_snippet`'s second lookup uses the stripped, lower-cased intent, not
  the raw one.
- The trained-model backend loads (or trains) its model on every `classify`
  call. It is not a one-time-initialised shared handle.
- The language-model call sets no timeout of its own. A failed or timed-out
  call gives no answer, and the draft falls back to the template.
- The key a draft cites is chosen from the intent exactly as the classifier
  wrote it. The snippet, however, is looked up under the normalised intent.
  `Draft.CitedKeyCanDifferFromLookupKey` shows an intent, `"Fraud"`, that
  draws the fraud policy but cites the lost-or-stolen-card key.

## Model

| member | source | states |
|---|---|---|
| Strings.SkipSpaces | app/redact.py:24 | the scan from an index stops at the first non-whitespace character or the end, with only whitespace passed over |
| Strings.SkipSpacesBack | app/redact.py:24 | the backward scan stops just past the last non-whitespace character, or at its lower bound, with only whitespace passed over |
| Strings.Trim | app/redact.py:24 | the stripped text is no longer than the input and neither starts nor ends with whitespace |
| Strings.TrimSlice | app/redact.py:24 | the stripped text is the slice of the input that starts after the leading whitespace, and only whitespace lies before and after it |
| Strings.UnspacedIsStripped | app/redact.py:24 | stripping leaves a text unchanged exactly when it has no whitespace at either end |
| Strings.TrimIdempotent | app/redact.py:24-25 | stripping a stripped text changes nothing |
| Strings.Lower | app/kb.py:32 | lower-casing keeps the length and maps each character on its own |
| Strings.ReplaceSpaces | app/kb.py:32 | replacing spaces keeps the length, turns each space into `_` and leaves every other character |
| Strings.Contains | app/mtl.py:43 | the substring test holds exactly when the pattern occurs at some index |
| Strings.Join | app/run.py:106 | joining no parts gives the empty string; otherwise the result starts with the first part and is at least as long as the separators between the parts |
| Strings.JoinSnoc | app/run.py:106 | one part joins to itself, and joining one more part appends the separator and then that part, so the parts appear in order with one separator between each pair |
| Redact.ReplaceAll | app/redact.py:36 | substituting a literal by itself leaves the text unchanged |
| Redact.Redacted | app/redact.py:31-39 | with no rules, or with no rule whose pattern compiles, the text comes back unchanged |
| Redact.Redact | app/redact.py:31-39 | the output is the rules applied in list order, each to the previous output, skipping those whose pattern does not compile; with no rules the text comes back unchanged |
| Redact.ReplaceAllAbsent | app/redact.py:36 | substituting a non-empty pattern that does not occur leaves the text unchanged |
| Redact.ReplaceAllLeavesMask | app/redact.py:36 | where the pattern occurs, the mask occurs in the output |
| Redact.ReplaceAllRemoves | app/redact.py:36 | after substituting a non-empty pattern, the pattern no longer occurs, when the mask is non-empty and shares no character with it |
| Redact.ReplaceAllCreatesNoOccurrence | app/redact.py:36 | a substitution whose mask is non-empty and avoids a text's characters leaves a non-empty text that is absent from the input absent from the output |
| Redact.ReplaceAllEmptyLength | app/redact.py:36 | the length after substituting an empty pattern: the text's length plus one mask per character and one more |
| Redact.ReplaceAllEmptyAppend | app/redact.py:36 | an empty pattern turns the empty text into the mask, and a text extended by one character into the previous output, that character and the mask: the mask stands before every character and at the end |
| Redact.ReplaceAllKeeps | app/redact.py:36 | after substituting a non-empty literal, a non-empty text that shares no character with it and occurs in the input still occurs in the output |
| Redact.RedactedSkipsMalformed | app/redact.py:34-38 | dropping a rule whose pattern does not compile gives the same output |
| Redact.RedactedScrubs | app/redact.py:33-39 | once a rule masks a non-empty literal, it stays gone when every mask from that rule on is non-empty and avoids the literal's characters |
| Redact.TwoRulesInOrder | app/redact.py:33-39 | two compiling rules are the second substitution applied to the first one's output |
| Redact.TwoRulesScrubBothValues | tests/test_redact.py:13-24 | with two rules and a message holding both values (a card number and an e-mail address), when both values and both masks are non-empty, the masks avoid both values' characters and the second value avoids the first's, neither value is left and both masks appear |
| Redact.KeptEntry | app/redact.py:21-27 | one entry yields one stripped rule when it has both a pattern and a mask, and none otherwise |
| Redact.Kept | app/redact.py:16-28 | the loaded rules are no more than the entries, each has a stripped pattern and mask, and none is dropped when every entry has both keys |
| Redact.KeptAppend | app/redact.py:20-27 | the rules kept from two runs of entries are those kept from the first followed by those kept from the second, so order is preserved |
| Redact.KeptMembers | app/redact.py:20-27 | a rule is loaded exactly when it is the stripped form of an entry that has both a pattern and a mask |
| Redact.StrippedIsClean | app/redact.py:21-27 | a kept entry, once stripped, has both fields present, neither with whitespace at an end, so stripping them again changes nothing |
| Redact.LoadPatterns | app/redact.py:10-28 | a missing file gives no rules; otherwise the result is the kept, stripped entries in order, and every one has a pattern |
| Redact.LoadedRulesAreUsable | app/redact.py:19-36 | every loaded rule has a pattern, and its own mask is used, never the default |
| Kb.Alias | app/kb.py:20-31 | an aliased intent maps to one of the six policy keys; it maps to the fraud key exactly for "fraud", and to the lost-or-stolen-card key exactly for its four names |
| Kb.LookupKey | app/kb.py:32 | the lookup key is the alias of the normalised intent when it has one; otherwise it is the normalised intent, character by character, with each space turned into `_` |
| Kb.GetSnippet | app/kb.py:17-38 | the snippet under the lookup key, else under the normalised intent, else the empty string; the result is empty or a value of the store |
| Kb.AliasKeysHaveNoSpace | app/kb.py:20-32 | replacing spaces leaves every aliased intent as it is |
| Classify.FirstMatch | app/classify.py:41-44 | the index found carries the id and no earlier row does; no index means no row carries it |
| Classify.ClassifyStub | app/classify.py:19-52 | confidence is 1.0 exactly when the dataset, the columns, a non-empty id and a matching row all exist; the answer then is that first row's label (stripped, lower-cased) and queue (stripped); otherwise it is general / General Banking / 0.0 |
| Classify.StubConfidenceInUnitInterval | app/classify.py:28-52 | the lookup backend's confidence is 0.0 or 1.0 |
| Classify.StubUsesFirstMatchingRow | app/classify.py:41-44 | rows after the first row carrying an id do not change the lookup |
| Classify.Classify | app/classify.py:55-76 | the trained model's answer when the backend is "mtl" and the attempt succeeds; the lookup backend's answer in every other case |
| Classify.ClassifyConfidenceInUnitInterval | app/classify.py:55-76 | the confidence is present and within [0, 1] when the trained model's, if used, is |
| Mtl.LabelToIntent | app/mtl.py:33-35 | the result is always an intent; it is the stripped, lower-cased label when that is an intent, "general" otherwise |
| Mtl.FirstNameIn | app/mtl.py:42-44 | the index found is the first name, in order, whose lower-cased form occurs; no index means none occurs |
| Mtl.QueueNormalize | app/mtl.py:38-45 | the result is always a queue, and a stripped queue name is returned as it is |
| Mtl.QueueNormalizeBySubstring | app/mtl.py:38-45 | any other text maps to the first queue, in order, whose lower-cased name it contains, or to "General Banking" when it contains none |
| Mtl.Predict | app/mtl.py:137-149 | both heads' top classes, with confidence equal to the smaller of the two top probabilities |
| Mtl.PredictConfidenceInUnitInterval | app/mtl.py:142-144 | with head probabilities in [0, 1], the combined confidence is in [0, 1] |
| Mtl.Examples | app/mtl.py:86-88 | one example per row, each with an intent from the intent set and a queue from the queue set |
| Mtl.Train | app/mtl.py:52-110 | fails when the dataset is missing or lacks a needed column; otherwise fits on the normalised examples |
| Mtl.LoadOrTrain | app/mtl.py:152-160 | loads when the model file exists, trains otherwise |
| Mtl.Attempt | app/classify.py:68-75 | succeeds exactly when loading or training does, and then predicts with that model |
| Mtl.TrainedModelStaysInClosedSets | app/mtl.py:86-96 | a freshly trained model predicts only intents from the intent set and queues from the queue set |
| Mtl.AttemptConfidenceInUnitInterval | app/classify.py:68-75 | with calibrated models, the backend's and the dispatcher's confidence lie in [0, 1] |
| Draft.CitationKey | app/draft.py:62-66 | the cited key is one of the two policy keys, and it is the fraud key exactly when the intent is "fraud" or "suspected_fraud" as written |
| Draft.TemplateBody | app/draft.py:31 | the body has at most 500 characters and is no longer than the snippet |
| Draft.TemplateBodyIsStrippedPrefix | app/draft.py:31 | the body is the slice of the snippet's first 500 characters (all of it when shorter) that starts after their leading whitespace, with only whitespace after it up to the cut; it neither starts nor ends with whitespace |
| Draft.TemplateDraft | app/draft.py:28-33 | the template starts with the intro and the `[kb: key]` tag; its length is that prefix, the separators, the body and the closing line |
| Draft.TemplateLayout | app/draft.py:33 | after the cited intro come `:` and a blank line, then the body |
| Draft.TemplateEnding | app/draft.py:33 | after the body come a blank line and the closing line, and nothing else |
| Draft.DraftFromPolicy | app/draft.py:36-81 | out-of-scope intents and missing snippets get their fixed replies; the model's text is used exactly when the gate holds and the model returns non-empty text; every other reply is the template plus the fallback marker; no reply is empty |
| Draft.ModelIgnoredBelowGate | app/draft.py:69-72 | when the gate fails, the reply is a fallback and does not depend on the model |
| Draft.Eligible | app/draft.py:22-25 | an intent is served by the drafter exactly when it is looked up under one of the two policy keys |
| Draft.LlmGate | app/draft.py:69-72 | the model is consulted only with a confidence of at least 0.7, the setting on, the model configured and a message present |
| Draft.EligibleKeyOf | app/draft.py:22-25 | each normalised eligible intent maps, through the alias table or space replacement, to one of the two policy keys |
| Draft.KeyOfEligible | app/draft.py:22-25 | each normalised intent that maps to one of the two policy keys is eligible |
| Draft.CitedKeyCanDifferFromLookupKey | app/draft.py:56-66 | the intent "Fraud" is eligible and looked up under the fraud key, but cites the lost-or-stolen-card key |
| Draft.GeneralIsOutOfScope | app/draft.py:22-25 | the intent "general" is not eligible |
| Draft.OutOfScopeByLength | app/draft.py:10-25 | an intent whose normalised length is not 5, 9, 11, 15 or 16 is not eligible |
| Draft.KeysAreWords | app/draft.py:62-66 | both policy keys are non-empty runs of word characters |
| Draft.TemplateCites | app/draft.py:28-33 | every template reply with the fallback marker passes the citation check |
| Draft.EscalationsFailOnlyCitation | app/draft.py:50-61 | both escalation replies lack a citation and hold no digits, so they fail exactly the citation check |
| Draft.FallbackDraftCites | app/draft.py:67-81 | a fallback reply to an eligible intent with a snippet carries a citation |
| Guardrails.CitationFrom | app/guardrails.py:8 | the scan at a position is true exactly when a citation starts there |
| Guardrails.CitationIsScanned | app/guardrails.py:8 | in any citation the whitespace and the key are the whole runs the scans find, so the scan at its start cannot miss it |
| Guardrails.CitationPresent | app/guardrails.py:6-8 | true exactly when `[kb:` (either case), optional whitespace, one or more word characters and `]` occur in the draft |
| Guardrails.CitationNeedsLetterB | app/guardrails.py:8 | a text without the letter b in either case has no citation |
| Guardrails.TagIsCitation | app/guardrails.py:8 | a ` [kb: key]` tag with a key of word characters is a citation |
| Guardrails.CitationInPrefix | app/guardrails.py:8 | a citation in a prefix is a citation of the whole text |
| Guardrails.DigitRunPresent | app/guardrails.py:14-15 | true exactly when 16 consecutive digits occur |
| Guardrails.GroupsFrom | app/guardrails.py:16 | true exactly when four groups of four digits, separated by optional whitespace, start at the position |
| Guardrails.GroupsAreScanned | app/guardrails.py:16 | in any four digit groups each gap is the whole whitespace run, so skipping each run whole finds all four groups |
| Guardrails.DigitGroupsPresent | app/guardrails.py:16-17 | true exactly when such four groups occur anywhere |
| Guardrails.DigitRunIsDigitGroups | app/guardrails.py:13-17 | a 16-digit run is also a four-group match, so the first search never catches anything the second would miss |
| Guardrails.NoRawPii | app/guardrails.py:11-18 | passes exactly when neither a 16-digit run nor four digit groups occur |
| Guardrails.NoDigitsNoPii | app/guardrails.py:11-18 | a text without digits passes the card-number check |
| Guardrails.Failures | app/guardrails.py:25-30 | "citation_missing" is listed exactly when the citation is missing, "possible_pii_in_draft" exactly when a digit pattern occurs, in that order and nothing else |
| Guardrails.RunDraftChecks | app/guardrails.py:21-30 | returns those failures, and passes exactly when the draft cites a policy and holds no digit pattern |
| Pipeline.Rules | app/run.py:64-66 | the rules the run uses all have a pattern, and are empty when the rule file is missing |
| Pipeline.UseLlm | app/run.py:69 | an empty or all-whitespace `USE_LLM` setting switches the model off |
| Pipeline.Backend | app/run.py:67-68 | the backend is "mtl" exactly when the model file exists, "stub" otherwise |
| Pipeline.Process | app/run.py:94-105 | the redacted text is the rules applied to the message; the classification is the dispatcher's answer for the redacted text, the draft is drafted from that classification and the redacted text, and the failures are the draft's check failures |
| Pipeline.Status | app/run.py:106 | the status is "OK" exactly when no check failed |
| Pipeline.StatusOfChecks | app/run.py:105-106 | the status is "OK", "FAIL:citation_missing", "FAIL:possible_pii_in_draft" or "FAIL:citation_missing,possible_pii_in_draft", according to which checks fail |
| Pipeline.Preview | app/run.py:108 | the preview is the draft when it has at most 80 characters, else its first 80 followed by an ellipsis |
| Pipeline.RowFor | app/run.py:92-119 | the row carries the message id (empty when the column is missing), and checks_ok holds exactly when the status is "OK" |
| Pipeline.RowReportsOutcome | app/run.py:105-119 | every cell comes from the message's outcome (confidence defaulting to 0.0), and checks_ok holds exactly when the draft cites a policy and holds no digit pattern |
| Pipeline.ProcessOne | app/run.py:91-120 | the step-by-step processing of one record yields its specified row |
| Pipeline.Selected | app/run.py:62-63 | the rows kept are a prefix: all of them for no limit or 0, the first `limit` for a positive limit, all but the last `-limit` for a negative one |
| Pipeline.ProcessAll | app/run.py:136-138 | one row per record, in order, each the record's specified row |
| Pipeline.RunPipeline | app/run.py:45-138 | no rows when the message file is missing; otherwise one row per selected record, in file order |
| Pipeline.SingleMessage | app/run.py:175-197 | one text processed without an id; with the lookup backend it is classified general / General Banking / 0.0 |
| Pipeline.RowDependsOnlyOnRedactedText | app/run.py:92-104 | two records with the same id whose texts redact alike get the same row |
| Pipeline.EscalatedRowFailsCitation | app/run.py:102-106 | an escalated message's row is a fallback with status "FAIL:citation_missing" |
| Pipeline.TemplateRowCites | app/run.py:102-106 | a template reply's row is "OK" or fails only the card-number check |
| Pipeline.SingleMessageWithLookupEscalates | app/run.py:184-196 | with the lookup backend a single message is escalated as out of scope and fails exactly the citation check |
| Pipeline.RowConfidenceInUnitInterval | app/run.py:107 | with calibrated models every row's confidence lies in [0, 1] |
| Pipeline.PipelineNeverTrains | app/run.py:67-68 | the runner picks the trained backend only when its model file exists, so the backend loads and never trains |

## Left out

- Regular expressions in redaction rules:
  - Each compiling pattern is taken to match one literal text. Character
    classes, alternation and repetition in rule patterns are not modelled.
  - Neither are backslash escapes and group references in the mask.
- Text model:
  - `\d`, `\w`, `lower()` and case-insensitive matching are ASCII-only in
    the model. Python's are Unicode-aware, for example non-ASCII digits or
    the Kelvin sign matching `k`.
  - Strings are sequences of code points, with no encoding.
- Configuration input:
  - Reading and parsing the YAML pattern file is not modelled. The model
    takes whether the file exists and its parsed `patterns` list.
  - Only the `regex`, `mask` and `name` keys of an entry are kept.
  - `str()` of non-string YAML values is not modelled.
- Knowledge base: reading and stripping the `kb/*.md` files (`load_kb`) is
  not modelled. The policy store is given as a map.
- Message dataset:
  - pandas CSV parsing is not modelled: type inference (a numeric id column
    never equals a string id), missing cells read as NaN, and `astype`. Every
    cell is a string in the model.
  - A column missing from the file reads as the empty string.
- Training:
  - The `train_ratio` split is not modelled. The runner never sets it, so
    training always uses ratio 1.0.
  - The TF-IDF features and the logistic-regression numerics are the
    `Fitter` oracle.
  - Persisting the model with joblib is not modelled.
  - Confidences are real numbers, not floats.
- `MTLClassifier`: reading the model file is the `stored` field of the
  backend's state.
- `llm.py`: `is_available` and `generate_draft` are the `llmAvailable` and
  `generate` parameters.
- Runner:
  - Console output, the rich panels and tables, the progress bar and
    `_status_style` are left out.
  - So are `main`, its argument parsing, its prompt and its `MSG` handling,
    and the construction of the model path.
- `eval.py` and `train_mtl.py` are not part of this model.
- Redact.Redact: requires every rule to have a `regex` key. The source
  raises `KeyError` otherwise, since only `re.error` is caught. Loaded rules
  always have one (`Redact.LoadedRulesAreUsable`).
- Redact.ReplaceAllLeavesMask: the mask is proved present after the rule
  that writes it. A later rule may rewrite it, so the whole list promises a
  mask only where `Redact.TwoRulesScrubBothValues` shows it survives.
- Mtl.Attempt: a stored model that loads but raises inside `predict`
  (app/mtl.py:139-143) is not modelled. A loaded model always predicts, so
  that fallback to the lookup backend is not covered.

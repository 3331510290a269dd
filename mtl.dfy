/** The trained-model ("mtl") backend: the closed label and queue sets, the
    normalisers applied to training labels, the min-of-two-heads confidence
    rule, and the load-or-train branch. The fitted heads and the fitting
    itself are opaque: a head is a function from text to its predicted class
    and that class's probability, and fitting may fail. */
module Mtl {
  import opened Strings
  import opened Classify

  const Intents: seq<string> := ["general", "fraud", "credit", "dispute"]
  const Queues: seq<string> := [
    "General Banking",
    "Fraud/Economic Crime Prevention",
    "Credit/Risk",
    "Disputes/Chargebacks"
  ]

  /** `_label_to_intent`: the stripped, lower-cased label when it is one of
      the intents, "general" otherwise. */
  function LabelToIntent(raw: string): (r: string)
    ensures r in Intents
    ensures Lower(Trim(raw)) in Intents ==> r == Lower(Trim(raw))
    ensures Lower(Trim(raw)) !in Intents ==> r == "general"
  {
    var s := Lower(Trim(raw));
    if s in Intents then s else "general"
  }

  /** Name `j` of `names`, lower-cased, occurs in `ls`. */
  predicate NameOccurs(ls: string, names: seq<string>, j: nat)
    requires j < |names|
  {
    Contains(ls, Lower(names[j]))
  }

  /** Index of the first name, from `from` on and in order, whose
      lower-cased form occurs in `ls`. */
  function FirstNameIn(ls: string, names: seq<string>, from: nat): (r: Option<nat>)
    requires from <= |names|
    ensures r.Some? ==> from <= r.value < |names| && NameOccurs(ls, names, r.value)
    ensures r.Some? ==> forall j :: from <= j < r.value ==> !NameOccurs(ls, names, j)
    ensures r.None? ==> forall j :: from <= j < |names| ==> !NameOccurs(ls, names, j)
    decreases |names| - from
  {
    if from == |names| then None
    else if NameOccurs(ls, names, from) then Some(from)
    else FirstNameIn(ls, names, from + 1)
  }

  /** Queue `k` is the first, in tuple order, whose lower-cased name occurs
      in `ls`. */
  predicate FirstQueueHit(ls: string, k: nat) {
    k < |Queues| && NameOccurs(ls, Queues, k)
    && forall j :: 0 <= j < k ==> !NameOccurs(ls, Queues, j)
  }

  /** No queue's lower-cased name occurs in `ls`. */
  predicate NoQueueHit(ls: string) {
    forall j :: 0 <= j < |Queues| ==> !NameOccurs(ls, Queues, j)
  }

  /** `_queue_normalize`: the stripped queue when it is exactly one of the
      queues; otherwise the first queue whose lower-cased name occurs in the
      lower-cased stripped text; otherwise "General Banking". */
  function QueueNormalize(q: string): (r: string)
    ensures r in Queues
    ensures Trim(q) in Queues ==> r == Trim(q)
  {
    var s := Trim(q);
    if s in Queues then s
    else
      match FirstNameIn(Lower(s), Queues, 0)
      case Some(k) => Queues[k]
      case None => "General Banking"
  }

  /** A queue that is not exactly one of the queues is matched by substring,
      first hit in tuple order, with "General Banking" when nothing hits. */
  lemma QueueNormalizeBySubstring(q: string)
    requires Trim(q) !in Queues
    ensures (exists k: nat :: FirstQueueHit(Lower(Trim(q)), k) && QueueNormalize(q) == Queues[k])
            || (NoQueueHit(Lower(Trim(q))) && QueueNormalize(q) == "General Banking")
  {
    var s := Trim(q);
    var ls := Lower(s);
    var hit := FirstNameIn(ls, Queues, 0);
    assert QueueNormalize(q) == if hit.Some? then Queues[hit.value] else "General Banking";
    if hit.Some? {
      var k := hit.value;
      assert FirstQueueHit(ls, k);
    } else {
      assert NoQueueHit(ls);
    }
  }

  /** What one fitted head says about a text: its top class and that class's
      probability. */
  datatype HeadOutput = HeadOutput(predicted: string, topProbability: real)

  /** A fitted model: the shared representation with its two heads. */
  datatype Model = Model(intentHead: string -> HeadOutput, queueHead: string -> HeadOutput)

  /** One training example: the text with its normalised intent and queue. */
  datatype Example = Example(text: string, intent: string, queue: string)

  /** `MTLClassifier.predict`: both heads' top classes, with the smaller of
      the two top probabilities as the confidence. */
  function Predict(m: Model, redactedText: string): (r: ClassificationResult)
    ensures r.intent == m.intentHead(redactedText).predicted
    ensures r.suggestedQueue == m.queueHead(redactedText).predicted
    ensures r.confidence.Some?
    ensures r.confidence.value <= m.intentHead(redactedText).topProbability
    ensures r.confidence.value <= m.queueHead(redactedText).topProbability
    ensures r.confidence.value == m.intentHead(redactedText).topProbability
            || r.confidence.value == m.queueHead(redactedText).topProbability
  {
    var i := m.intentHead(redactedText);
    var q := m.queueHead(redactedText);
    ClassificationResult(i.predicted, q.predicted, Some(if i.topProbability <= q.topProbability then i.topProbability else q.topProbability))
  }

  /** Every head probability of the model lies in [0, 1]. */
  ghost predicate Calibrated(m: Model) {
    forall t :: 0.0 <= m.intentHead(t).topProbability <= 1.0 && 0.0 <= m.queueHead(t).topProbability <= 1.0
  }

  /** With probabilities in [0, 1], so is the combined confidence. */
  lemma PredictConfidenceInUnitInterval(m: Model, redactedText: string)
    requires Calibrated(m)
    ensures 0.0 <= Predict(m, redactedText).confidence.value <= 1.0
  {
    assert 0.0 <= m.intentHead(redactedText).topProbability <= 1.0;
  }

  /** The training set `train` builds: each row's text with its label and
      queue normalised. */
  function Examples(rows: seq<Record>): (ex: seq<Example>)
    ensures |ex| == |rows|
    ensures forall i :: 0 <= i < |ex| ==> ex[i].intent in Intents && ex[i].queue in Queues
  {
    seq(|rows|, i requires 0 <= i < |rows| =>
      Example(rows[i].text, LabelToIntent(rows[i].labelText), QueueNormalize(rows[i].suggestedQueue)))
  }

  /** The columns `train` needs. */
  predicate HasTrainingColumns(d: Dataset) {
    "text" in d.columns && "label" in d.columns && "suggested_queue" in d.columns
  }

  /** The fitting library: `None` when fitting or saving raised. */
  type Fitter = seq<Example> -> Option<Model>

  /** `train`: fails when the dataset file is missing or lacks a needed
      column; otherwise fits both heads on the normalised examples. */
  function Train(data: Option<Dataset>, fit: Fitter): (r: Option<Model>)
    ensures data.None? ==> r.None?
    ensures data.Some? && !HasTrainingColumns(data.value) ==> r.None?
    ensures data.Some? && HasTrainingColumns(data.value) ==> r == fit(Examples(data.value.rows))
  {
    if data.None? then None
    else if !HasTrainingColumns(data.value) then None
    else fit(Examples(data.value.rows))
  }

  /** The state the trained-model backend finds: whether a model file exists,
      what loading it gives (`None` when loading raises), and the fitter. */
  datatype MtlEnv = MtlEnv(modelFileExists: bool, stored: Option<Model>, fit: Fitter)

  /** `load_or_train`: loads when the model file exists, trains otherwise. */
  function LoadOrTrain(env: MtlEnv, data: Option<Dataset>): (r: Option<Model>)
    ensures env.modelFileExists ==> r == env.stored
    ensures !env.modelFileExists ==> r == Train(data, env.fit)
  {
    if env.modelFileExists then env.stored else Train(data, env.fit)
  }

  /** The trained-model backend's answer for one `classify` call: load or
      train, then predict; `None` when any step raised. Nothing is cached
      between calls. */
  function Attempt(env: MtlEnv, data: Option<Dataset>, redactedText: string): (r: Option<ClassificationResult>)
    ensures r.Some? <==> LoadOrTrain(env, data).Some?
    ensures r.Some? ==> r.value == Predict(LoadOrTrain(env, data).value, redactedText)
  {
    match LoadOrTrain(env, data)
    case None => None
    case Some(m) => Some(Predict(m, redactedText))
  }

  /** A head predicts only classes it saw in training, as a fitted
      logistic-regression head does. */
  ghost predicate PredictsSeenClasses(fit: Fitter) {
    forall ex: seq<Example>, t: string :: fit(ex).Some? ==>
      (exists i :: 0 <= i < |ex| && fit(ex).value.intentHead(t).predicted == ex[i].intent)
      && (exists i :: 0 <= i < |ex| && fit(ex).value.queueHead(t).predicted == ex[i].queue)
  }

  /** A model trained here predicts an intent from the intent set and a
      queue from the queue set, since its examples were normalised. */
  lemma TrainedModelStaysInClosedSets(data: Option<Dataset>, fit: Fitter, redactedText: string)
    requires PredictsSeenClasses(fit)
    requires Train(data, fit).Some?
    ensures Predict(Train(data, fit).value, redactedText).intent in Intents
    ensures Predict(Train(data, fit).value, redactedText).suggestedQueue in Queues
  {
    var ex := Examples(data.value.rows);
    var m := fit(ex).value;
    var i :| 0 <= i < |ex| && m.intentHead(redactedText).predicted == ex[i].intent;
    var j :| 0 <= j < |ex| && m.queueHead(redactedText).predicted == ex[j].queue;
  }

  /** The backend's confidence lies in [0, 1] whenever every model it can
      obtain, loaded or freshly trained, is calibrated; with that, `classify`
      stays in [0, 1] on every backend. */
  lemma AttemptConfidenceInUnitInterval(env: MtlEnv, data: Option<Dataset>, redactedText: string,
                                        messageId: Option<string>, backend: string)
    requires env.stored.Some? ==> Calibrated(env.stored.value)
    requires forall ex :: env.fit(ex).Some? ==> Calibrated(env.fit(ex).value)
    ensures var a := Attempt(env, data, redactedText);
            a.Some? ==> 0.0 <= a.value.confidence.value <= 1.0
    ensures var r := Classify.Classify(redactedText, data, messageId, backend, Attempt(env, data, redactedText));
            r.confidence.Some? && 0.0 <= r.confidence.value <= 1.0
  {
    var a := Attempt(env, data, redactedText);
    if a.Some? {
      PredictConfidenceInUnitInterval(LoadOrTrain(env, data).value, redactedText);
    }
    ClassifyConfidenceInUnitInterval(redactedText, data, messageId, backend, a);
  }
}

/** Draft generation: decides, for one classified message, whether to
    escalate (intent out of scope, or no policy snippet), to fill the fixed
    template citing the policy key, or to use the language model's text.
    The language model is an oracle given as a parameter: whether it is
    configured, and what it answers for a message, a snippet and a key. */
module Draft {
  import opened Strings
  import Kb
  import Guardrails
  import opened Classify

  /** Normalised intents the drafter serves (membership written out as a
      predicate over the fixed set). */
  predicate IsDraftIntent(n: string) {
    n == "card_lost_stolen" || n == "suspected_fraud" || n == "fraud"
    || n == "card_lost" || n == "lost_card" || n == "stolen_card"
  }

  const ConfidenceThreshold: real := 0.7

  const Intro := "Thank you for contacting us. Based on our policy"
  const Closing := "If you have further questions, please reply or call us."
  /** The two escalation replies, written in pieces so that the proofs below
      can check them piece by piece; each is the one sentence of text the
      drafter returns. */
  const OutOfScopeReply :=
    "Thank you for " + "your message. " + "A colleague " + "will respond " + "shortly. "
    + "[Escalated: " + "intent not in " + "draft scope]"
  const NoSnippetReply :=
    "We are sorry, " + "we need to " + "escalate your " + "request. " + "An agent will " + "contact you " + "shortly. "
    + "[Escalated: " + "no policy " + "snippet]"
  const NoLlmMarker := " [No-LLM fallback]"

  /** `_intent_eligible_for_draft`: the normalised intent is one the drafter
      serves, or becomes one of the two policy keys once its spaces are
      underscores. */
  function Eligible(intent: string): (b: bool)
    ensures b <==> Kb.LookupKey(intent) == "card_lost_stolen" || Kb.LookupKey(intent) == "suspected_fraud"
  {
    var n := Kb.Normalize(intent);
    EligibleKeyOf(n);
    KeyOfEligible(n);
    IsDraftIntent(n) || ReplaceSpaces(n) == "card_lost_stolen" || ReplaceSpaces(n) == "suspected_fraud"
  }

  /** The key the draft cites: chosen from the intent exactly as the
      classifier wrote it, without normalising. */
  function CitationKey(intent: string): (key: string)
    ensures key == "suspected_fraud" || key == "card_lost_stolen"
    ensures key == "suspected_fraud" <==> intent == "fraud" || intent == "suspected_fraud"
  {
    if intent == "fraud" || intent == "suspected_fraud" then "suspected_fraud" else "card_lost_stolen"
  }

  /** The citation tag the template carries, `[kb: key]`, after the intro. */
  function Cited(key: string): string {
    Intro + " [kb: " + key + "]"
  }

  /** At most the first 500 characters of the snippet, stripped. */
  function TemplateBody(snippet: string): (body: string)
    ensures |body| <= 500 && |body| <= |snippet|
  {
    Trim(snippet[..if |snippet| <= 500 then |snippet| else 500])
  }

  /** The body is what stripping leaves of the snippet's first 500
      characters `head`: the slice of `head` after its `k` leading whitespace
      characters, with only whitespace after it, neither starting nor ending
      with whitespace. */
  lemma TemplateBodyIsStrippedPrefix(snippet: string)
    ensures var head, b := snippet[..if |snippet| <= 500 then |snippet| else 500], TemplateBody(snippet);
            var k := SkipSpaces(head, 0);
            && (b == [] || (!IsSpace(b[0]) && !IsSpace(b[|b| - 1])))
            && k + |b| <= |head| && b == head[k..k + |b|]
            && SpaceBetween(head, 0, k) && SpaceBetween(head, k + |b|, |head|)
  {
    var head := snippet[..if |snippet| <= 500 then |snippet| else 500];
    assert TemplateBody(snippet) == Trim(head);
    TrimSlice(head);
  }

  /** `_template_draft`: the intro with the citation tag, the body, and the
      closing line. */
  function TemplateDraft(snippet: string, key: string): (r: string)
    ensures |Cited(key)| <= |r| && r[..|Cited(key)|] == Cited(key)
    ensures |r| == |Cited(key)| + 5 + |TemplateBody(snippet)| + |Closing|
  {
    var tail := ":\n\n" + TemplateBody(snippet) + "\n\n" + Closing;
    assert (Cited(key) + tail)[..|Cited(key)|] == Cited(key);
    Cited(key) + tail
  }

  /** After the cited intro come a colon and a blank line, then the body. */
  lemma TemplateLayout(snippet: string, key: string)
    ensures var r, c, b := TemplateDraft(snippet, key), |Cited(key)|, |TemplateBody(snippet)|;
            && r[c..c + 3] == ":\n\n"
            && r[c + 3..c + 3 + b] == TemplateBody(snippet)
  {
    var c, b := Cited(key), TemplateBody(snippet);
    assert TemplateDraft(snippet, key) == c + (":\n\n" + b + "\n\n" + Closing);
    PiecesOf(c, ":\n\n", b, "\n\n", Closing);
  }

  /** After the body come a blank line and the closing line, and nothing
      else. */
  lemma TemplateEnding(snippet: string, key: string)
    ensures var r, c, b := TemplateDraft(snippet, key), |Cited(key)|, |TemplateBody(snippet)|;
            && r[c + 3 + b..c + 5 + b] == "\n\n"
            && r[c + 5 + b..] == Closing
  {
    var c, b := Cited(key), TemplateBody(snippet);
    assert TemplateDraft(snippet, key) == c + (":\n\n" + b + "\n\n" + Closing);
    PiecesOf(c, ":\n\n", b, "\n\n", Closing);
  }

  /** Where each piece of a five-piece concatenation lies. */
  lemma PiecesOf(a: string, x: string, b: string, y: string, z: string)
    ensures var r := a + (x + b + y + z);
            && |r| == |a| + |x| + |b| + |y| + |z|
            && r[..|a|] == a
            && r[|a|..|a| + |x|] == x
            && r[|a| + |x|..|a| + |x| + |b|] == b
            && r[|a| + |x| + |b|..|a| + |x| + |b| + |y|] == y
            && r[|a| + |x| + |b| + |y|..] == z
  {
    var r := a + (x + b + y + z);
    assert r[..|a|] == a;
    assert r[|a|..] == x + b + y + z;
    assert (x + b + y + z)[..|x|] == x;
    assert (x + b + y + z)[|x|..] == b + y + z;
    assert (b + y + z)[..|b|] == b;
    assert (b + y + z)[|b|..] == y + z;
    assert (y + z)[..|y|] == y;
    assert (y + z)[|y|..] == z;
  }

  /** What `draft_from_policy` returns: the reply and whether it is a
      fallback (escalation or template) rather than the model's text. */
  datatype DraftResult = DraftResult(text: string, usedFallback: bool)

  /** `confidence or 0.0`. */
  function ConfidenceOrZero(c: ClassificationResult): real {
    if c.confidence.Some? then c.confidence.value else 0.0
  }

  /** `(redacted_message or "").strip()`. */
  function MessageText(redactedMessage: Option<string>): string {
    Trim(if redactedMessage.Some? then redactedMessage.value else "")
  }

  /** The language model: given the stripped message, the snippet and the
      key, its reply, or `None` on an error. */
  type Generator = (string, string, string) -> Option<string>

  /** Everything the model call needs is in place: enough confidence, the
      caller asked for it, it is configured, and there is a message. */
  function LlmGate(c: ClassificationResult, useLlm: bool, redactedMessage: Option<string>, llmAvailable: bool): (b: bool)
    ensures b ==> c.confidence.Some? && c.confidence.value >= ConfidenceThreshold
    ensures b ==> useLlm && llmAvailable && redactedMessage.Some?
  {
    ConfidenceOrZero(c) >= ConfidenceThreshold && useLlm && llmAvailable && MessageText(redactedMessage) != ""
  }

  /** `draft_from_policy`. */
  function DraftFromPolicy(c: ClassificationResult, kb: map<string, string>, useLlm: bool,
                           redactedMessage: Option<string>, llmAvailable: bool, generate: Generator): (r: DraftResult)
    ensures !Eligible(c.intent) ==> r == DraftResult(OutOfScopeReply, true)
    ensures Eligible(c.intent) && Kb.GetSnippet(kb, c.intent) == "" ==> r == DraftResult(NoSnippetReply, true)
    ensures !r.usedFallback <==>
              Eligible(c.intent) && Kb.GetSnippet(kb, c.intent) != "" && LlmGate(c, useLlm, redactedMessage, llmAvailable)
              && var answer := generate(MessageText(redactedMessage), Kb.GetSnippet(kb, c.intent), CitationKey(c.intent));
                 answer.Some? && answer.value != ""
    ensures !r.usedFallback ==>
              r.text == generate(MessageText(redactedMessage), Kb.GetSnippet(kb, c.intent), CitationKey(c.intent)).value
    ensures r.usedFallback && Eligible(c.intent) && Kb.GetSnippet(kb, c.intent) != "" ==>
              r.text == TemplateDraft(Kb.GetSnippet(kb, c.intent), CitationKey(c.intent)) + NoLlmMarker
    ensures r.text != ""
  {
    if !Eligible(c.intent) then DraftResult(OutOfScopeReply, true)
    else
      var snippet := Kb.GetSnippet(kb, c.intent);
      if snippet == "" then DraftResult(NoSnippetReply, true)
      else
        var key := CitationKey(c.intent);
        var fallback := DraftResult(TemplateDraft(snippet, key) + NoLlmMarker, true);
        if ConfidenceOrZero(c) < ConfidenceThreshold then fallback
        else if !useLlm || !llmAvailable || MessageText(redactedMessage) == "" then fallback
        else
          match generate(MessageText(redactedMessage), snippet, key)
          case Some(t) => if t != "" then DraftResult(t, false) else fallback
          case None => fallback
  }

  // ---------------------------------------------------------------------
  // Properties

  /** Below the threshold, or without the model, the draft is the template
      whatever the model would have answered. */
  lemma ModelIgnoredBelowGate(c: ClassificationResult, kb: map<string, string>, useLlm: bool,
                              redactedMessage: Option<string>, llmAvailable: bool, g1: Generator, g2: Generator)
    requires !LlmGate(c, useLlm, redactedMessage, llmAvailable)
    ensures DraftFromPolicy(c, kb, useLlm, redactedMessage, llmAvailable, g1)
            == DraftFromPolicy(c, kb, useLlm, redactedMessage, llmAvailable, g2)
    ensures DraftFromPolicy(c, kb, useLlm, redactedMessage, llmAvailable, g1).usedFallback
  {
  }

  /** A normalised intent the drafter serves is looked up under one of the
      two policy keys. */
  lemma EligibleKeyOf(n: string)
    ensures IsDraftIntent(n) || ReplaceSpaces(n) == "card_lost_stolen" || ReplaceSpaces(n) == "suspected_fraud"
            ==> var key := if Kb.Alias(n).Some? then Kb.Alias(n).value else ReplaceSpaces(n);
                key == "card_lost_stolen" || key == "suspected_fraud"
  {
    if n == "suspected_fraud" {
      assert Kb.Alias(n) == None;
      ReplaceSpacesOfUnspaced(n);
    } else if n == "fraud" {
      assert Kb.Alias(n) == Some("suspected_fraud");
    } else if IsDraftIntent(n) {
      assert Kb.Alias(n) == Some("card_lost_stolen");
    } else if Kb.Alias(n).Some? {
      Kb.AliasKeysHaveNoSpace(n);
    }
  }

  /** A normalised intent looked up under one of the two policy keys is one
      the drafter serves. */
  lemma KeyOfEligible(n: string)
    ensures var key := if Kb.Alias(n).Some? then Kb.Alias(n).value else ReplaceSpaces(n);
            key == "card_lost_stolen" || key == "suspected_fraud"
            ==> IsDraftIntent(n) || ReplaceSpaces(n) == "card_lost_stolen" || ReplaceSpaces(n) == "suspected_fraud"
  {
    var a := Kb.Alias(n);
    if a == Some("suspected_fraud") {
      assert n == "fraud";
    } else if a == Some("card_lost_stolen") {
      assert n == "card_lost" || n == "card_lost_stolen" || n == "lost_card" || n == "stolen_card";
    }
  }

  /** The cited key follows the intent as written, while the lookup
      normalises it: an intent "Fraud" draws the fraud policy's snippet but
      cites the lost-or-stolen-card key. */
  lemma CitedKeyCanDifferFromLookupKey(intent: string)
    requires intent == "Fraud"
    ensures Eligible(intent)
    ensures Kb.LookupKey(intent) == "suspected_fraud"
    ensures CitationKey(intent) == "card_lost_stolen"
  {
    Strings.TrimOfUnspaced(intent);
    var n := Kb.Normalize(intent);
    assert n == "fraud" by {
      assert |n| == 5;
      assert n[0] == 'f';
    }
  }

  /** The lookup backend's default intent, "general", is out of scope. */
  lemma GeneralIsOutOfScope(intent: string)
    requires intent == "general"
    ensures !Eligible(intent)
  {
    Strings.TrimOfUnspaced(intent);
    OutOfScopeByLength(intent);
  }

  /** The normalised intents the drafter serves have 5, 9, 11, 15 or 16
      characters, so an intent of any other length is out of scope. */
  lemma OutOfScopeByLength(intent: string)
    requires var m := |Kb.Normalize(intent)|; m != 5 && m != 9 && m != 11 && m != 15 && m != 16
    ensures !Eligible(intent)
  {
    var n := Kb.Normalize(intent);
    assert |ReplaceSpaces(n)| == |n|;
  }

  /** Both policy keys consist of word characters. */
  lemma KeysAreWords(key: string)
    requires key == "suspected_fraud" || key == "card_lost_stolen"
    ensures key != [] && forall x :: 0 <= x < |key| ==> Guardrails.IsWordChar(key[x])
  {
  }

  /** Every template reply passes the citation check. */
  lemma TemplateCites(snippet: string, key: string)
    requires key == "suspected_fraud" || key == "card_lost_stolen"
    ensures Guardrails.HasCitation(TemplateDraft(snippet, key) + NoLlmMarker)
  {
    var c := Cited(key);
    var r := TemplateDraft(snippet, key) + NoLlmMarker;
    KeysAreWords(key);
    Guardrails.TagIsCitation(Intro, key);
    assert r[..|c|] == c;
    Guardrails.CitationInPrefix(c, r);
  }

  /** No letter b (either case) and no digit. */
  predicate NoLetterBNorDigit(s: string) {
    forall x :: 0 <= x < |s| ==> s[x] != 'b' && s[x] != 'B' && !Guardrails.IsDigit(s[x])
  }

  lemma NoLetterBNorDigitAppend(s: string, t: string)
    requires NoLetterBNorDigit(s) && NoLetterBNorDigit(t)
    ensures NoLetterBNorDigit(s + t)
  {
    forall x | 0 <= x < |s + t|
      ensures (s + t)[x] != 'b' && (s + t)[x] != 'B' && !Guardrails.IsDigit((s + t)[x])
    {
      if x < |s| {
        assert (s + t)[x] == s[x];
      } else {
        assert (s + t)[x] == t[x - |s|];
      }
    }
  }

  lemma OutOfScopeReplyStart()
    ensures NoLetterBNorDigit("Thank you for " + "your message. " + "A colleague " + "will respond ")
  {
    var t := "Thank you for ";
    assert NoLetterBNorDigit(t);
    NoLetterBNorDigitAppend(t, "your message. ");
    t := t + "your message. ";
    NoLetterBNorDigitAppend(t, "A colleague ");
    t := t + "A colleague ";
    NoLetterBNorDigitAppend(t, "will respond ");
  }

  lemma OutOfScopeReplyLacksBAndDigits()
    ensures NoLetterBNorDigit(OutOfScopeReply)
  {
    OutOfScopeReplyStart();
    var t := "Thank you for " + "your message. " + "A colleague " + "will respond ";
    NoLetterBNorDigitAppend(t, "shortly. ");
    t := t + "shortly. ";
    NoLetterBNorDigitAppend(t, "[Escalated: ");
    t := t + "[Escalated: ";
    NoLetterBNorDigitAppend(t, "intent not in ");
    t := t + "intent not in ";
    NoLetterBNorDigitAppend(t, "draft scope]");
  }

  lemma NoSnippetReplyStart()
    ensures NoLetterBNorDigit("We are sorry, " + "we need to " + "escalate your " + "request. " + "An agent will ")
  {
    var t := "We are sorry, ";
    assert NoLetterBNorDigit(t);
    NoLetterBNorDigitAppend(t, "we need to ");
    t := t + "we need to ";
    NoLetterBNorDigitAppend(t, "escalate your ");
    t := t + "escalate your ";
    NoLetterBNorDigitAppend(t, "request. ");
    t := t + "request. ";
    NoLetterBNorDigitAppend(t, "An agent will ");
  }

  lemma NoSnippetReplyLacksBAndDigits()
    ensures NoLetterBNorDigit(NoSnippetReply)
  {
    NoSnippetReplyStart();
    var t := "We are sorry, " + "we need to " + "escalate your " + "request. " + "An agent will ";
    NoLetterBNorDigitAppend(t, "contact you ");
    t := t + "contact you ";
    NoLetterBNorDigitAppend(t, "shortly. ");
    t := t + "shortly. ";
    NoLetterBNorDigitAppend(t, "[Escalated: ");
    t := t + "[Escalated: ";
    NoLetterBNorDigitAppend(t, "no policy ");
    t := t + "no policy ";
    NoLetterBNorDigitAppend(t, "snippet]");
  }

  /** Neither escalation reply carries a citation, and neither holds a
      digit, so both fail exactly the citation check. */
  lemma EscalationsFailOnlyCitation()
    ensures !Guardrails.HasCitation(OutOfScopeReply) && Guardrails.NoRawPii(OutOfScopeReply)
    ensures !Guardrails.HasCitation(NoSnippetReply) && Guardrails.NoRawPii(NoSnippetReply)
    ensures Guardrails.Failures(OutOfScopeReply) == [Guardrails.CitationMissing]
    ensures Guardrails.Failures(NoSnippetReply) == [Guardrails.CitationMissing]
  {
    OutOfScopeReplyLacksBAndDigits();
    NoSnippetReplyLacksBAndDigits();
    Guardrails.CitationNeedsLetterB(OutOfScopeReply);
    Guardrails.CitationNeedsLetterB(NoSnippetReply);
    Guardrails.NoDigitsNoPii(OutOfScopeReply);
    Guardrails.NoDigitsNoPii(NoSnippetReply);
  }

  /** A fallback draft for a message the drafter serves, when a snippet
      exists, always carries a citation. */
  lemma FallbackDraftCites(c: ClassificationResult, kb: map<string, string>, useLlm: bool,
                           redactedMessage: Option<string>, llmAvailable: bool, generate: Generator)
    requires Eligible(c.intent) && Kb.GetSnippet(kb, c.intent) != ""
    requires DraftFromPolicy(c, kb, useLlm, redactedMessage, llmAvailable, generate).usedFallback
    ensures Guardrails.HasCitation(DraftFromPolicy(c, kb, useLlm, redactedMessage, llmAvailable, generate).text)
  {
    TemplateCites(Kb.GetSnippet(kb, c.intent), CitationKey(c.intent));
  }
}

/** The policy store: a read-only table from policy key to snippet text, and
    the lookup that maps an intent to a snippet through a fixed alias table. */
module Kb {
  import opened Strings

  /** The policy keys the alias table can name. */
  predicate IsAliasKey(k: string) {
    k == "suspected_fraud" || k == "card_lost_stolen" || k == "dispute_timelines"
    || k == "credit_limit_policy" || k == "general_servicing" || k == "auth_safety"
  }

  /** The fixed alias table from a normalised intent to its policy key. */
  function Alias(n: string): (r: Option<string>)
    ensures r.Some? ==> IsAliasKey(r.value)
    ensures r == Some("suspected_fraud") <==> n == "fraud"
    ensures r == Some("card_lost_stolen") <==> n == "card_lost" || n == "card_lost_stolen" || n == "lost_card" || n == "stolen_card"
  {
    if n == "fraud" then Some("suspected_fraud")
    else if n == "card_lost" || n == "card_lost_stolen" || n == "lost_card" || n == "stolen_card" then
      Some("card_lost_stolen")
    else if n == "dispute" || n == "disputes" then Some("dispute_timelines")
    else if n == "credit" then Some("credit_limit_policy")
    else if n == "general" then Some("general_servicing")
    else if n == "auth" then Some("auth_safety")
    else None
  }

  /** `intent.strip().lower()`. */
  function Normalize(intent: string): string {
    Lower(Trim(intent))
  }

  /** The key looked up first: the alias of the normalised intent, or else
      the normalised intent with its spaces turned into underscores. */
  function LookupKey(intent: string): (key: string)
    ensures Alias(Normalize(intent)).Some? ==> IsAliasKey(key)
    ensures Alias(Normalize(intent)).Some? ==> key == Alias(Normalize(intent)).value
    ensures Alias(Normalize(intent)).None? ==>
              |key| == |Normalize(intent)| && forall i :: 0 <= i < |key| ==> key[i] != ' '
    ensures Alias(Normalize(intent)).None? ==>
              forall i :: 0 <= i < |key| ==>
                key[i] == (if Normalize(intent)[i] == ' ' then '_' else Normalize(intent)[i])
  {
    var n := Normalize(intent);
    if Alias(n).Some? then Alias(n).value else ReplaceSpaces(n)
  }

  /** `get_snippet(kb, intent)`: the entry for the lookup key, else the
      entry for the normalised intent itself, else the empty string, which
      callers read as "no snippet". */
  function GetSnippet(kb: map<string, string>, intent: string): (r: string)
    ensures r == "" || r in kb.Values
    ensures LookupKey(intent) in kb ==> r == kb[LookupKey(intent)]
    ensures LookupKey(intent) !in kb && Normalize(intent) in kb ==> r == kb[Normalize(intent)]
    ensures LookupKey(intent) !in kb && Normalize(intent) !in kb ==> r == ""
  {
    var key := LookupKey(intent);
    if key in kb then kb[key]
    else if Normalize(intent) in kb then kb[Normalize(intent)]
    else ""
  }

  /** No alias key contains a space, so turning spaces into underscores
      leaves an alias key as it is. */
  lemma AliasKeysHaveNoSpace(n: string)
    requires Alias(n).Some?
    ensures ReplaceSpaces(n) == n
  {
    if n == "fraud" {
      assert forall i :: 0 <= i < |"fraud"| ==> "fraud"[i] != ' ';
    } else if n == "card_lost" {
      assert forall i :: 0 <= i < |"card_lost"| ==> "card_lost"[i] != ' ';
    } else if n == "card_lost_stolen" {
      assert forall i :: 0 <= i < |"card_lost_stolen"| ==> "card_lost_stolen"[i] != ' ';
    } else if n == "lost_card" {
      assert forall i :: 0 <= i < |"lost_card"| ==> "lost_card"[i] != ' ';
    } else if n == "stolen_card" {
      assert forall i :: 0 <= i < |"stolen_card"| ==> "stolen_card"[i] != ' ';
    } else if n == "dispute" {
      assert forall i :: 0 <= i < |"dispute"| ==> "dispute"[i] != ' ';
    } else if n == "disputes" {
      assert forall i :: 0 <= i < |"disputes"| ==> "disputes"[i] != ' ';
    } else if n == "credit" {
      assert forall i :: 0 <= i < |"credit"| ==> "credit"[i] != ' ';
    } else if n == "general" {
      assert forall i :: 0 <= i < |"general"| ==> "general"[i] != ' ';
    } else if n == "auth" {
      assert forall i :: 0 <= i < |"auth"| ==> "auth"[i] != ' ';
    }
    ReplaceSpacesOfUnspaced(n);
  }
}

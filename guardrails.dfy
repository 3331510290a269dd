/** The guardrail validator: two fixed checks over a draft reply, both always
    run, and the ordered list of reasons for the ones that fail.

    The checks search the draft for fixed regular expressions. Each is given
    twice: as a declarative statement of what a match is (positions in the
    draft, ghost) and as a left-to-right scan, proved to agree. */
module Guardrails {
  import opened Strings

  const CitationMissing := "citation_missing"
  const PossiblePii := "possible_pii_in_draft"

  /** `\d`: a decimal digit. */
  predicate IsDigit(c: char) {
    '0' <= c <= '9'
  }

  /** `\w`: a letter, a digit or the underscore. */
  predicate IsWordChar(c: char) {
    ('a' <= c <= 'z') || ('A' <= c <= 'Z') || IsDigit(c) || c == '_'
  }

  // ---------------------------------------------------------------------
  // Scanning helpers

  /** The end of the longest run of `p` characters starting at `from`. */
  function SpanEnd(s: string, from: nat, p: char -> bool): (q: nat)
    requires from <= |s|
    ensures from <= q <= |s|
    ensures forall x :: from <= x < q ==> p(s[x])
    ensures q == |s| || !p(s[q])
    decreases |s| - from
  {
    if from < |s| && p(s[from]) then SpanEnd(s, from + 1, p) else from
  }

  /** A run of `p` characters that is followed by a non-`p` character (or
      the end) is the longest run. */
  lemma {:induction false} SpanEndIsUnique(s: string, from: nat, q: nat, p: char -> bool)
    requires from <= q <= |s|
    requires forall x :: from <= x < q ==> p(s[x])
    requires q == |s| || !p(s[q])
    ensures SpanEnd(s, from, p) == q
    decreases q - from
  {
    if from < q {
      SpanEndIsUnique(s, from + 1, q, p);
    }
  }

  /** Some index in `[i, n)` satisfies `f`. */
  predicate AnyIndex(i: nat, n: nat, f: nat -> bool)
    decreases n - i
  {
    i < n && (f(i) || AnyIndex(i + 1, n, f))
  }

  lemma {:induction false} AnyIndexMeans(i: nat, n: nat, f: nat -> bool)
    ensures AnyIndex(i, n, f) <==> exists j: nat :: i <= j < n && f(j)
    decreases n - i
  {
    if i < n {
      AnyIndexMeans(i + 1, n, f);
    }
  }

  // ---------------------------------------------------------------------
  // Citation: `\[kb:\s*\w+\]`, ignoring case

  /** A citation occupies `s[i..k+1]`: `[kb:` (either case for the letters)
      at `i`, whitespace up to `j`, one or more word characters up to `k`,
      and `]` at `k`. */
  ghost predicate CitationAt(s: string, i: nat, j: nat, k: nat) {
    i + 4 <= j < k < |s|
    && s[i] == '[' && LowerChar(s[i + 1]) == 'k' && LowerChar(s[i + 2]) == 'b' && s[i + 3] == ':'
    && (forall x :: i + 4 <= x < j ==> IsSpace(s[x]))
    && (forall x :: j <= x < k ==> IsWordChar(s[x]))
    && s[k] == ']'
  }

  ghost predicate HasCitation(s: string) {
    exists i: nat, j: nat, k: nat :: CitationAt(s, i, j, k)
  }

  /** A citation at `i` ends its whitespace and its word characters where
      the scans over each run stop. */
  lemma CitationIsScanned(s: string, i: nat, j: nat, k: nat)
    requires CitationAt(s, i, j, k)
    ensures SpanEnd(s, i + 4, IsSpace) == j && SpanEnd(s, j, IsWordChar) == k
  {
    assert !IsWordChar(s[k]);
    SpanEndIsUnique(s, i + 4, j, IsSpace);
    SpanEndIsUnique(s, j, k, IsWordChar);
  }

  /** Whether a citation starts at `i`; whitespace and word characters are
      disjoint, so each run is taken whole. */
  function CitationFrom(s: string, i: nat): (b: bool)
    ensures b <==> exists j: nat, k: nat :: CitationAt(s, i, j, k)
  {
    if i + 4 <= |s| && s[i] == '[' && LowerChar(s[i + 1]) == 'k' && LowerChar(s[i + 2]) == 'b' && s[i + 3] == ':' then
      var j := SpanEnd(s, i + 4, IsSpace);
      var k := SpanEnd(s, j, IsWordChar);
      var b := j < k < |s| && s[k] == ']';
      assert b ==> CitationAt(s, i, j, k);
      assert (exists j': nat, k': nat :: CitationAt(s, i, j', k')) ==> b by {
        if exists j': nat, k': nat :: CitationAt(s, i, j', k') {
          var j': nat, k': nat :| CitationAt(s, i, j', k');
          CitationIsScanned(s, i, j', k');
        }
      }
      b
    else
      false
  }

  /** `check_draft_citation_present`: a citation starts somewhere. */
  function CitationPresent(draft: string): (b: bool)
    ensures b <==> HasCitation(draft)
  {
    var f := (i: nat) => CitationFrom(draft, i);
    AnyIndexMeans(0, |draft|, f);
    var b := AnyIndex(0, |draft|, f);
    assert b ==> HasCitation(draft) by {
      if b {
        var i: nat :| i < |draft| && f(i);
        var j: nat, k: nat :| CitationAt(draft, i, j, k);
      }
    }
    assert HasCitation(draft) ==> b by {
      if HasCitation(draft) {
        var i: nat, j: nat, k: nat :| CitationAt(draft, i, j, k);
        assert f(i);
      }
    }
    b
  }

  /** A citation needs the letter b (either case), so a text without one
      never passes the citation check. */
  lemma CitationNeedsLetterB(s: string)
    requires forall x :: 0 <= x < |s| ==> s[x] != 'b' && s[x] != 'B'
    ensures !HasCitation(s)
  {
  }

  /** A tag `[kb: key]`, with a key of word characters, is a citation
      whatever precedes it. */
  lemma TagIsCitation(pre: string, key: string)
    requires key != [] && forall x :: 0 <= x < |key| ==> IsWordChar(key[x])
    ensures HasCitation(pre + " [kb: " + key + "]")
  {
    var s := pre + " [kb: " + key + "]";
    var i := |pre| + 1;
    var k := |s| - 1;
    assert s[i] == '[' && s[i + 1] == 'k' && s[i + 2] == 'b' && s[i + 3] == ':' && s[i + 4] == ' ';
    forall x | i + 5 <= x < k
      ensures IsWordChar(s[x])
    {
      assert s[x] == key[x - i - 5];
    }
    assert CitationAt(s, i, i + 5, k);
  }

  /** A citation in a prefix is a citation in the whole text. */
  lemma CitationInPrefix(p: string, t: string)
    requires HasCitation(p)
    requires |p| <= |t| && t[..|p|] == p
    ensures HasCitation(t)
  {
    var i: nat, j: nat, k: nat :| CitationAt(p, i, j, k);
    assert forall x :: 0 <= x < |p| ==> t[x] == p[x] by {
      forall x | 0 <= x < |p|
        ensures t[x] == p[x]
      {
        assert t[..|p|][x] == t[x];
      }
    }
    assert CitationAt(t, i, j, k);
  }

  // ---------------------------------------------------------------------
  // Card numbers: `\d{16}` and `\d{4}\s*\d{4}\s*\d{4}\s*\d{4}`

  predicate DigitsAt(s: string, i: nat, n: nat) {
    i + n <= |s| && forall x :: i <= x < i + n ==> IsDigit(s[x])
  }

  predicate SpacesBetween(s: string, i: nat, j: nat) {
    i <= j <= |s| && forall x :: i <= x < j ==> IsSpace(s[x])
  }

  /** Sixteen consecutive digits start at `i`. */
  ghost predicate HasDigitRun(s: string) {
    exists i: nat :: DigitsAt(s, i, 16)
  }

  /** Four groups of four digits start at `i`, with `a`, `b` and `c`
      whitespace characters between them. */
  ghost predicate GroupsAt(s: string, i: nat, a: nat, b: nat, c: nat) {
    DigitsAt(s, i, 4)
    && SpacesBetween(s, i + 4, i + 4 + a) && DigitsAt(s, i + 4 + a, 4)
    && SpacesBetween(s, i + 8 + a, i + 8 + a + b) && DigitsAt(s, i + 8 + a + b, 4)
    && SpacesBetween(s, i + 12 + a + b, i + 12 + a + b + c) && DigitsAt(s, i + 12 + a + b + c, 4)
  }

  ghost predicate HasDigitGroups(s: string) {
    exists i: nat, a: nat, b: nat, c: nat :: GroupsAt(s, i, a, b, c)
  }

  /** Sixteen consecutive digits are four groups with nothing between them. */
  lemma DigitRunIsDigitGroups(s: string)
    requires HasDigitRun(s)
    ensures HasDigitGroups(s)
  {
    var i: nat :| DigitsAt(s, i, 16);
    assert GroupsAt(s, i, 0, 0, 0);
  }

  /** After a group of four digits at `p`, skip the whitespace that follows
      and report where the next group must start. */
  function NextGroup(s: string, p: nat): nat
    requires DigitsAt(s, p, 4)
  {
    SpanEnd(s, p + 4, IsSpace)
  }

  /** In four groups starting at `i`, each gap is the whole whitespace run
      after the group before it. */
  lemma GapsAreWholeRuns(s: string, i: nat, a: nat, b: nat, c: nat)
    requires GroupsAt(s, i, a, b, c)
    ensures NextGroup(s, i) == i + 4 + a
    ensures NextGroup(s, i + 4 + a) == i + 8 + a + b
    ensures NextGroup(s, i + 8 + a + b) == i + 12 + a + b + c
  {
    SpanEndIsUnique(s, i + 4, i + 4 + a, IsSpace);
    SpanEndIsUnique(s, i + 8 + a, i + 8 + a + b, IsSpace);
    SpanEndIsUnique(s, i + 12 + a + b, i + 12 + a + b + c, IsSpace);
  }

  /** Four groups at `i` are found by skipping each whitespace run whole. */
  lemma GroupsAreScanned(s: string, i: nat, a: nat, b: nat, c: nat)
    requires GroupsAt(s, i, a, b, c)
    ensures DigitsAt(s, i, 4) && DigitsAt(s, NextGroup(s, i), 4)
            && DigitsAt(s, NextGroup(s, NextGroup(s, i)), 4)
            && DigitsAt(s, NextGroup(s, NextGroup(s, NextGroup(s, i))), 4)
  {
    GapsAreWholeRuns(s, i, a, b, c);
  }

  /** Whether four digit groups start at `i`, scanning each whitespace gap
      whole (whitespace and digits are disjoint). */
  function GroupsFrom(s: string, i: nat): (b: bool)
    ensures b <==> exists a: nat, b: nat, c: nat :: GroupsAt(s, i, a, b, c)
  {
    var found :=
      DigitsAt(s, i, 4)
      && var p1 := NextGroup(s, i);
      DigitsAt(s, p1, 4)
      && var p2 := NextGroup(s, p1);
      DigitsAt(s, p2, 4)
      && var p3 := NextGroup(s, p2);
      DigitsAt(s, p3, 4);
    assert found ==> GroupsAt(s, i, NextGroup(s, i) - i - 4, NextGroup(s, NextGroup(s, i)) - NextGroup(s, i) - 4,
                              NextGroup(s, NextGroup(s, NextGroup(s, i))) - NextGroup(s, NextGroup(s, i)) - 4);
    assert (exists a: nat, b: nat, c: nat :: GroupsAt(s, i, a, b, c)) ==> found by {
      if exists a: nat, b: nat, c: nat :: GroupsAt(s, i, a, b, c) {
        var a: nat, b: nat, c: nat :| GroupsAt(s, i, a, b, c);
        GroupsAreScanned(s, i, a, b, c);
      }
    }
    found
  }

  /** Whether sixteen consecutive digits start somewhere. */
  function DigitRunPresent(draft: string): (b: bool)
    ensures b <==> HasDigitRun(draft)
  {
    var run := (i: nat) => DigitsAt(draft, i, 16);
    AnyIndexMeans(0, |draft|, run);
    var b := AnyIndex(0, |draft|, run);
    assert HasDigitRun(draft) ==> b by {
      if HasDigitRun(draft) {
        var i: nat :| DigitsAt(draft, i, 16);
        assert run(i);
      }
    }
    b
  }

  /** Whether four digit groups start somewhere. */
  function DigitGroupsPresent(draft: string): (b: bool)
    ensures b <==> HasDigitGroups(draft)
  {
    var groups := (i: nat) => GroupsFrom(draft, i);
    AnyIndexMeans(0, |draft|, groups);
    var b := AnyIndex(0, |draft|, groups);
    assert b ==> HasDigitGroups(draft) by {
      if b {
        var i: nat :| i < |draft| && groups(i);
        var a: nat, b: nat, c: nat :| GroupsAt(draft, i, a, b, c);
      }
    }
    assert HasDigitGroups(draft) ==> b by {
      if HasDigitGroups(draft) {
        var i: nat, a: nat, b: nat, c: nat :| GroupsAt(draft, i, a, b, c);
        assert groups(i);
      }
    }
    b
  }

  /** `check_draft_no_raw_pii`: false when the draft holds sixteen
      consecutive digits, or four groups of four digits separated only by
      whitespace. */
  function NoRawPii(draft: string): (ok: bool)
    ensures ok <==> !HasDigitRun(draft) && !HasDigitGroups(draft)
  {
    !DigitRunPresent(draft) && !DigitGroupsPresent(draft)
  }

  /** A text without digits never trips the card-number check. */
  lemma NoDigitsNoPii(s: string)
    requires forall x :: 0 <= x < |s| ==> !IsDigit(s[x])
    ensures NoRawPii(s)
  {
    forall i: nat, a: nat, b: nat, c: nat ensures !GroupsAt(s, i, a, b, c) {
      if i < |s| {
        assert !IsDigit(s[i]);
      }
    }
    forall i: nat ensures !DigitsAt(s, i, 16) {
      if i < |s| {
        assert !IsDigit(s[i]);
      }
    }
  }

  // ---------------------------------------------------------------------
  // Running both checks

  /** The failure reasons, in the fixed order: citation first, then PII. */
  function Failures(draft: string): (f: seq<string>)
    ensures |f| <= 2
    ensures CitationMissing in f <==> !HasCitation(draft)
    ensures PossiblePii in f <==> HasDigitRun(draft) || HasDigitGroups(draft)
    ensures |f| == 2 ==> f == [CitationMissing, PossiblePii]
    ensures f == [] || f == [CitationMissing] || f == [PossiblePii] || f == [CitationMissing, PossiblePii]
  {
    (if !CitationPresent(draft) then [CitationMissing] else [])
    + (if !NoRawPii(draft) then [PossiblePii] else [])
  }

  /** `run_draft_checks`: both checks always run; the draft passes exactly
      when no reason is reported. */
  method RunDraftChecks(draft: string) returns (passed: bool, failures: seq<string>)
    ensures failures == Failures(draft)
    ensures passed <==> failures == []
    ensures passed <==> HasCitation(draft) && !HasDigitRun(draft) && !HasDigitGroups(draft)
  {
    failures := [];
    if !CitationPresent(draft) {
      failures := failures + [CitationMissing];
    }
    if !NoRawPii(draft) {
      failures := failures + [PossiblePii];
    }
    passed := |failures| == 0;
  }
}

/** The redactor: an ordered list of pattern rules, each replacing every
    match of its pattern by its mask, and the post-parse part of loading the
    rules from the pattern configuration.

    The regular-expression engine is abstract: `compile` maps a pattern's
    source text to `None` when compiling it raises `re.error`, and to
    `Some(lit)` when the pattern matches exactly the literal text `lit`. */
module Redact {
  import opened Strings

  /** One rule of the pattern configuration; `None` is a key the entry lacks. */
  datatype PatternEntry = PatternEntry(name: Option<string>, regex: Option<string>, mask: Option<string>)

  type Compiler = string -> Option<string>

  const DefaultMask := "[REDACTED]"

  /** `re.sub` calls `redact` would make need the `regex` key: only
      `re.error` is caught, so a rule without one raises. */
  predicate HasRegex(patterns: seq<PatternEntry>) {
    forall i :: 0 <= i < |patterns| ==> patterns[i].regex.Some?
  }

  function MaskOf(p: PatternEntry): string {
    if p.mask.Some? then p.mask.value else DefaultMask
  }

  /** `re.sub(lit, mask, s)` for a pattern matching exactly the literal
      `lit`: scanning from the left, every non-overlapping occurrence is
      replaced; an empty literal matches at every position. */
  function ReplaceAll(s: string, lit: string, mask: string): (r: string)
    ensures mask == lit ==> r == s
    decreases |s|
  {
    if lit == [] then
      if s == [] then mask else mask + [s[0]] + ReplaceAll(s[1..], lit, mask)
    else if |s| < |lit| then s
    else if s[..|lit|] == lit then mask + ReplaceAll(s[|lit|..], lit, mask)
    else [s[0]] + ReplaceAll(s[1..], lit, mask)
  }

  /** One rule applied to the current text: skipped when its pattern does not
      compile. */
  function ApplyRule(text: string, p: PatternEntry, compile: Compiler): string
    requires p.regex.Some?
  {
    match compile(p.regex.value)
    case None => text
    case Some(lit) => ReplaceAll(text, lit, MaskOf(p))
  }

  /** The rules applied in list order, each to the previous one's output. */
  function Redacted(text: string, patterns: seq<PatternEntry>, compile: Compiler): (r: string)
    requires HasRegex(patterns)
    ensures patterns == [] ==> r == text
    ensures (forall i :: 0 <= i < |patterns| ==> compile(patterns[i].regex.value).None?) ==> r == text
  {
    if patterns == [] then text
    else ApplyRule(Redacted(text, patterns[..|patterns| - 1], compile), patterns[|patterns| - 1], compile)
  }

  /** `redact(text, patterns)`. */
  method Redact(text: string, patterns: seq<PatternEntry>, compile: Compiler) returns (out: string)
    requires HasRegex(patterns)
    ensures out == Redacted(text, patterns, compile)
    ensures patterns == [] ==> out == text
  {
    out := text;
    for i := 0 to |patterns|
      invariant out == Redacted(text, patterns[..i], compile)
    {
      assert patterns[..i + 1][..i] == patterns[..i];
      var p := patterns[i];
      match compile(p.regex.value) {
        case None =>
          continue;
        case Some(lit) =>
          out := ReplaceAll(out, lit, MaskOf(p));
      }
    }
    assert patterns[..|patterns|] == patterns;
  }

  // ---------------------------------------------------------------------
  // What one replacement does

  /** Where the literal does not occur, replacing it changes nothing. */
  lemma {:induction false} ReplaceAllAbsent(s: string, lit: string, mask: string)
    requires lit != [] && !Contains(s, lit)
    ensures ReplaceAll(s, lit, mask) == s
    decreases |s|
  {
    if |s| >= |lit| {
      assert !OccursAt(s, lit, 0);
      NoOccurrenceInSuffix(s, s[1..], lit);
      ReplaceAllAbsent(s[1..], lit, mask);
    }
  }

  /** Where the literal occurs, the mask appears in the output. */
  lemma {:induction false} ReplaceAllLeavesMask(s: string, lit: string, mask: string)
    requires lit != [] && Contains(s, lit)
    ensures Contains(ReplaceAll(s, lit, mask), mask)
    decreases |s|
  {
    var r := ReplaceAll(s, lit, mask);
    if s[..|lit|] == lit {
      assert OccursAt(r, mask, 0);
    } else {
      var i: nat :| OccursAt(s, lit, i);
      assert i != 0;
      OccurrenceInSuffix(s, 1, lit, i);
      ReplaceAllLeavesMask(s[1..], lit, mask);
      var t := ReplaceAll(s[1..], lit, mask);
      var j: nat :| OccursAt(t, mask, j);
      OccurrenceAfterPrefix([s[0]], t, mask, j);
    }
  }

  /** The characters of `s` all belong to `cs`. */
  predicate Within(s: string, cs: set<char>) {
    forall i :: 0 <= i < |s| ==> s[i] in cs
  }

  /** No character of `s` belongs to `cs`. */
  predicate Avoids(s: string, cs: set<char>) {
    forall i :: 0 <= i < |s| ==> s[i] !in cs
  }

  /** A prefix of the output made only of characters of `cs` was copied
      unchanged from the input, when the mask starts outside `cs`. */
  lemma {:induction false} ReplaceAllCopiesPrefix(s: string, lit: string, mask: string, cs: set<char>, k: nat)
    requires mask != [] && mask[0] !in cs
    requires k <= |ReplaceAll(s, lit, mask)| && Within(ReplaceAll(s, lit, mask)[..k], cs)
    ensures k <= |s| && ReplaceAll(s, lit, mask)[..k] == s[..k]
    decreases |s|
  {
    var r := ReplaceAll(s, lit, mask);
    if k == 0 {
    } else if lit == [] || (|s| >= |lit| && s[..|lit|] == lit) {
      // the output starts with `mask[0]`, which is not a `cs` character
      HeadOfPrefix(r, k, cs);
      assert false;
    } else if |s| < |lit| {
    } else {
      var t := ReplaceAll(s[1..], lit, mask);
      assert r == [s[0]] + t;
      assert t[..k - 1] == r[..k][1..];
      ReplaceAllCopiesPrefix(s[1..], lit, mask, cs, k - 1);
      assert r[..k] == [s[0]] + t[..k - 1];
    }
  }

  lemma HeadOfPrefix(r: string, k: nat, cs: set<char>)
    ensures 0 < k <= |r| && Within(r[..k], cs) ==> r[0] in cs
  {
    if 0 < k <= |r| && Within(r[..k], cs) {
      assert r[..k][0] == r[0];
    }
  }

  /** An occurrence in `head + t` lies in `t`, or starts inside `head`. */
  lemma OccurrenceSplit(head: string, t: string, n: string, p: nat)
    requires n != [] && OccursAt(head + t, n, p)
    ensures p < |head| ==> head[p] == n[0]
    ensures p >= |head| ==> OccursAt(t, n, p - |head|)
  {
    var r := head + t;
    assert r[p..p + |n|] == n;
    assert r[p] == n[0];
    if p >= |head| {
      assert t[p - |head|..p - |head| + |n|] == r[p..p + |n|];
    }
  }

  /** An occurrence of a `cs` text that starts on a copied character `c`
      followed by the output for `rest` was already in `[c] + rest`. */
  lemma OccurrenceOnCopiedChar(c: char, rest: string, lit: string, mask: string, n: string, cs: set<char>)
    requires mask != [] && mask[0] !in cs && n != [] && Within(n, cs)
    requires OccursAt([c] + ReplaceAll(rest, lit, mask), n, 0)
    ensures OccursAt([c] + rest, n, 0)
  {
    var t := ReplaceAll(rest, lit, mask);
    var k := |n| - 1;
    assert ([c] + t)[..|n|] == n;
    assert t[..k] == n[1..];
    assert Within(t[..k], cs) by {
      forall x | 0 <= x < k ensures t[..k][x] in cs {
        assert t[..k][x] == n[x + 1];
      }
    }
    ReplaceAllCopiesPrefix(rest, lit, mask, cs, k);
    assert ([c] + rest)[..|n|] == [c] + rest[..k];
  }

  /** A replacement whose mask is non-empty and avoids `cs` leaves a
      non-empty text made of `cs` characters, absent from the input, absent
      from the output. */
  lemma {:induction false} ReplaceAllCreatesNoOccurrence(s: string, lit: string, mask: string, n: string, cs: set<char>)
    requires n != [] && Within(n, cs)
    requires mask != [] && Avoids(mask, cs)
    requires !Contains(s, n)
    ensures !Contains(ReplaceAll(s, lit, mask), n)
    decreases |s|
  {
    var r := ReplaceAll(s, lit, mask);
    if lit != [] && |s| < |lit| {
    } else if lit == [] && s == [] {
      if Contains(r, n) {
        var p: nat :| OccursAt(r, n, p);
        OccurrenceSplit(mask, [], n, p);
      }
    } else if lit != [] && s[..|lit|] == lit {
      var t := ReplaceAll(s[|lit|..], lit, mask);
      NoOccurrenceInSuffix(s, s[|lit|..], n);
      ReplaceAllCreatesNoOccurrence(s[|lit|..], lit, mask, n, cs);
      if Contains(r, n) {
        var p: nat :| OccursAt(r, n, p);
        OccurrenceSplit(mask, t, n, p);
      }
    } else {
      // the output is `mask' + [s[0]] + t`, with `mask'` empty unless the
      // literal is empty
      var m := if lit == [] then mask else [];
      var t := ReplaceAll(s[1..], lit, mask);
      assert r == m + ([s[0]] + t);
      assert s == [s[0]] + s[1..];
      NoOccurrenceInSuffix(s, s[1..], n);
      ReplaceAllCreatesNoOccurrence(s[1..], lit, mask, n, cs);
      NoOccurrenceAcrossCopy(s[0], s[1..], lit, mask, n, cs, m);
    }
  }

  /** The step of `ReplaceAllCreatesNoOccurrence` where the first character
      is copied, after the mask when the literal is empty. */
  lemma NoOccurrenceAcrossCopy(c: char, rest: string, lit: string, mask: string, n: string, cs: set<char>,
                               m: string)
    requires n != [] && Within(n, cs) && mask != [] && Avoids(mask, cs)
    requires m == [] || m == mask
    requires !Contains([c] + rest, n) && !Contains(ReplaceAll(rest, lit, mask), n)
    ensures !Contains(m + ([c] + ReplaceAll(rest, lit, mask)), n)
  {
    forall p: nat ensures !OccursAt(m + ([c] + ReplaceAll(rest, lit, mask)), n, p) {
      NoOccurrenceAcrossCopyAt(c, rest, lit, mask, n, cs, m, p);
    }
  }

  lemma NoOccurrenceAcrossCopyAt(c: char, rest: string, lit: string, mask: string, n: string, cs: set<char>,
                                 m: string, p: nat)
    requires n != [] && Within(n, cs) && mask != [] && Avoids(mask, cs)
    requires m == [] || m == mask
    requires !Contains([c] + rest, n) && !Contains(ReplaceAll(rest, lit, mask), n)
    ensures !OccursAt(m + ([c] + ReplaceAll(rest, lit, mask)), n, p)
  {
    var t := ReplaceAll(rest, lit, mask);
    if p < |m| {
      StartInMaskBlocks(m, [c] + t, n, cs, p);
    } else {
      OccurrencePastHead(m, [c] + t, n, p);
      if p == |m| {
        if OccursAt([c] + t, n, 0) {
          assert mask[0] !in cs;
          OccurrenceOnCopiedChar(c, rest, lit, mask, n, cs);
        }
      } else {
        OccurrencePastHead([c], t, n, p - |m|);
      }
    }
  }

  /** No occurrence of a `cs` text starts inside a head that avoids `cs`. */
  lemma StartInMaskBlocks(head: string, t: string, n: string, cs: set<char>, p: nat)
    requires n != [] && Within(n, cs) && Avoids(head, cs) && p < |head|
    ensures !OccursAt(head + t, n, p)
  {
    if p + |n| <= |head + t| {
      assert (head + t)[p..p + |n|][0] == head[p];
    }
  }

  /** An occurrence past the head is an occurrence in the tail. */
  lemma OccurrencePastHead(head: string, t: string, n: string, p: nat)
    requires n != [] && p >= |head|
    ensures OccursAt(head + t, n, p) ==> OccursAt(t, n, p - |head|)
  {
    if OccursAt(head + t, n, p) {
      OccurrenceSplit(head, t, n, p);
    }
  }

  /** Anything not occurring in `s` does not occur in its suffix `s[k..]`. */
  lemma NoOccurrenceInSuffix(s: string, rest: string, n: string)
    requires exists k :: 0 <= k <= |s| && rest == s[k..]
    requires !Contains(s, n)
    ensures !Contains(rest, n)
  {
    var k :| 0 <= k <= |s| && rest == s[k..];
    forall i: nat ensures !OccursAt(rest, n, i) {
      if i + |n| <= |rest| {
        assert s[k + i..k + i + |n|] == rest[i..i + |n|];
        assert !OccursAt(s, n, k + i);
      }
    }
  }

  /** A literal made of `cs` characters is gone after replacing it by a
      non-empty mask that avoids `cs`. */
  lemma {:induction false} ReplaceAllRemoves(s: string, lit: string, mask: string, cs: set<char>)
    requires lit != [] && Within(lit, cs)
    requires mask != [] && Avoids(mask, cs)
    ensures !Contains(ReplaceAll(s, lit, mask), lit)
    decreases |s|
  {
    var r := ReplaceAll(s, lit, mask);
    if |s| < |lit| {
    } else if s[..|lit|] == lit {
      var t := ReplaceAll(s[|lit|..], lit, mask);
      ReplaceAllRemoves(s[|lit|..], lit, mask, cs);
      if Contains(r, lit) {
        var p: nat :| OccursAt(r, lit, p);
        OccurrenceSplit(mask, t, lit, p);
      }
    } else {
      var t := ReplaceAll(s[1..], lit, mask);
      ReplaceAllRemoves(s[1..], lit, mask, cs);
      if Contains(r, lit) {
        var p: nat :| OccursAt(r, lit, p);
        OccurrenceSplit([s[0]], t, lit, p);
        if p == 0 {
          OccurrenceOnCopiedChar(s[0], s[1..], lit, mask, lit, cs);
        }
      }
    }
  }

  /** An empty pattern inserts the mask before every character and at the
      end, so the output has this length. */
  lemma {:induction false} ReplaceAllEmptyLength(s: string, mask: string)
    ensures |ReplaceAll(s, [], mask)| == |s| + (|s| + 1) * |mask|
    decreases |s|
  {
    if s != [] {
      ReplaceAllEmptyLength(s[1..], mask);
    }
  }

  /** What an empty pattern writes, read from the right: the empty text
      gives the mask alone, and each character appended to the input is
      appended to the output followed by the mask. */
  lemma {:induction false} ReplaceAllEmptyAppend(s: string, c: char, mask: string)
    ensures ReplaceAll([], [], mask) == mask
    ensures ReplaceAll(s + [c], [], mask) == ReplaceAll(s, [], mask) + [c] + mask
    decreases |s|
  {
    if s == [] {
      assert [] + [c] == [c];
    } else {
      assert (s + [c])[1..] == s[1..] + [c];
      ReplaceAllEmptyAppend(s[1..], c, mask);
    }
  }

  // ---------------------------------------------------------------------
  // What the whole rule list does

  /** A rule whose pattern does not compile can be dropped: the remaining
      rules produce the same text. */
  lemma {:induction false} RedactedSkipsMalformed(text: string, a: seq<PatternEntry>, p: PatternEntry,
                                                  b: seq<PatternEntry>, compile: Compiler)
    requires HasRegex(a) && HasRegex(b) && p.regex.Some?
    requires compile(p.regex.value).None?
    ensures HasRegex(a + [p] + b) && HasRegex(a + b)
    ensures Redacted(text, a + [p] + b, compile) == Redacted(text, a + b, compile)
    decreases |b|
  {
    HasRegexAppend(a, [p]);
    HasRegexAppend(a + [p], b);
    HasRegexAppend(a, b);
    if b == [] {
      assert a + [p] + b == a + [p];
      assert (a + [p])[..|a|] == a;
      assert a + b == a;
    } else {
      var b' := b[..|b| - 1];
      var last := b[|b| - 1];
      assert b == b' + [last];
      HasRegexPrefix(b, |b| - 1);
      RedactedSkipsMalformed(text, a, p, b', compile);
      HasRegexAppend(a + [p], b');
      HasRegexAppend(a, b');
      assert a + [p] + b == (a + [p] + b') + [last];
      assert a + b == (a + b') + [last];
      RedactedLast(text, a + [p] + b', last, compile);
      RedactedLast(text, a + b', last, compile);
    }
  }

  lemma HasRegexAppend(a: seq<PatternEntry>, b: seq<PatternEntry>)
    requires HasRegex(a) && HasRegex(b)
    ensures HasRegex(a + b)
  {
    forall i | 0 <= i < |a + b| ensures (a + b)[i].regex.Some? {
      if i < |a| { assert (a + b)[i] == a[i]; } else { assert (a + b)[i] == b[i - |a|]; }
    }
  }

  lemma HasRegexPrefix(a: seq<PatternEntry>, n: nat)
    requires HasRegex(a) && n <= |a|
    ensures HasRegex(a[..n])
  {
    forall i | 0 <= i < n ensures a[..n][i].regex.Some? { assert a[..n][i] == a[i]; }
  }

  lemma RedactedLast(text: string, init: seq<PatternEntry>, last: PatternEntry, compile: Compiler)
    requires HasRegex(init) && last.regex.Some?
    ensures HasRegex(init + [last])
    ensures Redacted(text, init + [last], compile) == ApplyRule(Redacted(text, init, compile), last, compile)
  {
    HasRegexAppend(init, [last]);
    assert (init + [last])[..|init|] == init;
  }

  /** Redaction scrubs a literal: once the rule at index `k` compiles to a
      non-empty literal made of `cs` characters and replaces it by a mask that
      avoids `cs`, no later rule whose mask is non-empty and avoids `cs` can
      bring it back. */
  lemma {:induction false} RedactedScrubs(text: string, patterns: seq<PatternEntry>, compile: Compiler,
                                          k: nat, lit: string, cs: set<char>)
    requires HasRegex(patterns) && k < |patterns|
    requires compile(patterns[k].regex.value) == Some(lit)
    requires lit != [] && Within(lit, cs)
    requires forall j :: k <= j < |patterns| ==> MaskOf(patterns[j]) != [] && Avoids(MaskOf(patterns[j]), cs)
    ensures !Contains(Redacted(text, patterns, compile), lit)
    decreases |patterns|
  {
    var n := |patterns|;
    var before := patterns[..n - 1];
    assert HasRegex(before) by {
      forall i | 0 <= i < |before| ensures before[i].regex.Some? { assert before[i] == patterns[i]; }
    }
    var prior := Redacted(text, before, compile);
    var last := patterns[n - 1];
    if k == n - 1 {
      ReplaceAllRemoves(prior, lit, MaskOf(last), cs);
    } else {
      RedactedScrubs(text, before, compile, k, lit, cs);
      match compile(last.regex.value)
      case None =>
      case Some(l2) =>
        ReplaceAllCreatesNoOccurrence(prior, l2, MaskOf(last), lit, cs);
    }
  }

  /** A prefix of the input made of characters outside `cs` is copied
      unchanged, when the literal is made of `cs` characters: no occurrence
      of the literal can start inside it. */
  lemma {:induction false} ReplaceAllCopiesForeignPrefix(s: string, lit: string, mask: string, cs: set<char>, k: nat)
    requires lit != [] && Within(lit, cs)
    requires k <= |s| && Avoids(s[..k], cs)
    ensures k <= |ReplaceAll(s, lit, mask)| && ReplaceAll(s, lit, mask)[..k] == s[..k]
    decreases k
  {
    if k > 0 && |s| >= |lit| {
      assert s[..k][0] == s[0];
      assert s[..|lit|][0] == s[0];
      assert s[1..][..k - 1] == s[..k][1..];
      ReplaceAllCopiesForeignPrefix(s[1..], lit, mask, cs, k - 1);
    }
  }

  lemma LiteralPrefixWithin(s: string, lit: string, cs: set<char>)
    requires |lit| <= |s| && s[..|lit|] == lit && Within(lit, cs)
    ensures Within(s[..|lit|], cs) && forall i :: 0 <= i < |lit| ==> s[i] in cs
  {
    forall i | 0 <= i < |lit| ensures s[i] in cs {
      assert s[..|lit|][i] == s[i];
    }
  }

  lemma OccurrenceAfterPrefix(head: string, t: string, m: string, j: nat)
    requires OccursAt(t, m, j)
    ensures OccursAt(head + t, m, |head| + j)
  {
    assert (head + t)[|head| + j..|head| + j + |m|] == t[j..j + |m|];
  }

  lemma OccurrenceInSuffix(s: string, k: nat, m: string, p: nat)
    requires k <= p && OccursAt(s, m, p)
    ensures OccursAt(s[k..], m, p - k)
  {
    assert s[k..][p - k..p - k + |m|] == s[p..p + |m|];
  }

  /** After replacing a non-empty literal made of `cs` characters, a
      non-empty text that avoids `cs` and occurs in the input still occurs in
      the output: no occurrence of the literal can overlap it. */
  lemma {:induction false} ReplaceAllKeeps(s: string, lit: string, mask: string, m: string, cs: set<char>)
    requires lit != [] && Within(lit, cs)
    requires m != [] && Avoids(m, cs) && Contains(s, m)
    ensures Contains(ReplaceAll(s, lit, mask), m)
    decreases |s|
  {
    var r := ReplaceAll(s, lit, mask);
    var p: nat :| OccursAt(s, m, p);
    if |s| < |lit| {
      assert OccursAt(r, m, p);
    } else if s[..|lit|] == lit {
      assert s[p..p + |m|][0] == s[p];
      LiteralPrefixWithin(s, lit, cs);
      OccurrenceInSuffix(s, |lit|, m, p);
      ReplaceAllKeeps(s[|lit|..], lit, mask, m, cs);
      var t := ReplaceAll(s[|lit|..], lit, mask);
      var j: nat :| OccursAt(t, m, j);
      OccurrenceAfterPrefix(mask, t, m, j);
    } else if p == 0 {
      assert s[..|m|] == m;
      ReplaceAllCopiesForeignPrefix(s, lit, mask, cs, |m|);
      assert OccursAt(r, m, 0);
    } else {
      OccurrenceInSuffix(s, 1, m, p);
      ReplaceAllKeeps(s[1..], lit, mask, m, cs);
      var t := ReplaceAll(s[1..], lit, mask);
      var j: nat :| OccursAt(t, m, j);
      OccurrenceAfterPrefix([s[0]], t, m, j);
    }
  }

  /** Two compiling rules are the second replacement applied to the first
      one's output. */
  lemma TwoRulesInOrder(text: string, first: PatternEntry, second: PatternEntry, compile: Compiler,
                        lit1: string, lit2: string)
    requires first.regex.Some? && compile(first.regex.value) == Some(lit1)
    requires second.regex.Some? && compile(second.regex.value) == Some(lit2)
    ensures HasRegex([first, second])
    ensures Redacted(text, [first, second], compile)
            == ReplaceAll(ReplaceAll(text, lit1, MaskOf(first)), lit2, MaskOf(second))
  {
    var rules := [first, second];
    assert rules[..1] == [first] && [first][..0] == [];
    assert Redacted(text, [first], compile) == ReplaceAll(text, lit1, MaskOf(first));
  }

  /** Two rules over a message holding a value each rule matches, as when a
      card number and an e-mail address are redacted together: when both
      values and both masks are non-empty, the masks avoid the characters of
      both values and the second value avoids those of the first, neither raw
      value is left and both masks appear. */
  lemma TwoRulesScrubBothValues(text: string, first: PatternEntry, second: PatternEntry, compile: Compiler,
                                lit1: string, cs1: set<char>, lit2: string, cs2: set<char>)
    requires first.regex.Some? && compile(first.regex.value) == Some(lit1)
    requires second.regex.Some? && compile(second.regex.value) == Some(lit2)
    requires lit1 != [] && Within(lit1, cs1) && lit2 != [] && Within(lit2, cs2) && Avoids(lit2, cs1)
    requires MaskOf(first) != [] && Avoids(MaskOf(first), cs1) && Avoids(MaskOf(first), cs2)
    requires MaskOf(second) != [] && Avoids(MaskOf(second), cs1) && Avoids(MaskOf(second), cs2)
    requires Contains(text, lit1) && Contains(text, lit2)
    ensures HasRegex([first, second])
    ensures var out := Redacted(text, [first, second], compile);
            !Contains(out, lit1) && !Contains(out, lit2)
            && Contains(out, MaskOf(first)) && Contains(out, MaskOf(second))
  {
    TwoRulesInOrder(text, first, second, compile, lit1, lit2);
    var once := ReplaceAll(text, lit1, MaskOf(first));
    ReplaceAllLeavesMask(text, lit1, MaskOf(first));
    ReplaceAllKeeps(text, lit1, MaskOf(first), lit2, cs1);
    ReplaceAllLeavesMask(once, lit2, MaskOf(second));
    ReplaceAllKeeps(once, lit2, MaskOf(second), MaskOf(first), cs2);
    var rules := [first, second];
    RedactedScrubs(text, rules, compile, 0, lit1, cs1);
    RedactedScrubs(text, rules, compile, 1, lit2, cs2);
  }

  // ---------------------------------------------------------------------
  // Loading the rules, after the configuration document has been parsed

  /** An entry `load_patterns` keeps: it has both a `regex` and a `mask`. */
  predicate Keeps(p: PatternEntry) {
    p.regex.Some? && p.mask.Some?
  }

  /** A loaded rule: both fields present, neither with whitespace at an
      end (`Strings.UnspacedIsStripped`: stripping them changes nothing). */
  predicate Clean(p: PatternEntry) {
    Keeps(p) && Unspaced(p.regex.value) && Unspaced(p.mask.value)
  }

  /** A kept entry, with both fields stripped; other keys are kept as they are. */
  function Stripped(p: PatternEntry): (q: PatternEntry)
    requires Keeps(p)
  {
    p.(regex := Some(Trim(p.regex.value)), mask := Some(Trim(p.mask.value)))
  }

  /** What one entry contributes: itself, stripped, when it has both keys;
      nothing otherwise. */
  function KeptEntry(p: PatternEntry): (out: seq<PatternEntry>)
    ensures |out| <= 1 && (Keeps(p) <==> |out| == 1)
    ensures forall i :: 0 <= i < |out| ==> Clean(out[i])
  {
    if Keeps(p) then
      StrippedIsClean(p);
      [Stripped(p)]
    else []
  }

  /** The entries `load_patterns` returns from a parsed pattern list. */
  function Kept(entries: seq<PatternEntry>): (out: seq<PatternEntry>)
    ensures |out| <= |entries|
    ensures forall i :: 0 <= i < |out| ==> Clean(out[i])
    ensures (forall i :: 0 <= i < |entries| ==> Keeps(entries[i])) ==> |out| == |entries|
  {
    if entries == [] then []
    else Kept(entries[..|entries| - 1]) + KeptEntry(entries[|entries| - 1])
  }

  lemma StrippedIsClean(p: PatternEntry)
    requires Keeps(p)
    ensures Clean(Stripped(p))
    ensures Trim(Stripped(p).regex.value) == Stripped(p).regex.value
    ensures Trim(Stripped(p).mask.value) == Stripped(p).mask.value
  {
    TrimIdempotent(p.regex.value);
    TrimIdempotent(p.mask.value);
  }

  /** One more entry of the list: it adds itself, stripped, to the rules
      kept so far when it has both keys, and nothing otherwise. */
  lemma KeptStep(entries: seq<PatternEntry>, i: nat)
    requires i < |entries|
    ensures Keeps(entries[i]) ==> Kept(entries[..i + 1]) == Kept(entries[..i]) + [Stripped(entries[i])]
    ensures !Keeps(entries[i]) ==> Kept(entries[..i + 1]) == Kept(entries[..i])
  {
    assert entries[..i + 1][..i] == entries[..i];
    assert entries[..i + 1][i] == entries[i];
    assert Kept(entries[..i + 1]) == Kept(entries[..i]) + KeptEntry(entries[i]);
    if !Keeps(entries[i]) {
      assert Kept(entries[..i]) + [] == Kept(entries[..i]);
    }
  }

  lemma KeptSplitLast(a: seq<PatternEntry>, b: seq<PatternEntry>)
    requires b != []
    ensures Kept(a + b) == Kept(a + b[..|b| - 1]) + KeptEntry(b[|b| - 1])
  {
    assert (a + b)[..|a + b| - 1] == a + b[..|b| - 1];
    assert (a + b)[|a + b| - 1] == b[|b| - 1];
  }

  /** Loading works entry by entry: the rules loaded from two lists in turn
      are those loaded from each, in order, so an entry lacking a key drops
      only itself. */
  lemma {:induction false} KeptAppend(a: seq<PatternEntry>, b: seq<PatternEntry>)
    ensures Kept(a + b) == Kept(a) + Kept(b)
    decreases |b|
  {
    if b == [] {
      assert a + b == a;
    } else {
      var b' := b[..|b| - 1];
      var last := b[|b| - 1];
      KeptAppend(a, b');
      KeptSplitLast(a, b);
      assert Kept(a) + Kept(b') + KeptEntry(last) == Kept(a) + (Kept(b') + KeptEntry(last));
    }
  }

  /** Every kept rule is the stripped form of an entry with both keys, and
      every entry with both keys is kept, stripped. */
  lemma {:induction false} KeptMembers(entries: seq<PatternEntry>)
    ensures forall q :: q in Kept(entries) <==> exists e :: e in entries && Keeps(e) && q == Stripped(e)
    decreases |entries|
  {
    if entries != [] {
      var init := entries[..|entries| - 1];
      var last := entries[|entries| - 1];
      KeptMembers(init);
      assert entries == init + [last];
      assert Kept(entries) == Kept(init) + KeptEntry(last);
      forall q ensures q in Kept(entries) <==> exists e :: e in entries && Keeps(e) && q == Stripped(e) {
        if exists e :: e in entries && Keeps(e) && q == Stripped(e) {
          var e :| e in entries && Keeps(e) && q == Stripped(e);
          if e != last {
            assert e in init;
          }
        }
        if q in Kept(init) {
          var e :| e in init && Keeps(e) && q == Stripped(e);
          assert e in entries;
        }
      }
    }
  }

  /** `load_patterns`: a missing file yields no rules; otherwise `entries`
      is the document's `patterns` list (empty when the document or the key
      is absent). */
  method LoadPatterns(fileExists: bool, entries: seq<PatternEntry>) returns (out: seq<PatternEntry>)
    ensures out == if fileExists then Kept(entries) else []
    ensures HasRegex(out)
  {
    out := [];
    if !fileExists {
      return;
    }
    for i := 0 to |entries|
      invariant out == Kept(entries[..i])
    {
      var p := entries[i];
      KeptStep(entries, i);
      if p.regex.Some? && p.mask.Some? {
        out := out + [Stripped(p)];
      }
    }
    assert entries[..|entries|] == entries;
    LoadedRulesAreUsable(entries);
  }

  /** Every loaded rule names a pattern and a mask, so `Redact` accepts the
      loaded list, and no rule falls back to the default mask. */
  lemma LoadedRulesAreUsable(entries: seq<PatternEntry>)
    ensures HasRegex(Kept(entries))
    ensures forall i :: 0 <= i < |Kept(entries)| ==> MaskOf(Kept(entries)[i]) == Kept(entries)[i].mask.value
  {
  }
}

/** Python's `re.findall(pattern, text)` and `re.sub(pattern, repl, text)` over a
    matcher for a pattern that never matches the empty string. Both walk the text from the left:
    at each position either a match starts (it is taken whole and the walk resumes
    after it) or it does not (the walk moves one character on). Both functions here
    are derived from the one span list `ScanFrom` computes, so they always agree
    on what was matched. */
module Scanner {

  /** A compiled pattern: the length of the match that starts at position `i` of
      the text, 0 when none does. The text is passed whole, so a matcher may look
      at characters before `i` (as `\b` does). A match never runs past the end. */
  type Matcher = m: (string, nat) -> nat | forall t: string, i: nat :: i <= |t| ==> i + m(t, i) <= |t|
    witness (t: string, i: nat) => 0

  /** A match: `len` characters starting at `start`. */
  datatype Span = Span(start: nat, len: nat) {
    function End(): nat { start + len }
  }

  /** The spans lie left to right, do not overlap, start at or after `pos`
      and end by `n`. */
  predicate Ordered(hs: seq<Span>, pos: int, n: int)
    decreases |hs|
  {
    |hs| == 0 || (pos <= hs[0].start && hs[0].End() <= n && Ordered(hs[1..], hs[0].End(), n))
  }

  /** Each span is a match in `t`, of exactly the length the matcher reports. */
  predicate AllMatches(m: Matcher, t: string, hs: seq<Span>) {
    forall k | 0 <= k < |hs| :: hs[k].start <= |t| && hs[k].len > 0 && m(t, hs[k].start) == hs[k].len
  }

  /** Position `q` lies inside one of the spans. */
  predicate Covered(hs: seq<Span>, q: int) {
    exists k | 0 <= k < |hs| :: hs[k].start <= q < hs[k].End()
  }

  /** What a leftmost, non-overlapping scan of `t` from `pos` must produce: ordered
      matches, and every position where a match could start lies inside one of them. */
  predicate IsScan(m: Matcher, t: string, pos: nat, hs: seq<Span>) {
    && pos <= |t|
    && Ordered(hs, pos, |t|)
    && AllMatches(m, t, hs)
    && forall q | pos <= q < |t| && m(t, q) > 0 :: Covered(hs, q)
  }

  /** The scan itself. */
  function ScanFrom(m: Matcher, t: string, pos: nat): (hs: seq<Span>)
    requires pos <= |t|
    ensures Ordered(hs, pos, |t|)
    decreases |t| - pos
  {
    if pos == |t| then []
    else
      var n := m(t, pos);
      if n > 0 then [Span(pos, n)] + ScanFrom(m, t, pos + n)
      else ScanFrom(m, t, pos + 1)
  }

  /** The matched substrings, in order. */
  function Texts(t: string, pos: nat, hs: seq<Span>): (ms: seq<string>)
    requires pos <= |t| && Ordered(hs, pos, |t|)
    ensures |ms| == |hs|
    decreases |hs|
  {
    if |hs| == 0 then []
    else [t[hs[0].start..hs[0].End()]] + Texts(t, hs[0].End(), hs[1..])
  }

  /** The unmatched stretches between the spans: one more than there are spans. */
  function Gaps(t: string, pos: nat, hs: seq<Span>): (gs: seq<string>)
    requires pos <= |t| && Ordered(hs, pos, |t|)
    ensures |gs| == |hs| + 1
    decreases |hs|
  {
    if |hs| == 0 then [t[pos..]]
    else [t[pos..hs[0].start]] + Gaps(t, hs[0].End(), hs[1..])
  }

  /** gs[0] + fills[0] + gs[1] + fills[1] + ... + gs[|fills|]. */
  function Interleave(gs: seq<string>, fills: seq<string>): string
    requires |gs| == |fills| + 1
    decreases |fills|
  {
    if |fills| == 0 then gs[0]
    else gs[0] + fills[0] + Interleave(gs[1..], fills[1..])
  }

  /** `n` copies of `s`. */
  function Repeat(s: string, n: nat): (r: seq<string>)
    ensures |r| == n
  {
    if n == 0 then [] else [s] + Repeat(s, n - 1)
  }

  /** `re.findall`, from position `pos`. */
  function FindFrom(m: Matcher, t: string, pos: nat): seq<string>
    requires pos <= |t|
  {
    Texts(t, pos, ScanFrom(m, t, pos))
  }

  /** `re.sub` with a literal replacement, from position `pos`. */
  function ReplaceFrom(m: Matcher, t: string, pos: nat, repl: string): string
    requires pos <= |t|
  {
    var hs := ScanFrom(m, t, pos);
    Interleave(Gaps(t, pos, hs), Repeat(repl, |hs|))
  }

  function FindAll(m: Matcher, t: string): seq<string> {
    FindFrom(m, t, 0)
  }

  function ReplaceAll(m: Matcher, t: string, repl: string): string {
    ReplaceFrom(m, t, 0, repl)
  }

  /** No match starts anywhere in t[pos..]. */
  predicate NoMatchFrom(m: Matcher, t: string, pos: nat)
    requires pos <= |t|
  {
    forall q | pos <= q < |t| :: m(t, q) == 0
  }

  predicate NoMatch(m: Matcher, t: string) {
    NoMatchFrom(m, t, 0)
  }

  // ---------------------------------------------------------------------------
  // The scan is the leftmost non-overlapping one, and it is the only one.

  lemma {:induction false} OrderedBounds(hs: seq<Span>, pos: int, n: int)
    requires Ordered(hs, pos, n)
    ensures forall k | 0 <= k < |hs| :: pos <= hs[k].start && hs[k].End() <= n
    decreases |hs|
  {
    if |hs| > 0 {
      OrderedBounds(hs[1..], hs[0].End(), n);
      forall k | 0 < k < |hs|
        ensures pos <= hs[k].start && hs[k].End() <= n
      {
        assert hs[k] == hs[1..][k - 1];
      }
    }
  }

  lemma {:induction false} ScanFromIsScan(m: Matcher, t: string, pos: nat)
    requires pos <= |t|
    ensures IsScan(m, t, pos, ScanFrom(m, t, pos))
    decreases |t| - pos, 1
  {
    if pos < |t| {
      if m(t, pos) > 0 {
        ScanFromIsScanAtMatch(m, t, pos);
      } else {
        ScanFromIsScanAtMiss(m, t, pos);
      }
    }
  }

  lemma {:induction false} ScanFromIsScanAtMatch(m: Matcher, t: string, pos: nat)
    requires pos < |t| && m(t, pos) > 0
    ensures IsScan(m, t, pos, ScanFrom(m, t, pos))
    decreases |t| - pos, 0
  {
    var n := m(t, pos);
    var rest := ScanFrom(m, t, pos + n);
    assert ScanFrom(m, t, pos) == [Span(pos, n)] + rest;
    ScanFromIsScan(m, t, pos + n);
    ScanCons(m, t, pos, rest);
  }

  lemma {:induction false} ScanFromIsScanAtMiss(m: Matcher, t: string, pos: nat)
    requires pos < |t| && m(t, pos) == 0
    ensures IsScan(m, t, pos, ScanFrom(m, t, pos))
    decreases |t| - pos, 0
  {
    var rest := ScanFrom(m, t, pos + 1);
    assert ScanFrom(m, t, pos) == rest;
    ScanFromIsScan(m, t, pos + 1);
    ScanSkip(m, t, pos, rest);
  }

  /** A position where nothing matches may be put in front of a scan. */
  lemma ScanSkip(m: Matcher, t: string, pos: nat, rest: seq<Span>)
    requires pos < |t| && m(t, pos) == 0 && IsScan(m, t, pos + 1, rest)
    ensures IsScan(m, t, pos, rest)
  {
  }

  /** A match at `pos` followed by a scan from its end is a scan from `pos`. */
  lemma ScanCons(m: Matcher, t: string, pos: nat, rest: seq<Span>)
    requires pos < |t| && m(t, pos) > 0 && IsScan(m, t, pos + m(t, pos), rest)
    ensures IsScan(m, t, pos, [Span(pos, m(t, pos))] + rest)
  {
    var n := m(t, pos);
    var hs := [Span(pos, n)] + rest;
    assert hs[1..] == rest;
    forall k | 0 < k < |hs|
      ensures hs[k].start <= |t| && hs[k].len > 0 && m(t, hs[k].start) == hs[k].len
    {
      assert hs[k] == rest[k - 1];
    }
    forall q | pos <= q < |t| && m(t, q) > 0
      ensures Covered(hs, q)
    {
      if q < pos + n {
        assert hs[0].start <= q < hs[0].End();
      } else {
        var k :| 0 <= k < |rest| && rest[k].start <= q < rest[k].End();
        assert hs[k + 1] == rest[k];
      }
    }
  }

  /** A scan that starts after its first match is a scan from the end of that match. */
  lemma ScanTail(m: Matcher, t: string, pos: nat, hs: seq<Span>)
    requires IsScan(m, t, pos, hs) && |hs| > 0
    ensures IsScan(m, t, hs[0].End(), hs[1..])
  {
    var tl := hs[1..];
    forall k | 0 <= k < |tl|
      ensures tl[k].start <= |t| && tl[k].len > 0 && m(t, tl[k].start) == tl[k].len
    {
      assert tl[k] == hs[k + 1];
    }
    forall q | hs[0].End() <= q < |t| && m(t, q) > 0
      ensures Covered(tl, q)
    {
      var k :| 0 <= k < |hs| && hs[k].start <= q < hs[k].End();
      assert k != 0;
      assert tl[k - 1] == hs[k];
    }
  }

  /** Any two sequences of spans meeting the scan's description are equal. */
  lemma {:induction false} ScanUnique(m: Matcher, t: string, pos: nat, h1: seq<Span>, h2: seq<Span>)
    requires IsScan(m, t, pos, h1) && IsScan(m, t, pos, h2)
    ensures h1 == h2
    decreases |h1|
  {
    if |h1| > 0 && |h2| > 0 {
      assert h1[0] == h2[0] by {
        FirstSpanIsFirstMatch(m, t, pos, h1, h2);
        FirstSpanIsFirstMatch(m, t, pos, h2, h1);
      }
      assert h1[1..] == h2[1..] by {
        ScanTail(m, t, pos, h1);
        ScanTail(m, t, pos, h2);
        ScanUnique(m, t, h1[0].End(), h1[1..], h2[1..]);
      }
      assert h1 == [h1[0]] + h1[1..];
      assert h2 == [h2[0]] + h2[1..];
    } else if |h1| > 0 {
      ScanNonEmpty(m, t, pos, h1, h2);
    } else if |h2| > 0 {
      ScanNonEmpty(m, t, pos, h2, h1);
    }
  }

  /** A scan is empty only when nothing matches. */
  lemma ScanNonEmpty(m: Matcher, t: string, pos: nat, h1: seq<Span>, h2: seq<Span>)
    requires IsScan(m, t, pos, h1) && IsScan(m, t, pos, h2) && |h1| > 0
    ensures |h2| > 0
  {
    OrderedBounds(h1, pos, |t|);
    var q := h1[0].start;
    assert pos <= q < |t| && m(t, q) > 0;
    assert Covered(h2, q);
  }

  lemma FirstSpanIsFirstMatch(m: Matcher, t: string, pos: nat, h1: seq<Span>, h2: seq<Span>)
    requires IsScan(m, t, pos, h1) && IsScan(m, t, pos, h2) && |h1| > 0 && |h2| > 0
    ensures h2[0].start <= h1[0].start
  {
    OrderedBounds(h2, pos, |t|);
    var q := h1[0].start;
    assert pos <= q < |t| && m(t, q) > 0;
    var k :| 0 <= k < |h2| && h2[k].start <= q < h2[k].End();
    OrderedStartsAfterFirst(h2, pos, |t|, k);
  }

  lemma {:induction false} OrderedStartsAfterFirst(hs: seq<Span>, pos: int, n: int, k: nat)
    requires Ordered(hs, pos, n) && k < |hs|
    ensures hs[0].start <= hs[k].start
  {
    if k > 0 {
      OrderedBounds(hs[1..], hs[0].End(), n);
      assert hs[k] == hs[1..][k - 1];
    }
  }

  // ---------------------------------------------------------------------------
  // What find-all and replace-all compute.

  /** Gluing the gaps and the matched texts back together gives the text. */
  lemma {:induction false} Reconstruct(t: string, pos: nat, hs: seq<Span>)
    requires pos <= |t| && Ordered(hs, pos, |t|)
    ensures Interleave(Gaps(t, pos, hs), Texts(t, pos, hs)) == t[pos..]
    decreases |hs|
  {
    if |hs| > 0 {
      var s, e := hs[0].start, hs[0].End();
      var gs, ms := Gaps(t, pos, hs), Texts(t, pos, hs);
      assert Interleave(gs[1..], ms[1..]) == t[e..] by {
        assert gs[1..] == Gaps(t, e, hs[1..]);
        assert ms[1..] == Texts(t, e, hs[1..]);
        Reconstruct(t, e, hs[1..]);
      }
      assert gs[0] == t[pos..s] && ms[0] == t[s..e];
      SliceSplit(t, pos, s, e);
    }
  }

  lemma SliceSplit(t: string, a: nat, b: nat, c: nat)
    requires a <= b <= c <= |t|
    ensures t[a..] == t[a..b] + t[b..c] + t[c..]
  {
  }

  /** The meaning of `re.findall` and `re.sub`: for the one sequence of spans
      that is a leftmost non-overlapping scan, find-all lists the matched texts
      left to right, and replace-all keeps every gap between them and puts `repl`
      in place of every match, where the text itself has the matched texts. */
  lemma ScanSpec(m: Matcher, t: string, hs: seq<Span>, repl: string)
    requires IsScan(m, t, 0, hs)
    ensures FindAll(m, t) == Texts(t, 0, hs)
    ensures ReplaceAll(m, t, repl) == Interleave(Gaps(t, 0, hs), Repeat(repl, |hs|))
    ensures t == Interleave(Gaps(t, 0, hs), Texts(t, 0, hs))
  {
    ScanFromIsScan(m, t, 0);
    ScanUnique(m, t, 0, hs, ScanFrom(m, t, 0));
    Reconstruct(t, 0, hs);
  }

  /** Find-all comes back empty exactly when no match starts anywhere. */
  lemma FindFromEmptyIff(m: Matcher, t: string, pos: nat)
    requires pos <= |t|
    ensures FindFrom(m, t, pos) == [] <==> NoMatchFrom(m, t, pos)
  {
    var hs := ScanFrom(m, t, pos);
    ScanFromIsScan(m, t, pos);
    OrderedBounds(hs, pos, |t|);
    if |hs| > 0 {
      assert pos <= hs[0].start < |t| && m(t, hs[0].start) > 0;
    } else {
      forall q | pos <= q < |t|
        ensures m(t, q) == 0
      {
        assert !Covered(hs, q);
      }
    }
  }

  lemma ReplaceFromAtEnd(m: Matcher, t: string, repl: string)
    ensures ReplaceFrom(m, t, |t|, repl) == []
  {
  }

  /** Where nothing matches, replace-all leaves the text as it is. */
  lemma ReplaceFromNoMatch(m: Matcher, t: string, pos: nat, repl: string)
    requires pos <= |t| && NoMatchFrom(m, t, pos)
    ensures ReplaceFrom(m, t, pos, repl) == t[pos..]
  {
    FindFromEmptyIff(m, t, pos);
  }

  lemma GapsSkip(t: string, pos: nat, hs: seq<Span>)
    requires pos < |t| && Ordered(hs, pos + 1, |t|)
    ensures Ordered(hs, pos, |t|)
    ensures Gaps(t, pos, hs) == [[t[pos]] + Gaps(t, pos + 1, hs)[0]] + Gaps(t, pos + 1, hs)[1..]
  {
    if |hs| > 0 {
      assert t[pos..hs[0].start] == [t[pos]] + t[pos + 1..hs[0].start];
    } else {
      assert t[pos..] == [t[pos]] + t[pos + 1..];
    }
  }

  lemma InterleaveFirst(c: char, g: string, gs: seq<string>, fills: seq<string>)
    requires |gs| == |fills|
    ensures Interleave([[c] + g] + gs, fills) == [c] + Interleave([g] + gs, fills)
  {
    if |fills| > 0 {
      assert ([[c] + g] + gs)[1..] == gs == ([g] + gs)[1..];
    }
  }

  /** Replace-all, one step of the walk at a time. */
  lemma ReplaceFromStep(m: Matcher, t: string, pos: nat, repl: string)
    requires pos < |t|
    ensures m(t, pos) > 0 ==> ReplaceFrom(m, t, pos, repl) == repl + ReplaceFrom(m, t, pos + m(t, pos), repl)
    ensures m(t, pos) == 0 ==> ReplaceFrom(m, t, pos, repl) == [t[pos]] + ReplaceFrom(m, t, pos + 1, repl)
  {
    if m(t, pos) > 0 {
      ReplaceFromAtMatch(m, t, pos, repl);
    } else {
      ReplaceFromAtMiss(m, t, pos, repl);
    }
  }

  lemma ReplaceFromAtMatch(m: Matcher, t: string, pos: nat, repl: string)
    requires pos < |t| && m(t, pos) > 0
    ensures ReplaceFrom(m, t, pos, repl) == repl + ReplaceFrom(m, t, pos + m(t, pos), repl)
  {
    var n := m(t, pos);
    var rest := ScanFrom(m, t, pos + n);
    assert ScanFrom(m, t, pos) == [Span(pos, n)] + rest;
    ReplaceSpanCons(t, pos, n, rest, repl);
  }

  /** Replacing a span that starts right at `pos` puts `repl` first. */
  lemma ReplaceSpanCons(t: string, pos: nat, n: nat, rest: seq<Span>, repl: string)
    requires pos + n <= |t| && Ordered(rest, pos + n, |t|)
    ensures Ordered([Span(pos, n)] + rest, pos, |t|)
    ensures Interleave(Gaps(t, pos, [Span(pos, n)] + rest), Repeat(repl, |rest| + 1))
         == repl + Interleave(Gaps(t, pos + n, rest), Repeat(repl, |rest|))
  {
    var gs, fs := Gaps(t, pos + n, rest), Repeat(repl, |rest|);
    GapsCons(t, pos, n, rest);
    RepeatCons(repl, |rest|);
    InterleaveEmptyFirst(gs, fs, repl);
  }

  lemma GapsCons(t: string, pos: nat, n: nat, rest: seq<Span>)
    requires pos + n <= |t| && Ordered(rest, pos + n, |t|)
    ensures Ordered([Span(pos, n)] + rest, pos, |t|)
    ensures Gaps(t, pos, [Span(pos, n)] + rest) == [[]] + Gaps(t, pos + n, rest)
  {
    var hs := [Span(pos, n)] + rest;
    assert hs[0] == Span(pos, n) && hs[1..] == rest;
    assert Ordered(hs, pos, |t|);
    assert Gaps(t, pos, hs) == [t[pos..pos]] + Gaps(t, pos + n, rest);
    assert t[pos..pos] == [];
  }

  lemma RepeatCons(s: string, n: nat)
    ensures Repeat(s, n + 1) == [s] + Repeat(s, n)
  {
  }

  lemma InterleaveEmptyFirst(gs: seq<string>, fs: seq<string>, repl: string)
    requires |gs| == |fs| + 1
    ensures Interleave([[]] + gs, [repl] + fs) == repl + Interleave(gs, fs)
  {
    InterleaveCons([], repl, gs, fs);
    assert [] + repl + Interleave(gs, fs) == repl + Interleave(gs, fs);
  }

  lemma InterleaveCons(g: string, f: string, gs: seq<string>, fs: seq<string>)
    requires |gs| == |fs| + 1
    ensures Interleave([g] + gs, [f] + fs) == g + f + Interleave(gs, fs)
  {
    assert ([g] + gs)[1..] == gs && ([f] + fs)[1..] == fs;
  }

  lemma ReplaceFromAtMiss(m: Matcher, t: string, pos: nat, repl: string)
    requires pos < |t| && m(t, pos) == 0
    ensures ReplaceFrom(m, t, pos, repl) == [t[pos]] + ReplaceFrom(m, t, pos + 1, repl)
  {
    var rest := ScanFrom(m, t, pos + 1);
    assert ScanFrom(m, t, pos) == rest;
    GapsSkip(t, pos, rest);
    var gs := Gaps(t, pos + 1, rest);
    assert gs == [gs[0]] + gs[1..];
    InterleaveFirst(t[pos], gs[0], gs[1..], Repeat(repl, |rest|));
  }

  /** Find-all, one step of the walk at a time. */
  lemma FindFromStep(m: Matcher, t: string, pos: nat)
    requires pos < |t|
    ensures m(t, pos) > 0 ==> FindFrom(m, t, pos) == [t[pos..pos + m(t, pos)]] + FindFrom(m, t, pos + m(t, pos))
    ensures m(t, pos) == 0 ==> FindFrom(m, t, pos) == FindFrom(m, t, pos + 1)
  {
    var n := m(t, pos);
    if n > 0 {
      assert ScanFrom(m, t, pos) == [Span(pos, n)] + ScanFrom(m, t, pos + n);
    } else {
      var rest := ScanFrom(m, t, pos + 1);
      assert ScanFrom(m, t, pos) == rest;
      GapsSkip(t, pos, rest);
    }
  }

  /** Replacing every match by something no longer than the match does not
      lengthen the text. */
  lemma {:induction false} ReplaceFromShrinks(m: Matcher, t: string, pos: nat, repl: string)
    requires pos <= |t|
    requires forall q | pos <= q < |t| :: m(t, q) == 0 || |repl| <= m(t, q)
    ensures |ReplaceFrom(m, t, pos, repl)| <= |t| - pos
    decreases |t| - pos
  {
    if pos < |t| {
      ReplaceFromStep(m, t, pos, repl);
      if m(t, pos) > 0 {
        ReplaceFromShrinks(m, t, pos + m(t, pos), repl);
      } else {
        ReplaceFromShrinks(m, t, pos + 1, repl);
      }
    }
  }

  /** Every character of the result comes from the text or from the replacement. */
  lemma {:induction false} ReplaceFromChars(m: Matcher, t: string, pos: nat, repl: string)
    requires pos <= |t|
    ensures forall c | c in ReplaceFrom(m, t, pos, repl) :: c in t[pos..] || c in repl
    decreases |t| - pos
  {
    if pos < |t| {
      ReplaceFromStep(m, t, pos, repl);
      var n := m(t, pos);
      if n > 0 {
        ReplaceFromChars(m, t, pos + n, repl);
        assert forall c | c in t[pos + n..] :: c in t[pos..];
      } else {
        ReplaceFromChars(m, t, pos + 1, repl);
        assert t[pos..] == [t[pos]] + t[pos + 1..];
      }
    }
  }

  /** `x` is the text of a match that starts somewhere in t[pos..]. */
  predicate MatchedText(m: Matcher, t: string, pos: nat, x: string) {
    exists q | pos <= q < |t| && m(t, q) > 0 :: q + m(t, q) <= |t| && x == t[q..q + m(t, q)]
  }

  /** Where the text of a match starts. */
  lemma MatchStart(m: Matcher, t: string, pos: nat, x: string) returns (q: nat)
    requires MatchedText(m, t, pos, x)
    ensures pos <= q < |t| && m(t, q) > 0 && q + m(t, q) <= |t| && x == t[q..q + m(t, q)]
  {
    q :| pos <= q < |t| && m(t, q) > 0 && q + m(t, q) <= |t| && x == t[q..q + m(t, q)];
  }

  /** Every string find-all returns is the text of a match. */
  lemma {:induction false} FindFromMatched(m: Matcher, t: string, pos: nat)
    requires pos <= |t|
    ensures forall x | x in FindFrom(m, t, pos) :: MatchedText(m, t, pos, x)
    decreases |t| - pos
  {
    if pos < |t| {
      FindFromStep(m, t, pos);
      var n := m(t, pos);
      if n > 0 {
        FindFromMatched(m, t, pos + n);
        assert MatchedText(m, t, pos, t[pos..pos + n]);
      } else {
        FindFromMatched(m, t, pos + 1);
      }
    } else {
      assert ScanFrom(m, t, pos) == [];
    }
  }

  /** With nothing to match, find-all is empty and replace-all changes nothing. */
  lemma FindAllEmptyIff(m: Matcher, t: string, repl: string)
    ensures FindAll(m, t) == [] <==> NoMatch(m, t)
    ensures NoMatch(m, t) ==> ReplaceAll(m, t, repl) == t
  {
    FindFromEmptyIff(m, t, 0);
    if NoMatch(m, t) {
      ReplaceFromNoMatch(m, t, 0, repl);
      assert t[0..] == t;
    }
  }
}

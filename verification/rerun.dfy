/** Running `apply_guardrails` on its own output lets it through. A placeholder
    opens with `[` and closes with `]`, and holds neither a digit nor `@`; every
    SSN, card and e-mail match starts and ends at a word boundary. So a match in
    the redacted text lies inside a stretch copied from the text before, where
    the characters are the same and the boundaries are no weaker: either the scan
    would have taken it already, or it was there before an earlier rule ran. */
module Rerun {
  import opened Chars
  import opened Scanner
  import opened Patterns
  import opened Guardrails

  /** The patterns `apply_guardrails` redacts. */
  predicate Redactable(p: Pattern) {
    p == Ssn || p == Card || p == Email
  }

  /** Every match of `m` in `t` starts and ends at a word boundary. */
  predicate Delimited(m: Matcher, t: string) {
    forall q: nat | q <= |t| && m(t, q) > 0 :: AtBoundary(t, q) && AtBoundary(t, q + m(t, q))
  }

  /** A character every redactable match contains and no placeholder does. */
  predicate Marker(c: char) {
    IsDigit(c) || c == '@'
  }

  /** Not a square bracket. */
  predicate Bare(c: char) {
    c != '[' && c != ']'
  }

  /** A placeholder: `[`, some characters other than a digit or `@`, `]`. */
  predicate Bracketed(p: string) {
    |p| >= 2 && p[0] == '[' && p[|p| - 1] == ']' && forall k | 0 <= k < |p| :: !Marker(p[k])
  }

  /** No bracket in u[q..e]. */
  predicate AllBare(u: string, q: int, e: int) {
    0 <= q <= e <= |u| && forall k | q <= k < e :: Bare(u[k])
  }

  /** u[q..e] is a copy of t shifted by `d`. */
  predicate Copied(u: string, q: int, e: int, t: string, d: int) {
    0 <= q <= e <= |u| && 0 <= q + d && e + d <= |t| && forall k | q <= k < e :: u[k] == t[k + d]
  }

  /** Where the output u has been produced up to `n` and the text t read up to
      `pos`: the character before `n` is a word character exactly when the one
      before `pos` is, or it is not one and `pos` is a word boundary of t. */
  predicate LeftOk(u: string, n: int, t: string, pos: int) {
    WordAt(u, n - 1) == WordAt(t, pos - 1) || (!WordAt(u, n - 1) && AtBoundary(t, pos))
  }

  lemma PlaceholdersBracketed()
    ensures Bracketed(SsnPlaceholder) && Bracketed(CardPlaceholder) && Bracketed(EmailPlaceholder)
  {
  }

  /** Every SSN, card and e-mail match starts and ends at a word boundary. */
  lemma RedactableDelimited(p: Pattern, t: string)
    requires Redactable(p)
    ensures Delimited(MatcherOf(p), t)
  {
    if p == Email {
      EmailDelimited(t);
    } else {
      forall q: nat | q <= |t| && MatcherOf(p)(t, q) > 0
        ensures AtBoundary(t, q) && AtBoundary(t, q + MatcherOf(p)(t, q))
      {
        assert MatcherOf(p)(t, q) == MatchLen(p, t, q);
      }
    }
  }

  lemma EmailDelimited(t: string)
    ensures Delimited(MatcherOf(Email), t)
  {
    forall q: nat | q <= |t| && MatcherOf(Email)(t, q) > 0
      ensures AtBoundary(t, q) && AtBoundary(t, q + MatcherOf(Email)(t, q))
    {
      var n := EmailLen(t, q);
      assert MatcherOf(Email)(t, q) == n;
      EmailLenSound(t, q);
      EmailEndsAtBoundary(t, q, q + n);
    }
  }

  lemma EmailEndsAtBoundary(t: string, i: nat, e: int)
    requires EmailForm(t, i, e)
    ensures AtBoundary(t, i) && AtBoundary(t, e)
  {
    var at :| i < at < |t| && AllIn(t, i, at, LocalPart) && t[at] == '@' && DomainForm(t, at + 1, e);
    var dot :| at + 1 < dot < |t| && AllIn(t, at + 1, dot, DomainPart) && t[dot] == '.' && TldForm(t, dot + 1, e);
  }

  // ---------------------------------------------------------------------------
  // Reading the output of replace-all back onto the text.

  /** The walk meets a match at `pos`: the output holds the placeholder, then
      the output of the walk from the end of the match. */
  lemma PlaceholderAt(m: Matcher, t: string, p: string, u: string, n: nat, pos: nat)
    requires pos < |t| && m(t, pos) > 0 && n <= |u| && u[n..] == ReplaceFrom(m, t, pos, p)
    ensures n + |p| <= |u| && u[n..n + |p|] == p
    ensures u[n + |p|..] == ReplaceFrom(m, t, pos + m(t, pos), p)
  {
    ReplaceFromAtMatch(m, t, pos, p);
    var rest := ReplaceFrom(m, t, pos + m(t, pos), p);
    assert u[n..] == p + rest;
    assert u[n..n + |p|] == (p + rest)[..|p|];
    assert u[n + |p|..] == (p + rest)[|p|..];
  }

  /** Past a placeholder, the walk goes on from the end of the match, after a
      `]` and at a word boundary of the text. */
  lemma SkipPlaceholder(m: Matcher, t: string, p: string, u: string, n: nat, pos: nat)
    requires pos < |t| && m(t, pos) > 0 && n <= |u| && u[n..] == ReplaceFrom(m, t, pos, p)
    requires Delimited(m, t) && Bracketed(p)
    ensures n + |p| <= |u| && u[n] == '['
    ensures u[n + |p|..] == ReplaceFrom(m, t, pos + m(t, pos), p)
    ensures LeftOk(u, n + |p|, t, pos + m(t, pos))
  {
    PlaceholderAt(m, t, p, u, n, pos);
    assert u[n] == u[n..n + |p|][0];
    assert u[n + |p| - 1] == u[n..n + |p|][|p| - 1];
  }

  /** The walk meets no match at `pos`: the output copies t[pos] and goes on
      with the walk from `pos + 1`. */
  lemma SkipChar(m: Matcher, t: string, p: string, u: string, n: nat, pos: nat)
    requires pos < |t| && m(t, pos) == 0 && n <= |u| && u[n..] == ReplaceFrom(m, t, pos, p)
    ensures n < |u| && u[n] == t[pos]
    ensures u[n + 1..] == ReplaceFrom(m, t, pos + 1, p)
    ensures LeftOk(u, n + 1, t, pos + 1)
  {
    ReplaceFromAtMiss(m, t, pos, p);
    assert u[n] == u[n..][0];
    assert u[n + 1..] == u[n..][1..];
  }

  /** The output of a replace-all, read from `n` while the walk is at `n + d`:
      a stretch u[n..e] with no `[` is a copy of the text shifted by `d`, no match
      starts where it does when it is not empty, and a word boundary at its end
      is one in the text too. */
  lemma {:induction false} GapCopy(m: Matcher, t: string, p: string, u: string, n: nat, d: int, e: nat)
    requires 0 <= n + d <= |t| && n <= e <= |u| && u[n..] == ReplaceFrom(m, t, n + d, p)
    requires Delimited(m, t) && Bracketed(p) && LeftOk(u, n, t, n + d)
    requires forall k | n <= k < e :: u[k] != '['
    ensures Copied(u, n, e, t, d)
    ensures n < e ==> m(t, n + d) == 0 && u[n] == t[n + d]
    ensures AtBoundary(u, e) ==> AtBoundary(t, e + d)
    decreases e - n
  {
    var pos := n + d;
    if n == e {
      WalkBoundary(m, t, p, u, n, pos);
    } else if pos == |t| {
      ReplaceFromAtEnd(m, t, p);
      assert false;
    } else if m(t, pos) > 0 {
      SkipPlaceholder(m, t, p, u, n, pos);
      assert false;
    } else {
      SkipChar(m, t, p, u, n, pos);
      GapCopy(m, t, p, u, n + 1, d, e);
    }
  }

  /** A word boundary of the output where the walk stands is one of the text. */
  lemma WalkBoundary(m: Matcher, t: string, p: string, u: string, n: nat, pos: nat)
    requires pos <= |t| && n <= |u| && u[n..] == ReplaceFrom(m, t, pos, p)
    requires Delimited(m, t) && LeftOk(u, n, t, pos)
    ensures AtBoundary(u, n) ==> AtBoundary(t, pos)
  {
    if pos == |t| {
      ReplaceFromAtEnd(m, t, p);
    } else if m(t, pos) == 0 {
      SkipChar(m, t, p, u, n, pos);
    }
  }

  /** A bracket-free stretch of the output that starts inside a placeholder ends
      inside it, so it holds no marker. */
  lemma PlaceholderWindow(m: Matcher, t: string, p: string, u: string, n: nat, pos: nat, q: nat, e: nat)
    requires pos < |t| && m(t, pos) > 0 && n <= |u| && u[n..] == ReplaceFrom(m, t, pos, p)
    requires Bracketed(p) && n <= q < n + |p| && AllBare(u, q, e)
    ensures forall k | q <= k < e :: !Marker(u[k])
  {
    PlaceholderAt(m, t, p, u, n, pos);
    var close := n + |p| - 1;
    assert u[close] == u[n..n + |p|][|p| - 1] == ']';
    assert e <= close by {
      if e > close {
        assert false;
      }
    }
    forall k | q <= k < e
      ensures !Marker(u[k])
    {
      assert u[k] == u[n..n + |p|][k - n];
    }
  }

  /** A bracket-free stretch u[q..e] of the output holding a marker is a copy of
      a stretch of the text, read from `n` while the walk is at `pos`. It starts
      where no match starts, and a word boundary at either end of it in the
      output is one in the text. */
  lemma {:induction false} GapWindow(m: Matcher, t: string, p: string, u: string, n: nat, pos: nat, q: nat, e: nat, w: nat)
    returns (q': nat)
    requires pos <= |t| && n <= |u| && u[n..] == ReplaceFrom(m, t, pos, p)
    requires Delimited(m, t) && Bracketed(p) && LeftOk(u, n, t, pos)
    requires n <= q < e && AllBare(u, q, e) && q <= w < e && Marker(u[w])
    ensures Copied(u, q, e, t, q' - q) && q' < |t|
    ensures m(t, q') == 0
    ensures AtBoundary(u, q) ==> AtBoundary(t, q')
    ensures AtBoundary(u, e) ==> AtBoundary(t, q' + (e - q))
    decreases |t| - pos, 1
  {
    if pos == |t| {
      ReplaceFromAtEnd(m, t, p);
      assert false;
    } else if m(t, pos) > 0 {
      q' := WindowPastMatch(m, t, p, u, n, pos, q, e, w);
    } else if q == n {
      GapHere(m, t, p, u, n, pos, e);
      q' := pos;
    } else {
      q' := WindowPastChar(m, t, p, u, n, pos, q, e, w);
    }
  }

  /** The walk meets a match before the stretch starts. */
  lemma {:induction false} WindowPastMatch(m: Matcher, t: string, p: string, u: string, n: nat, pos: nat, q: nat, e: nat, w: nat)
    returns (q': nat)
    requires pos < |t| && m(t, pos) > 0 && n <= |u| && u[n..] == ReplaceFrom(m, t, pos, p)
    requires Delimited(m, t) && Bracketed(p) && LeftOk(u, n, t, pos)
    requires n <= q < e && AllBare(u, q, e) && q <= w < e && Marker(u[w])
    ensures Copied(u, q, e, t, q' - q) && q' < |t|
    ensures m(t, q') == 0
    ensures AtBoundary(u, q) ==> AtBoundary(t, q')
    ensures AtBoundary(u, e) ==> AtBoundary(t, q' + (e - q))
    decreases |t| - pos, 0
  {
    if q < n + |p| {
      PlaceholderWindow(m, t, p, u, n, pos, q, e);
      assert false;
    }
    SkipPlaceholder(m, t, p, u, n, pos);
    q' := GapWindow(m, t, p, u, n + |p|, pos + m(t, pos), q, e, w);
  }

  /** The walk copies a character before the stretch starts. */
  lemma {:induction false} WindowPastChar(m: Matcher, t: string, p: string, u: string, n: nat, pos: nat, q: nat, e: nat, w: nat)
    returns (q': nat)
    requires pos < |t| && m(t, pos) == 0 && n < q && n <= |u| && u[n..] == ReplaceFrom(m, t, pos, p)
    requires Delimited(m, t) && Bracketed(p) && LeftOk(u, n, t, pos)
    requires n <= q < e && AllBare(u, q, e) && q <= w < e && Marker(u[w])
    ensures Copied(u, q, e, t, q' - q) && q' < |t|
    ensures m(t, q') == 0
    ensures AtBoundary(u, q) ==> AtBoundary(t, q')
    ensures AtBoundary(u, e) ==> AtBoundary(t, q' + (e - q))
    decreases |t| - pos, 0
  {
    SkipChar(m, t, p, u, n, pos);
    q' := GapWindow(m, t, p, u, n + 1, pos + 1, q, e, w);
  }

  /** The stretch starts right where the walk is, at a position with no match. */
  lemma GapHere(m: Matcher, t: string, p: string, u: string, n: nat, pos: nat, e: nat)
    requires pos < |t| && m(t, pos) == 0 && n <= |u| && u[n..] == ReplaceFrom(m, t, pos, p)
    requires Delimited(m, t) && Bracketed(p) && LeftOk(u, n, t, pos)
    requires n < e && AllBare(u, n, e)
    ensures Copied(u, n, e, t, pos - n)
    ensures AtBoundary(u, n) ==> AtBoundary(t, pos)
    ensures AtBoundary(u, e) ==> AtBoundary(t, pos + (e - n))
  {
    GapCopy(m, t, p, u, n, pos - n, e);
    StartBoundary(u, n, t, pos);
  }

  /** Where the output and the text agree on the next character, a boundary
      the output has there the text has too. */
  lemma StartBoundary(u: string, n: nat, t: string, pos: nat)
    requires n < |u| && pos < |t| && u[n] == t[pos] && LeftOk(u, n, t, pos)
    ensures AtBoundary(u, n) ==> AtBoundary(t, pos)
  {
  }

  // ---------------------------------------------------------------------------
  // A match in the output is a match in the text.

  /** A class run carries over to the copy. */
  lemma CopiedAllIn(u: string, q: int, e: int, t: string, d: int, a: int, b: int, k: CharClass)
    requires Copied(u, q, e, t, d) && q <= a && b <= e && AllIn(u, a, b, k)
    ensures AllIn(t, a + d, b + d, k)
  {
    forall j | a + d <= j < b + d
      ensures InClass(k, t[j])
    {
      assert u[j - d] == t[j];
    }
  }

  /** The same character sits at `i` in the output and at `i + d` in the text. */
  lemma CopiedAt(u: string, q: int, e: int, t: string, d: int, i: int)
    requires Copied(u, q, e, t, d) && q <= i < e
    ensures 0 <= i + d < |t| && u[i] == t[i + d]
  {
  }

  /** The stretch an SSN match covers has no bracket and starts with a digit. */
  lemma SsnBare(u: string, q: nat)
    requires SsnAt(u, q)
    ensures AllBare(u, q, q + 11) && Marker(u[q])
  {
    forall k | q <= k < q + 11
      ensures Bare(u[k])
    {
      if k != q + 3 && k != q + 6 {
        assert IsDigit(u[k]);
      }
    }
  }

  lemma SsnBack(m: Matcher, t: string, p: string, u: string, q: nat) returns (q': nat)
    requires u == ReplaceAll(m, t, p) && Delimited(m, t) && Bracketed(p)
    requires SsnAt(u, q)
    ensures q' < |t| && SsnAt(t, q') && m(t, q') == 0
  {
    SsnBare(u, q);
    assert u[0..] == u;
    q' := GapWindow(m, t, p, u, 0, 0, q, q + 11, q);
    var d := q' - q;
    CopiedAllIn(u, q, q + 11, t, d, q, q + 3, Digit);
    CopiedAllIn(u, q, q + 11, t, d, q + 4, q + 6, Digit);
    CopiedAllIn(u, q, q + 11, t, d, q + 7, q + 11, Digit);
    CopiedAt(u, q, q + 11, t, d, q + 3);
    CopiedAt(u, q, q + 11, t, d, q + 6);
  }

  lemma CardBack(m: Matcher, t: string, p: string, u: string, q: nat) returns (q': nat)
    requires u == ReplaceAll(m, t, p) && Delimited(m, t) && Bracketed(p)
    requires CardAt(u, q)
    ensures q' < |t| && CardAt(t, q') && m(t, q') == 0
  {
    assert AllBare(u, q, q + 16) && Marker(u[q]) by {
      forall k | q <= k < q + 16
        ensures Bare(u[k])
      {
        assert IsDigit(u[k]);
      }
    }
    assert u[0..] == u;
    q' := GapWindow(m, t, p, u, 0, 0, q, q + 16, q);
    CopiedAllIn(u, q, q + 16, t, q' - q, q, q + 16, Digit);
  }

  /** The stretch an e-mail match covers has no bracket, and has an `@`. */
  lemma EmailBare(u: string, q: nat, e: nat) returns (at: nat)
    requires EmailForm(u, q, e)
    ensures AllBare(u, q, e) && q <= at < e && u[at] == '@'
  {
    at :| q < at < |u| && AllIn(u, q, at, LocalPart) && u[at] == '@' && DomainForm(u, at + 1, e);
    var dot :| at + 1 < dot < |u| && AllIn(u, at + 1, dot, DomainPart) && u[dot] == '.' && TldForm(u, dot + 1, e);
    forall k | q <= k < e
      ensures Bare(u[k])
    {
      if k < at {
        assert InClass(LocalPart, u[k]);
      } else if at < k < dot {
        assert InClass(DomainPart, u[k]);
      } else if dot < k {
        assert InClass(TopLevel, u[k]);
      }
    }
  }

  /** The e-mail pattern carries over to a copy whose ends are word boundaries
      wherever the output's are. */
  lemma EmailFormBack(u: string, q: nat, e: nat, t: string, d: int)
    requires EmailForm(u, q, e) && Copied(u, q, e, t, d)
    requires AtBoundary(u, q) ==> AtBoundary(t, q + d)
    requires AtBoundary(u, e) ==> AtBoundary(t, e + d)
    ensures EmailForm(t, q + d, e + d)
  {
    var at :| q < at < |u| && AllIn(u, q, at, LocalPart) && u[at] == '@' && DomainForm(u, at + 1, e);
    var dot :| at + 1 < dot < |u| && AllIn(u, at + 1, dot, DomainPart) && u[dot] == '.' && TldForm(u, dot + 1, e);
    CopiedAllIn(u, q, e, t, d, q, at, LocalPart);
    CopiedAllIn(u, q, e, t, d, at + 1, dot, DomainPart);
    CopiedAllIn(u, q, e, t, d, dot + 1, e, TopLevel);
    CopiedAt(u, q, e, t, d, at);
    CopiedAt(u, q, e, t, d, dot);
    assert TldForm(t, dot + d + 1, e + d);
    assert DomainForm(t, at + d + 1, e + d);
    assert LocalForm(t, q + d, e + d);
  }

  lemma EmailBack(m: Matcher, t: string, p: string, u: string, q: nat, e: nat) returns (q': nat)
    requires u == ReplaceAll(m, t, p) && Delimited(m, t) && Bracketed(p)
    requires EmailForm(u, q, e)
    ensures q' < |t| && EmailLen(t, q') > 0 && m(t, q') == 0
  {
    var at := EmailBare(u, q, e);
    assert u[0..] == u;
    q' := GapWindow(m, t, p, u, 0, 0, q, e, at);
    EmailMatchesBack(u, q, e, t, q');
  }

  /** An e-mail match in the output, copied at `q2` in the text, is one there. */
  lemma EmailMatchesBack(u: string, q: nat, e: nat, t: string, q2: nat)
    requires EmailForm(u, q, e) && Copied(u, q, e, t, q2 - q)
    requires AtBoundary(u, q) ==> AtBoundary(t, q2)
    requires AtBoundary(u, e) ==> AtBoundary(t, q2 + (e - q))
    ensures q2 <= |t| && EmailLen(t, q2) > 0
  {
    var d := q2 - q;
    EmailFormBack(u, q, e, t, d);
    EmailComplete(t, q2, e + d);
  }

  /** Wherever a redactable pattern matches the output of a replace-all by a
      placeholder, it matches the text at a position where the replaced matcher
      found nothing. */
  lemma MatchBack(p2: Pattern, m: Matcher, t: string, p: string, q: nat) returns (q': nat)
    requires Redactable(p2) && Delimited(m, t) && Bracketed(p)
    requires q <= |ReplaceAll(m, t, p)| && MatchLen(p2, ReplaceAll(m, t, p), q) > 0
    ensures q' < |t| && MatchLen(p2, t, q') > 0 && m(t, q') == 0
  {
    var u := ReplaceAll(m, t, p);
    if p2 == Ssn {
      q' := SsnBack(m, t, p, u, q);
    } else if p2 == Card {
      q' := CardBack(m, t, p, u, q);
    } else {
      EmailLenSound(u, q);
      q' := EmailBack(m, t, p, u, q, q + EmailLen(u, q));
    }
  }

  /** After a redactable pattern's matches are replaced by a placeholder, the
      pattern matches nowhere in the result. */
  lemma RedactClears(r: Pattern, t: string, p: string)
    requires Redactable(r) && Bracketed(p)
    ensures NoMatch(MatcherOf(r), ReplaceAll(MatcherOf(r), t, p))
  {
    var m := MatcherOf(r);
    var u := ReplaceAll(m, t, p);
    RedactableDelimited(r, t);
    forall q | 0 <= q < |u|
      ensures m(u, q) == 0
    {
      if m(u, q) > 0 {
        var q' := MatchBack(r, m, t, p, q);
        assert false;
      }
    }
  }

  /** Replacing a redactable pattern's matches by a placeholder creates no match
      of a redactable pattern that had none. */
  lemma RedactKeepsClear(r: Pattern, r2: Pattern, t: string, p: string)
    requires Redactable(r) && Redactable(r2) && Bracketed(p)
    ensures NoMatch(MatcherOf(r2), t) ==> NoMatch(MatcherOf(r2), ReplaceAll(MatcherOf(r), t, p))
  {
    var m := MatcherOf(r);
    var u := ReplaceAll(m, t, p);
    if NoMatch(MatcherOf(r2), t) {
      RedactableDelimited(r, t);
      forall q | 0 <= q < |u|
        ensures MatcherOf(r2)(u, q) == 0
      {
        if MatcherOf(r2)(u, q) > 0 {
          var q' := MatchBack(r2, m, t, p, q);
          assert false;
        }
      }
    }
  }

  // ---------------------------------------------------------------------------
  // Running the guardrails twice.

  /** The filtered text holds no SSN, card number or e-mail address, so running
      `apply_guardrails` on it again answers ALLOWED and returns it unchanged,
      with no redactions. */
  lemma GuardrailsRerun(text: string)
    ensures var f := ApplyGuardrails(text).filteredText;
      NoMatch(MatcherOf(Ssn), f) && NoMatch(MatcherOf(Card), f) && NoMatch(MatcherOf(Email), f)
    ensures var f := ApplyGuardrails(text).filteredText;
      ApplyGuardrails(f) == GuardrailResult(f, [], Allowed)
  {
    var f := ApplyGuardrails(text).filteredText;
    GuardrailsPipeline(text);
    PlaceholdersBracketed();
    var t1 := AfterSsn(text);
    var t2 := AfterCard(text);
    RedactClears(Ssn, text, SsnPlaceholder);
    RedactClears(Card, t1, CardPlaceholder);
    RedactKeepsClear(Card, Ssn, t1, CardPlaceholder);
    RedactClears(Email, t2, EmailPlaceholder);
    RedactKeepsClear(Email, Ssn, t2, EmailPlaceholder);
    RedactKeepsClear(Email, Card, t2, EmailPlaceholder);
    GuardrailsAllowedIff(f);
  }
}

/** The five regular expressions of the library, each as a matcher that says how
    long a match starting at a given position is (0 when there is none).

      Disallowed  [^a-zA-Z0-9 \-\(\)\[\]]                              (sanitize_filename)
      SpaceRun    ' {2,}'                                             (sanitize_filename)
      Ssn         \b\d{3}-\d{2}-\d{4}\b                               (apply_guardrails)
      Card        \b\d{16}\b                                          (apply_guardrails)
      Email       \b[A-Za-z0-9._%+-]+@[A-Za-z0-9.-]+\.[A-Z|a-z]{2,}\b (apply_guardrails)

    None of them can match the empty string, so a match always has length >= 1. */
module Patterns {
  import opened Chars
  import opened Scanner

  datatype Option<T> = None | Some(value: T)

  datatype Pattern = Disallowed | SpaceRun | Ssn | Card | Email

  /** Length of the match of `p` that Python's `re` finds when it tries position `i`
      of `t` (the whole text stays visible, so `\b` sees t[i-1]); 0 for no match. */
  function MatchLen(p: Pattern, t: string, i: nat): (n: nat)
    requires i <= |t|
    ensures i + n <= |t|
  {
    match p
    case Disallowed => if i < |t| && !IsNameChar(t[i]) then 1 else 0
    case SpaceRun => var run := RunLength(t, i, Space); if run >= 2 then run else 0
    case Ssn => if SsnAt(t, i) then 11 else 0
    case Card => if CardAt(t, i) then 16 else 0
    case Email => EmailLen(t, i)
  }

  /** The pattern as a matcher for the scan. */
  function MatcherOf(p: Pattern): Matcher {
    (t: string, i: nat) => if i <= |t| then MatchLen(p, t, i) else 0
  }

  /** The matcher reports the pattern's match length at every position. */
  lemma MatcherOfLen(p: Pattern)
    ensures forall t: string, i: nat | i <= |t| :: MatcherOf(p)(t, i) == MatchLen(p, t, i)
  {
  }

  /** `\b\d{3}-\d{2}-\d{4}\b` matches t[i..i+11]. */
  predicate SsnAt(t: string, i: nat) {
    && i + 11 <= |t|
    && AtBoundary(t, i)
    && AllIn(t, i, i + 3, Digit)
    && t[i + 3] == '-'
    && AllIn(t, i + 4, i + 6, Digit)
    && t[i + 6] == '-'
    && AllIn(t, i + 7, i + 11, Digit)
    && AtBoundary(t, i + 11)
  }

  /** `\b\d{16}\b` matches t[i..i+16]. */
  predicate CardAt(t: string, i: nat) {
    && i + 16 <= |t|
    && AtBoundary(t, i)
    && AllIn(t, i, i + 16, Digit)
    && AtBoundary(t, i + 16)
  }

  // ---------------------------------------------------------------------------
  // The e-mail pattern, declaratively: the set of (start, end) pairs it accepts.

  /** `[A-Z|a-z]{2,}\b` matches t[b..e]. */
  predicate TldForm(t: string, b: int, e: int) {
    b + 2 <= e && AllIn(t, b, e, TopLevel) && AtBoundary(t, e)
  }

  /** `[A-Za-z0-9.-]+\.[A-Z|a-z]{2,}\b` matches t[a..e]. */
  predicate DomainForm(t: string, a: int, e: int) {
    exists dot {:trigger AllIn(t, a, dot, DomainPart)} | a < dot < |t| :: AllIn(t, a, dot, DomainPart) && t[dot] == '.' && TldForm(t, dot + 1, e)
  }

  /** `[A-Za-z0-9._%+-]+@` followed by the domain matches t[i..e]. */
  predicate LocalForm(t: string, i: int, e: int) {
    exists at {:trigger AllIn(t, i, at, LocalPart)} | i < at < |t| :: AllIn(t, i, at, LocalPart) && t[at] == '@' && DomainForm(t, at + 1, e)
  }

  /** The whole e-mail pattern matches t[i..e]. */
  predicate EmailForm(t: string, i: int, e: int) {
    AtBoundary(t, i) && LocalForm(t, i, e)
  }

  // ---------------------------------------------------------------------------
  // The e-mail pattern operationally, in the order Python's backtracking matcher
  // tries the alternatives: every greedy `+` / `{2,}` first takes the longest run
  // and then gives back one character at a time; the first success wins.

  /** `[A-Z|a-z]{2,}\b` at `b`, having taken `k` characters: returns the end. */
  function TldTry(t: string, b: nat, k: nat): (r: Option<nat>)
    requires b <= |t| && k <= RunLength(t, b, TopLevel)
    ensures r.Some? ==> b + 2 <= r.value <= b + k
    decreases k
  {
    if k < 2 then None
    else if AtBoundary(t, b + k) then Some(b + k)
    else TldTry(t, b, k - 1)
  }

  /** `[A-Za-z0-9.-]+` at `a` having taken `d` characters, then `\.` and the top-level part. */
  function DomainTry(t: string, a: nat, d: nat): (r: Option<nat>)
    requires a <= |t| && d <= RunLength(t, a, DomainPart)
    ensures r.Some? ==> a + 3 <= r.value <= |t|
    decreases d
  {
    if d == 0 then None
    else if a + d < |t| && t[a + d] == '.' then
      var b := a + d + 1;
      match TldTry(t, b, RunLength(t, b, TopLevel))
      case Some(e) => Some(e)
      case None => DomainTry(t, a, d - 1)
    else DomainTry(t, a, d - 1)
  }

  /** `[A-Za-z0-9._%+-]+` at `i` having taken `l` characters, then `@` and the domain. */
  function LocalTry(t: string, i: nat, l: nat): (r: Option<nat>)
    requires i <= |t| && l <= RunLength(t, i, LocalPart)
    ensures r.Some? ==> i + 5 <= r.value <= |t|
    decreases l
  {
    if l == 0 then None
    else if i + l < |t| && t[i + l] == '@' then
      var a := i + l + 1;
      match DomainTry(t, a, RunLength(t, a, DomainPart))
      case Some(e) => Some(e)
      case None => LocalTry(t, i, l - 1)
    else LocalTry(t, i, l - 1)
  }

  /** Length of the e-mail match at `i`, 0 when there is none. */
  function EmailLen(t: string, i: nat): (n: nat)
    requires i <= |t|
    ensures i + n <= |t|
    ensures n > 0 ==> i + 5 <= i + n
  {
    if !AtBoundary(t, i) then 0
    else match LocalTry(t, i, RunLength(t, i, LocalPart))
      case Some(e) => e - i
      case None => 0
  }

  // ---------------------------------------------------------------------------
  // Soundness: whatever the backtracking matcher returns is a match of the pattern.

  lemma {:induction false} TldTrySound(t: string, b: nat, k: nat)
    requires b <= |t| && k <= RunLength(t, b, TopLevel)
    ensures TldTry(t, b, k).Some? ==> TldForm(t, b, TldTry(t, b, k).value)
    decreases k
  {
    if k >= 2 && !AtBoundary(t, b + k) {
      TldTrySound(t, b, k - 1);
    }
  }

  lemma {:induction false} DomainTrySound(t: string, a: nat, d: nat)
    requires a <= |t| && d <= RunLength(t, a, DomainPart)
    ensures DomainTry(t, a, d).Some? ==> DomainForm(t, a, DomainTry(t, a, d).value)
    decreases d
  {
    if d > 0 {
      var b := a + d + 1;
      if a + d < |t| && t[a + d] == '.' && TldTry(t, b, RunLength(t, b, TopLevel)).Some? {
        TldTrySound(t, b, RunLength(t, b, TopLevel));
        assert AllIn(t, a, a + d, DomainPart);
      } else {
        DomainTrySound(t, a, d - 1);
      }
    }
  }

  lemma {:induction false} LocalTrySound(t: string, i: nat, l: nat)
    requires i <= |t| && l <= RunLength(t, i, LocalPart)
    ensures LocalTry(t, i, l).Some? ==> LocalForm(t, i, LocalTry(t, i, l).value)
    decreases l
  {
    if l > 0 {
      var a := i + l + 1;
      if i + l < |t| && t[i + l] == '@' && DomainTry(t, a, RunLength(t, a, DomainPart)).Some? {
        DomainTrySound(t, a, RunLength(t, a, DomainPart));
        assert AllIn(t, i, i + l, LocalPart);
      } else {
        LocalTrySound(t, i, l - 1);
      }
    }
  }

  /** A length the e-mail matcher reports is that of a match of the pattern. */
  lemma EmailLenSound(t: string, i: nat)
    requires i <= |t|
    ensures EmailLen(t, i) > 0 ==> EmailForm(t, i, i + EmailLen(t, i))
  {
    if AtBoundary(t, i) {
      LocalTrySound(t, i, RunLength(t, i, LocalPart));
    }
  }

  /** The e-mail matcher is `EmailLen` at every position. */
  lemma MatcherOfEmail()
    ensures forall t: string, i: nat | i <= |t| :: MatcherOf(Email)(t, i) == EmailLen(t, i)
  {
  }

  /** Soundness for any matcher that agrees with `EmailLen` on `t`. */
  lemma EmailSoundVia(m: Matcher, t: string)
    requires forall i: nat | i <= |t| :: m(t, i) == EmailLen(t, i)
    ensures forall i: nat | i <= |t| && m(t, i) > 0 :: EmailForm(t, i, i + m(t, i))
  {
    forall i: nat | i <= |t| && m(t, i) > 0
      ensures EmailForm(t, i, i + m(t, i))
    {
      EmailSoundAt(m, t, i);
    }
  }

  lemma EmailSoundAt(m: Matcher, t: string, i: nat)
    requires i <= |t| && m(t, i) == EmailLen(t, i) && m(t, i) > 0
    ensures EmailForm(t, i, i + m(t, i))
  {
    EmailLenSound(t, i);
  }

  /** What the e-mail matcher reports anywhere in `t` is a match of the pattern. */
  lemma EmailMatcherSound(t: string)
    ensures forall i: nat | i <= |t| && MatcherOf(Email)(t, i) > 0 :: EmailForm(t, i, i + MatcherOf(Email)(t, i))
  {
    MatcherOfEmail();
    EmailSoundVia(MatcherOf(Email), t);
  }

  // ---------------------------------------------------------------------------
  // The backtracking matcher finds a match whenever the declarative form has
  // one, and the match it finds reaches at least as far.

  lemma {:induction false} TldTryFinds(t: string, b: nat, k: nat, e: int) returns (r: nat)
    requires b <= |t| && k <= RunLength(t, b, TopLevel)
    requires TldForm(t, b, e) && e - b <= k
    ensures TldTry(t, b, k) == Some(r) && r >= e
    decreases k
  {
    if AtBoundary(t, b + k) {
      r := b + k;
    } else {
      r := TldTryFinds(t, b, k - 1, e);
    }
  }

  lemma {:induction false} DomainTryFinds(t: string, a: nat, d: nat, dot: nat, e: int) returns (r: nat)
    requires a <= |t| && d <= RunLength(t, a, DomainPart)
    requires a < dot < |t| && AllIn(t, a, dot, DomainPart) && t[dot] == '.' && TldForm(t, dot + 1, e)
    requires dot - a <= d
    ensures DomainTry(t, a, d) == Some(r) && r >= e
    decreases d
  {
    var b := a + d + 1;
    if a + d == dot {
      RunLengthCovers(t, b, e, TopLevel);
      r := TldTryFinds(t, b, RunLength(t, b, TopLevel), e);
      DomainTryAtDot(t, a, d, r);
    } else if a + d < |t| && t[a + d] == '.' && TldTry(t, b, RunLength(t, b, TopLevel)).Some? {
      // A later dot wins; it lies past the top-level part ending at `e`, which holds no dot.
      r := TldTry(t, b, RunLength(t, b, TopLevel)).value;
      DomainTryAtDot(t, a, d, r);
      assert e <= a + d;
    } else {
      r := DomainTryFinds(t, a, d - 1, dot, e);
      DomainTryBack(t, a, d);
    }
  }

  /** Having taken `d` characters up to a dot the top-level part can follow, the domain ends where it does. */
  lemma DomainTryAtDot(t: string, a: nat, d: nat, r: nat)
    requires a <= |t| && 0 < d <= RunLength(t, a, DomainPart)
    requires a + d < |t| && t[a + d] == '.'
    requires TldTry(t, a + d + 1, RunLength(t, a + d + 1, TopLevel)) == Some(r)
    ensures DomainTry(t, a, d) == Some(r)
  {
  }

  /** Otherwise the domain gives back one character. */
  lemma DomainTryBack(t: string, a: nat, d: nat)
    requires a <= |t| && 0 < d <= RunLength(t, a, DomainPart)
    requires !(a + d < |t| && t[a + d] == '.' && TldTry(t, a + d + 1, RunLength(t, a + d + 1, TopLevel)).Some?)
    ensures DomainTry(t, a, d) == DomainTry(t, a, d - 1)
  {
  }

  /** Completeness: if the e-mail pattern can match t[i..e], the matcher reports
      a match at `i`, and one that reaches at least to `e`. */
  lemma EmailComplete(t: string, i: nat, e: int)
    requires i <= |t| && EmailForm(t, i, e)
    ensures EmailLen(t, i) > 0 && e <= i + EmailLen(t, i)
  {
    var at :| i < at < |t| && AllIn(t, i, at, LocalPart) && t[at] == '@' && DomainForm(t, at + 1, e);
    var dot :| at + 1 < dot < |t| && AllIn(t, at + 1, dot, DomainPart) && t[dot] == '.' && TldForm(t, dot + 1, e);
    var r := LocalTryFinds(t, i, at, dot, e);
    LocalTryAtAt(t, i, at, r);
  }

  /** The local run stops at the `@`, and the domain after it is found. */
  lemma LocalTryFinds(t: string, i: nat, at: nat, dot: nat, e: int) returns (r: nat)
    requires i < at && at + 1 < dot < |t| && AllIn(t, i, at, LocalPart) && t[at] == '@'
    requires AllIn(t, at + 1, dot, DomainPart) && t[dot] == '.' && TldForm(t, dot + 1, e)
    ensures RunLength(t, i, LocalPart) == at - i
    ensures DomainTry(t, at + 1, RunLength(t, at + 1, DomainPart)) == Some(r) && r >= e
  {
    RunLengthExact(t, i, at, LocalPart);
    DomainRunCoversDot(t, at + 1, dot);
    r := DomainTryFinds(t, at + 1, RunLength(t, at + 1, DomainPart), dot, e);
  }

  /** Having taken the whole local run up to an `@`, the local part defers to the domain. */
  lemma LocalTryAtAt(t: string, i: nat, at: nat, r: nat)
    requires i < at < |t| && t[at] == '@' && RunLength(t, i, LocalPart) == at - i
    requires DomainTry(t, at + 1, RunLength(t, at + 1, DomainPart)) == Some(r)
    ensures LocalTry(t, i, RunLength(t, i, LocalPart)) == Some(r)
  {
    LocalTryStep(t, i, at, r);
  }

  lemma LocalTryStep(t: string, i: nat, at: nat, r: nat)
    requires i < at < |t| && t[at] == '@' && at - i <= RunLength(t, i, LocalPart)
    requires DomainTry(t, at + 1, RunLength(t, at + 1, DomainPart)) == Some(r)
    ensures LocalTry(t, i, at - i) == Some(r)
  {
  }

  /** The domain run reaches past a dot its characters lead up to. */
  lemma DomainRunCoversDot(t: string, a: nat, dot: nat)
    requires a <= dot < |t| && AllIn(t, a, dot, DomainPart) && t[dot] == '.'
    ensures RunLength(t, a, DomainPart) > dot - a
  {
    RunLengthCovers(t, a, dot + 1, DomainPart);
  }

  /** Soundness and completeness together: the matcher decides the pattern's language at `i`. */
  lemma EmailMatchIff(t: string, i: nat)
    requires i <= |t|
    ensures EmailLen(t, i) > 0 <==> exists e :: EmailForm(t, i, e)
  {
    EmailLenSound(t, i);
    if e :| EmailForm(t, i, e) {
      EmailComplete(t, i, e);
    }
  }

  /** The matcher reports the longest match of the pattern at `i`: its end is
      an end of the pattern, and no end of the pattern lies beyond it. */
  lemma EmailLongest(t: string, i: nat)
    requires i <= |t|
    ensures EmailLen(t, i) > 0 ==> EmailForm(t, i, i + EmailLen(t, i))
    ensures forall e | EmailForm(t, i, e) :: e <= i + EmailLen(t, i)
  {
    EmailLenSound(t, i);
    forall e | EmailForm(t, i, e)
      ensures e <= i + EmailLen(t, i)
    {
      EmailComplete(t, i, e);
    }
  }

  /** The top-level class `[A-Z|a-z]` holds a literal `|`: "a@b.c|d" is taken for
      an e-mail address, its top-level part being "c|d". */
  lemma TopLevelAcceptsBar()
    ensures EmailForm("a@b.c|d", 0, 7)
    ensures MatchLen(Email, "a@b.c|d", 0) > 0
  {
    var t := "a@b.c|d";
    assert TldForm(t, 4, 7);
    assert AllIn(t, 2, 3, DomainPart) && t[3] == '.';
    assert DomainForm(t, 2, 7);
    assert AllIn(t, 0, 1, LocalPart) && t[1] == '@';
    EmailComplete(t, 0, 7);
  }
}

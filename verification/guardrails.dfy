/** `apply_guardrails`: redact social security numbers, card numbers and e-mail
    addresses from a text, in that order, and report what was redacted. */
module Guardrails {
  import opened Chars
  import opened Scanner
  import opened Patterns

  datatype Action = Allowed | Filtered

  /** The label the result dictionary carries. */
  function ActionLabel(a: Action): string {
    match a
    case Allowed => "ALLOWED"
    case Filtered => "FILTERED"
  }

  /** A pattern and the placeholder that replaces each of its matches. */
  datatype Rule = Rule(pattern: Pattern, placeholder: string)

  const SsnPlaceholder: string := "[SSN_REDACTED]"
  const CardPlaceholder: string := "[CARD_REDACTED]"
  const EmailPlaceholder: string := "[EMAIL_REDACTED]"

  /** The rules, in the order they are applied. */
  const Rules: seq<Rule> := [Rule(Ssn, SsnPlaceholder), Rule(Card, CardPlaceholder), Rule(Email, EmailPlaceholder)]

  /** The text as filtered so far and the redactions collected so far. */
  datatype Pass = Pass(text: string, redactions: seq<string>)

  datatype GuardrailResult = GuardrailResult(filteredText: string, redactions: seq<string>, action: Action)

  /** One turn of the loop: find every match in the current text; if there is
      any, record them and replace each by the placeholder. A turn either leaves
      the pass as it is or records at least one more redaction, keeping the
      earlier ones in front. */
  function ApplyRule(r: Rule, s: Pass): (s': Pass)
    ensures s' == s || |s'.redactions| > |s.redactions|
    ensures |s'.redactions| >= |s.redactions| && s'.redactions[..|s.redactions|] == s.redactions
  {
    var m := MatcherOf(r.pattern);
    var matches := FindAll(m, s.text);
    if |matches| > 0 then Pass(ReplaceAll(m, s.text, r.placeholder), s.redactions + matches)
    else s
  }

  /** The loop over the rules, each rule working on the previous one's output.
      Redactions only accumulate, and a run of rules that records nothing leaves
      the text alone. */
  function ApplyRules(rules: seq<Rule>, s: Pass): (s': Pass)
    ensures |s'.redactions| >= |s.redactions| && s'.redactions[..|s.redactions|] == s.redactions
    ensures |s'.redactions| == |s.redactions| ==> s' == s
    decreases |rules|
  {
    if |rules| == 0 then s else ApplyRules(rules[1..], ApplyRule(rules[0], s))
  }

  /** `apply_guardrails`. When it answers ALLOWED nothing was redacted and the
      text comes back exactly as it was given. */
  function ApplyGuardrails(text: string): (g: GuardrailResult)
    ensures g.action == Filtered <==> |g.redactions| > 0
    ensures g.action == Allowed ==> g.filteredText == text && g.redactions == []
  {
    var s := ApplyRules(Rules, Pass(text, []));
    GuardrailResult(s.text, s.redactions, if |s.redactions| > 0 then Filtered else Allowed)
  }

  // ---------------------------------------------------------------------------
  // The loop as three unconditional stages.

  /** The `if matches:` guard changes nothing: with no match, replacing every
      match leaves the text as it is and there is nothing to record. */
  lemma ApplyRuleUnguarded(r: Rule, s: Pass)
    ensures ApplyRule(r, s) == Pass(ReplaceAll(MatcherOf(r.pattern), s.text, r.placeholder),
                                    s.redactions + FindAll(MatcherOf(r.pattern), s.text))
  {
    var m := MatcherOf(r.pattern);
    FindAllEmptyIff(m, s.text, r.placeholder);
    if FindAll(m, s.text) == [] {
      assert s.redactions + [] == s.redactions;
    }
  }

  /** Text after the first rule. */
  function AfterSsn(text: string): string {
    ReplaceAll(MatcherOf(Ssn), text, SsnPlaceholder)
  }

  /** Text after the first two rules. */
  function AfterCard(text: string): string {
    ReplaceAll(MatcherOf(Card), AfterSsn(text), CardPlaceholder)
  }

  /** The rules run in the order SSN, card, e-mail, each on the output of the one
      before; the redactions are the SSN matches of the text, then the card
      matches of the SSN-redacted text, then the e-mail matches of the text with
      both redacted. */
  lemma GuardrailsPipeline(text: string)
    ensures ApplyGuardrails(text).filteredText == ReplaceAll(MatcherOf(Email), AfterCard(text), EmailPlaceholder)
    ensures ApplyGuardrails(text).redactions ==
      FindAll(MatcherOf(Ssn), text) + FindAll(MatcherOf(Card), AfterSsn(text)) + FindAll(MatcherOf(Email), AfterCard(text))
  {
    var s0 := Pass(text, []);
    var s1 := ApplyRule(Rules[0], s0);
    var s2 := ApplyRule(Rules[1], s1);
    var s3 := ApplyRule(Rules[2], s2);
    assert ApplyRules(Rules, s0) == s3 by {
      assert ApplyRules(Rules, s0) == ApplyRules(Rules[1..], s1);
      assert ApplyRules(Rules[1..], s1) == ApplyRules(Rules[2..], s2);
      assert ApplyRules(Rules[2..], s2) == ApplyRules(Rules[3..], s3);
      assert Rules[3..] == [];
    }
    ApplyRuleUnguarded(Rules[0], s0);
    ApplyRuleUnguarded(Rules[1], s1);
    ApplyRuleUnguarded(Rules[2], s2);
  }

  /** A text is let through untouched, with nothing recorded, exactly when none of
      the three patterns matches anywhere in it. */
  lemma GuardrailsAllowedIff(text: string)
    ensures ApplyGuardrails(text).action == Allowed <==>
      NoMatch(MatcherOf(Ssn), text) && NoMatch(MatcherOf(Card), text) && NoMatch(MatcherOf(Email), text)
    ensures ApplyGuardrails(text).action == Allowed ==>
      ApplyGuardrails(text).filteredText == text && ApplyGuardrails(text).redactions == []
    ensures ActionLabel(ApplyGuardrails(text).action) == "ALLOWED" <==> ApplyGuardrails(text).action == Allowed
  {
    GuardrailsPipeline(text);
    FindAllEmptyIff(MatcherOf(Ssn), text, SsnPlaceholder);
    if NoMatch(MatcherOf(Ssn), text) {
      assert AfterSsn(text) == text;
      FindAllEmptyIff(MatcherOf(Card), text, CardPlaceholder);
      if NoMatch(MatcherOf(Card), text) {
        assert AfterCard(text) == text;
        FindAllEmptyIff(MatcherOf(Email), text, EmailPlaceholder);
      }
    }
  }

  // ---------------------------------------------------------------------------
  // What is redacted.

  predicate SsnShaped(x: string) {
    && |x| == 11
    && AllIn(x, 0, 3, Digit) && x[3] == '-'
    && AllIn(x, 4, 6, Digit) && x[6] == '-'
    && AllIn(x, 7, 11, Digit)
  }

  predicate CardShaped(x: string) {
    |x| == 16 && AllIn(x, 0, 16, Digit)
  }

  /** A local part, `@`, a non-empty domain part, `.` and a top-level part of at
      least two characters: an e-mail address as the pattern reads it. */
  predicate EmailShaped(x: string) {
    exists at, dot | 0 < at && at + 1 < dot && dot + 3 <= |x| ::
      && AllIn(x, 0, at, LocalPart) && x[at] == '@'
      && AllIn(x, at + 1, dot, DomainPart) && x[dot] == '.'
      && AllIn(x, dot + 1, |x|, TopLevel)
  }

  /** The shape of a string a pattern matched. */
  predicate MatchShape(p: Pattern, x: string) {
    match p
    case Disallowed => |x| == 1 && !IsNameChar(x[0])
    case SpaceRun => |x| >= 2 && AllIn(x, 0, |x|, Space)
    case Ssn => SsnShaped(x)
    case Card => CardShaped(x)
    case Email => EmailShaped(x)
  }

  lemma DisallowedShapedAt(t: string, x: string)
    requires MatchedText(MatcherOf(Disallowed), t, 0, x)
    ensures MatchShape(Disallowed, x)
  {
    var q := MatchStart(MatcherOf(Disallowed), t, 0, x);
    MatcherOfLen(Disallowed);
  }

  lemma SpaceRunShapedAt(t: string, x: string)
    requires MatchedText(MatcherOf(SpaceRun), t, 0, x)
    ensures MatchShape(SpaceRun, x)
  {
    var q := MatchStart(MatcherOf(SpaceRun), t, 0, x);
    var e := q + RunLength(t, q, Space);
    assert e >= q + 2 && x == t[q..e] by {
      MatcherOfLen(SpaceRun);
    }
    AllInSlice(t, q, e, 0, e - q, Space);
  }

  lemma SsnShapedAt(t: string, x: string)
    requires MatchedText(MatcherOf(Ssn), t, 0, x)
    ensures MatchShape(Ssn, x)
  {
    var q := MatchStart(MatcherOf(Ssn), t, 0, x);
    assert SsnAt(t, q) && x == t[q..q + 11] by {
      MatcherOfLen(Ssn);
    }
    AllInSlice(t, q, q + 11, 0, 3, Digit);
    AllInSlice(t, q, q + 11, 4, 6, Digit);
    AllInSlice(t, q, q + 11, 7, 11, Digit);
  }

  lemma CardShapedAt(t: string, x: string)
    requires MatchedText(MatcherOf(Card), t, 0, x)
    ensures MatchShape(Card, x)
  {
    var q := MatchStart(MatcherOf(Card), t, 0, x);
    assert CardAt(t, q) && x == t[q..q + 16] by {
      MatcherOfLen(Card);
    }
    AllInSlice(t, q, q + 16, 0, 16, Digit);
  }

  lemma EmailFormShaped(t: string, q: nat, e: nat)
    requires q <= e <= |t| && EmailForm(t, q, e)
    ensures MatchShape(Email, t[q..e])
  {
    var at :| q < at < |t| && AllIn(t, q, at, LocalPart) && t[at] == '@' && DomainForm(t, at + 1, e);
    var dot :| at + 1 < dot < |t| && AllIn(t, at + 1, dot, DomainPart) && t[dot] == '.' && TldForm(t, dot + 1, e);
    assert dot + 3 <= e && AllIn(t, dot + 1, e, TopLevel);
    var x := t[q..e];
    AllInSlice(t, q, e, 0, at - q, LocalPart);
    AllInSlice(t, q, e, at + 1 - q, dot - q, DomainPart);
    AllInSlice(t, q, e, dot + 1 - q, e - q, TopLevel);
    assert x[at - q] == '@' && x[dot - q] == '.';
    assert EmailShaped(x);
  }

  /** A match of any matcher that only reports e-mail forms has the e-mail shape. */
  lemma EmailShapedVia(m: Matcher, t: string, x: string)
    requires forall i: nat | i <= |t| && m(t, i) > 0 :: EmailForm(t, i, i + m(t, i))
    requires MatchedText(m, t, 0, x)
    ensures MatchShape(Email, x)
  {
    var q := MatchStart(m, t, 0, x);
    EmailFormShaped(t, q, q + m(t, q));
  }

  lemma EmailShapedAt(t: string, x: string)
    requires MatchedText(MatcherOf(Email), t, 0, x)
    ensures MatchShape(Email, x)
  {
    EmailMatcherSound(t);
    EmailShapedVia(MatcherOf(Email), t, x);
  }

  /** The text of a match has its pattern's shape. */
  lemma MatchedTextShaped(p: Pattern, t: string, x: string)
    requires MatchedText(MatcherOf(p), t, 0, x)
    ensures MatchShape(p, x)
  {
    match p
    case Disallowed => DisallowedShapedAt(t, x);
    case SpaceRun => SpaceRunShapedAt(t, x);
    case Ssn => SsnShapedAt(t, x);
    case Card => CardShapedAt(t, x);
    case Email => EmailShapedAt(t, x);
  }

  /** Everything find-all returns for a pattern has the pattern's shape. */
  lemma FindAllShaped(p: Pattern, t: string)
    ensures forall x | x in FindAll(MatcherOf(p), t) :: MatchShape(p, x)
  {
    var m := MatcherOf(p);
    FindFromMatched(m, t, 0);
    forall x | x in FindAll(m, t)
      ensures MatchShape(p, x)
    {
      MatchedTextShaped(p, t, x);
    }
  }

  /** Every redaction is an SSN, a 16-digit card number or an e-mail address. */
  lemma GuardrailsRedactionShapes(text: string)
    ensures forall x | x in ApplyGuardrails(text).redactions ::
      MatchShape(Ssn, x) || MatchShape(Card, x) || MatchShape(Email, x)
  {
    GuardrailsPipeline(text);
    FindAllShaped(Ssn, text);
    FindAllShaped(Card, AfterSsn(text));
    FindAllShaped(Email, AfterCard(text));
  }

  // ---------------------------------------------------------------------------
  // A run of digits.

  /** No e-mail match without an `@`. */
  lemma NoAtNoEmail(t: string, i: nat, e: int)
    requires forall k | i < k < |t| :: t[k] != '@'
    ensures !EmailForm(t, i, e)
  {
  }

  lemma DigitsNoSsnNoEmail(t: string)
    requires AllIn(t, 0, |t|, Digit)
    ensures NoMatch(MatcherOf(Ssn), t) && NoMatch(MatcherOf(Email), t)
  {
    MatcherOfLen(Ssn);
    MatcherOfLen(Email);
    forall q | 0 <= q < |t|
      ensures MatchLen(Ssn, t, q) == 0 && MatchLen(Email, t, q) == 0
    {
      assert !IsDigit('-') && !IsDigit('@');
      EmailLenSound(t, q);
      NoAtNoEmail(t, q, q + EmailLen(t, q));
    }
  }

  /** In a text that is all digits the only possible card match is the whole
      text, and only when it is exactly 16 digits long. */
  lemma DigitsCard(t: string)
    requires AllIn(t, 0, |t|, Digit)
    ensures NoMatch(MatcherOf(Card), t) <==> |t| != 16
  {
    MatcherOfLen(Card);
    if |t| == 16 {
      assert CardAt(t, 0);
      assert MatcherOf(Card)(t, 0) == 16;
    } else {
      forall q | 0 <= q < |t|
        ensures !CardAt(t, q)
      {
        if q + 16 <= |t| {
          assert WordAt(t, q);
          assert WordAt(t, q + 15);
          if q > 0 {
            assert WordAt(t, q - 1);
          } else {
            assert WordAt(t, 16);
          }
        }
      }
    }
  }

  /** Anywhere in a text, a card match that overlaps a maximal run of digits
      t[i..j] is the whole run. So the run holds a card number only when it is
      exactly 16 digits long, and then it is one when it stands between non-word
      characters (or the ends of the text). */
  lemma DigitRunCard(t: string, i: nat, j: nat)
    requires i < j <= |t| && AllIn(t, i, j, Digit)
    requires i == 0 || !IsDigit(t[i - 1])
    requires j == |t| || !IsDigit(t[j])
    ensures forall q: nat | CardAt(t, q) && q < j && i < q + 16 :: q == i && q + 16 == j
    ensures j - i != 16 ==> forall q: nat | CardAt(t, q) :: q + 16 <= i || j <= q
    ensures j - i == 16 && !WordAt(t, i - 1) && !WordAt(t, j) ==> CardAt(t, i)
  {
  }

  /** A text of digits only is filtered exactly when it has 16 of them: a
      17-digit run, say, is not taken for a card number and goes through
      unchanged. */
  lemma GuardrailsDigits(t: string)
    requires AllIn(t, 0, |t|, Digit)
    ensures ApplyGuardrails(t).action == Filtered <==> |t| == 16
    ensures |t| != 16 ==> ApplyGuardrails(t) == GuardrailResult(t, [], Allowed)
  {
    GuardrailsAllowedIff(t);
    DigitsNoSsnNoEmail(t);
    DigitsCard(t);
  }
}

/** `sanitize_filename`: turn an uploaded file's name into one meant to meet the
    model API's naming rules (letters, digits, space, `-`, parentheses, square
    brackets; no run of spaces), falling back to "document.pdf". The `_` filler
    and that fallback themselves break the rules: `SanitizeNotAccepted` shows
    both, and `SanitizeAccepted` is the corrected version. */
module Filename {
  import opened Chars
  import opened Scanner
  import opened Patterns
  import opened Whitespace

  const DefaultName: string := "document.pdf"

  /** A character a sanitized name may hold: an allowed one, or the `_` put in
      place of any other. */
  predicate IsCleanChar(c: char) {
    IsNameChar(c) || c == '_'
  }

  predicate Clean(t: string) {
    forall i | 0 <= i < |t| :: IsCleanChar(t[i])
  }

  /** The character-by-character reading of a substitution of the disallowed
      characters: an allowed character stays, any other becomes `fill`. */
  function MapWith(name: string, fill: char): string {
    seq(|name|, i requires 0 <= i < |name| => if IsNameChar(name[i]) then name[i] else fill)
  }

  /** The first step of the source, which fills with `_`. */
  function MapChars(name: string): string {
    MapWith(name, '_')
  }

  /** The four steps of the source, each regular expression run by the scanner.
      The API is never handed an empty name. */
  function Sanitize(name: string): (r: string)
    ensures |r| > 0
  {
    if |name| == 0 then DefaultName
    else
      var cleaned := ReplaceAll(MatcherOf(Disallowed), name, "_");
      var collapsed := ReplaceAll(MatcherOf(SpaceRun), cleaned, " ");
      var stripped := Strip(collapsed);
      if |stripped| == 0 then DefaultName else stripped
  }

  /** Reference reading: the mapped name's words joined by single spaces,
      `" ".join(mapped.split())`, or the default when there are no words. */
  function NormalisedName(name: string): string {
    var ws := Words(MapChars(name));
    if |ws| == 0 then DefaultName else JoinWords(ws)
  }

  // ---------------------------------------------------------------------------
  // Step 1: the substitution of disallowed characters.

  lemma {:induction false} ReplaceDisallowedFrom(name: string, pos: nat, fill: char)
    requires pos <= |name|
    ensures ReplaceFrom(MatcherOf(Disallowed), name, pos, [fill]) == MapWith(name, fill)[pos..]
    decreases |name| - pos
  {
    var m := MatcherOf(Disallowed);
    if pos < |name| {
      DisallowedStep(name, pos, fill);
      ReplaceDisallowedFrom(name, pos + 1, fill);
      assert MapWith(name, fill)[pos..] == [MapWith(name, fill)[pos]] + MapWith(name, fill)[pos + 1..];
    } else {
      ReplaceFromAtEnd(m, name, [fill]);
    }
  }

  /** One character of the substitution: kept when allowed, else `fill`. */
  lemma DisallowedStep(name: string, pos: nat, fill: char)
    requires pos < |name|
    ensures ReplaceFrom(MatcherOf(Disallowed), name, pos, [fill])
      == [MapWith(name, fill)[pos]] + ReplaceFrom(MatcherOf(Disallowed), name, pos + 1, [fill])
  {
    var m := MatcherOf(Disallowed);
    assert m(name, pos) == MatchLen(Disallowed, name, pos);
    if IsNameChar(name[pos]) {
      ReplaceFromAtMiss(m, name, pos, [fill]);
    } else {
      ReplaceFromAtMatch(m, name, pos, [fill]);
    }
  }

  /** `re.sub(r'[^a-zA-Z0-9 \-\(\)\[\]]', '_', name)` is a per-character map:
      same length, and each position keeps an allowed character or becomes `_`. */
  lemma ReplaceDisallowedIsMap(name: string)
    ensures ReplaceAll(MatcherOf(Disallowed), name, "_") == MapChars(name)
    ensures |MapChars(name)| == |name|
    ensures forall i | 0 <= i < |name| :: MapChars(name)[i] == (if IsNameChar(name[i]) then name[i] else '_')
  {
    ReplaceDisallowedFrom(name, 0, '_');
  }

  // ---------------------------------------------------------------------------
  // Step 2: the collapse of space runs.

  /** What the collapse produces from `pos` on: no double space, the same words,
      empty only at the end, starting and ending with a space exactly when
      `t[pos..]` does, and holding a space exactly when `t[pos..]` does. With the
      words fixed and no double space, the two ends pin the result down. */
  predicate CollapsedFrom(t: string, pos: nat, c: string)
    requires pos <= |t|
  {
    && NoDoubleSpace(c)
    && Words(c) == Words(t[pos..])
    && (|c| == 0 <==> pos == |t|)
    && (pos < |t| ==> (c[0] == ' ' <==> t[pos] == ' '))
    && (pos < |t| ==> (c[|c| - 1] == ' ' <==> t[|t| - 1] == ' '))
    && (' ' in c <==> ' ' in t[pos..])
  }

  lemma {:induction false} CollapseFrom(t: string, pos: nat)
    requires pos <= |t|
    ensures CollapsedFrom(t, pos, ReplaceFrom(MatcherOf(SpaceRun), t, pos, " "))
    decreases |t| - pos, 1
  {
    var m := MatcherOf(SpaceRun);
    if pos == |t| {
      ReplaceFromAtEnd(m, t, " ");
    } else if m(t, pos) > 0 {
      CollapseFromAtRun(t, pos);
    } else {
      CollapseFromAtOther(t, pos);
    }
  }

  /** A run of two or more spaces becomes one space. */
  lemma {:induction false} CollapseFromAtRun(t: string, pos: nat)
    requires pos < |t| && MatcherOf(SpaceRun)(t, pos) > 0
    ensures CollapsedFrom(t, pos, ReplaceFrom(MatcherOf(SpaceRun), t, pos, " "))
    decreases |t| - pos, 0
  {
    var m := MatcherOf(SpaceRun);
    var n := m(t, pos);
    SpaceRunFacts(t, pos);
    ReplaceFromAtMatch(m, t, pos, " ");
    CollapseFrom(t, pos + n);
    CollapseRunStep(t, pos, n, ReplaceFrom(m, t, pos + n, " "), ReplaceFrom(m, t, pos, " "));
  }

  /** A space-run match covers spaces only and stops before the next space. */
  lemma SpaceRunFacts(t: string, pos: nat)
    requires pos < |t| && MatcherOf(SpaceRun)(t, pos) > 0
    ensures var n := MatcherOf(SpaceRun)(t, pos);
      pos + n <= |t| && AllIn(t, pos, pos + n, Space) && (pos + n == |t| || t[pos + n] != ' ')
  {
    assert MatcherOf(SpaceRun)(t, pos) == MatchLen(SpaceRun, t, pos);
  }

  /** One space followed by the collapse of what comes after a space run is the
      collapse from the start of the run. */
  lemma CollapseRunStep(t: string, pos: nat, n: nat, rest: string, c: string)
    requires 0 < n && pos + n <= |t| && AllIn(t, pos, pos + n, Space)
    requires pos + n == |t| || t[pos + n] != ' '
    requires CollapsedFrom(t, pos + n, rest) && c == " " + rest
    ensures CollapsedFrom(t, pos, c)
  {
    assert Words(c) == Words(rest) by {
      assert c[1..] == rest;
    }
    assert Words(t[pos..]) == Words(t[pos + n..]) by {
      WordsSkipSpaces(t, pos, pos + n);
    }
    assert t[pos..][0] == ' ';
    if pos + n == |t| {
      assert t[|t| - 1] == ' ';
    } else {
      assert c[|c| - 1] == rest[|rest| - 1];
    }
  }

  /** Any other character is copied. */
  lemma {:induction false} CollapseFromAtOther(t: string, pos: nat)
    requires pos < |t| && MatcherOf(SpaceRun)(t, pos) == 0
    ensures CollapsedFrom(t, pos, ReplaceFrom(MatcherOf(SpaceRun), t, pos, " "))
    decreases |t| - pos, 0
  {
    var m := MatcherOf(SpaceRun);
    var rest := ReplaceFrom(m, t, pos + 1, " ");
    assert ReplaceFrom(m, t, pos, " ") == [t[pos]] + rest by {
      ReplaceFromStep(m, t, pos, " ");
    }
    assert t[pos] == ' ' ==> pos + 1 == |t| || t[pos + 1] != ' ' by {
      if t[pos] == ' ' {
        assert RunLength(t, pos, Space) < 2;
      }
    }
    assert CollapsedFrom(t, pos + 1, rest) by {
      CollapseFrom(t, pos + 1);
    }
    CollapseOtherStep(t, pos, rest, [t[pos]] + rest);
  }

  /** A character that starts no space run, followed by the collapse of what
      comes after it, is the collapse from that character. */
  lemma CollapseOtherStep(t: string, pos: nat, rest: string, c: string)
    requires pos < |t| && (t[pos] == ' ' ==> pos + 1 == |t| || t[pos + 1] != ' ')
    requires CollapsedFrom(t, pos + 1, rest) && c == [t[pos]] + rest
    ensures CollapsedFrom(t, pos, c)
  {
    assert t[pos..] == [t[pos]] + t[pos + 1..];
    if pos + 1 < |t| {
      assert t[pos + 1..][0] == t[pos + 1];
      assert c[|c| - 1] == rest[|rest| - 1];
    }
    WordsCons(t[pos], rest, t[pos + 1..]);
  }

  /** `re.sub(r' {2,}', ' ', t)` keeps the words, leaves no double space, keeps
      a leading and a trailing space exactly when the text had one, does not
      lengthen the text and brings in no character the text did not hold. */
  lemma CollapseFacts(t: string)
    ensures var c := ReplaceAll(MatcherOf(SpaceRun), t, " ");
      && NoDoubleSpace(c)
      && Words(c) == Words(t)
      && (|c| == 0 <==> |t| == 0)
      && (|t| > 0 ==> (c[0] == ' ' <==> t[0] == ' ') && (c[|c| - 1] == ' ' <==> t[|t| - 1] == ' '))
      && |c| <= |t|
      && forall ch | ch in c :: ch in t
  {
    var m := MatcherOf(SpaceRun);
    CollapseFrom(t, 0);
    assert t[0..] == t;
    ReplaceFromShrinks(m, t, 0, " ");
    ReplaceFromChars(m, t, 0, " ");
  }

  // ---------------------------------------------------------------------------
  // The pipeline.

  lemma CleanOnlySpaces(t: string)
    requires Clean(t)
    ensures OnlySpaces(t)
  {
  }

  /** What the intermediate results of the source's steps satisfy. */
  lemma SanitizeSteps(name: string)
    requires |name| > 0
    ensures var s := Strip(ReplaceAll(MatcherOf(SpaceRun), ReplaceAll(MatcherOf(Disallowed), name, "_"), " "));
      && Clean(s) && NoDoubleSpace(s) && NoEdgeSpace(s)
      && |s| <= |name|
      && Words(s) == Words(MapChars(name))
  {
    var cleaned := ReplaceAll(MatcherOf(Disallowed), name, "_");
    ReplaceDisallowedIsMap(name);
    assert Clean(cleaned);
    var collapsed := ReplaceAll(MatcherOf(SpaceRun), cleaned, " ");
    CollapseFacts(cleaned);
    assert Clean(collapsed) by {
      forall i | 0 <= i < |collapsed|
        ensures IsCleanChar(collapsed[i])
      {
        assert collapsed[i] in collapsed;
      }
    }
    CleanOnlySpaces(collapsed);
    StripWords(collapsed);
    StripShrinks(collapsed);
    var s := Strip(collapsed);
    forall i | 0 <= i < |s|
      ensures IsCleanChar(s[i])
    {
      assert s[i] in s;
    }
  }

  /** The source's steps compute the reference reading: the allowed-or-`_`
      characters, split into words at spaces and joined back with single spaces,
      or "document.pdf" when no word is left (the empty name included). */
  lemma SanitizeIsNormalised(name: string)
    ensures Sanitize(name) == NormalisedName(name)
  {
    if |name| > 0 {
      SanitizeSteps(name);
      var s := Strip(ReplaceAll(MatcherOf(SpaceRun), ReplaceAll(MatcherOf(Disallowed), name, "_"), " "));
      if |s| > 0 {
        JoinWordsOfWords(s);
      }
    }
  }

  lemma CleanConcat(a: string, b: string)
    requires Clean(a) && Clean(b)
    ensures Clean(a + b)
  {
    forall i | 0 <= i < |a + b|
      ensures IsCleanChar((a + b)[i])
    {
      if i >= |a| {
        assert (a + b)[i] == b[i - |a|];
      }
    }
  }

  lemma {:induction false} JoinWordsClean(ws: seq<string>)
    requires forall k | 0 <= k < |ws| :: Clean(ws[k])
    ensures Clean(JoinWords(ws))
    decreases |ws|
  {
    if |ws| > 1 {
      JoinWordsClean(ws[1..]);
      assert Clean(ws[0]) && Clean(" ");
      CleanConcat(ws[0], " ");
      CleanConcat(ws[0] + " ", JoinWords(ws[1..]));
    } else if |ws| == 1 {
      assert JoinWords(ws) == ws[0];
    }
  }

  lemma {:induction false} WordsClean(t: string)
    requires Clean(t)
    ensures forall k | 0 <= k < |Words(t)| :: Clean(Words(t)[k])
    decreases |t|
  {
    if |t| > 0 {
      WordsClean(t[1..]);
    }
  }

  // ---------------------------------------------------------------------------
  // The properties the callers rely on.

  /** "document.pdf" holds a `.`, which no sanitized name can. */
  lemma DefaultNotClean()
    ensures !Clean(DefaultName)
  {
    assert !IsCleanChar(DefaultName[8]);
  }

  /** The reference reading gives the default exactly when the mapped name has no word. */
  lemma NormalisedDefaultIff(name: string)
    ensures NormalisedName(name) == DefaultName <==> Words(MapChars(name)) == []
  {
    var mapped := MapChars(name);
    if |Words(mapped)| > 0 {
      assert Clean(mapped) by {
        ReplaceDisallowedIsMap(name);
      }
      WordsClean(mapped);
      JoinWordsClean(Words(mapped));
      DefaultNotClean();
    }
  }

  /** The default comes back exactly when the name is empty or all spaces. */
  lemma SanitizeDefaultIff(name: string)
    ensures Sanitize(name) == DefaultName <==> forall i | 0 <= i < |name| :: name[i] == ' '
  {
    SanitizeIsNormalised(name);
    NormalisedDefaultIff(name);
    var mapped := MapChars(name);
    WordsEmptyIff(mapped);
    assert (forall i | 0 <= i < |mapped| :: mapped[i] == ' ') <==> (forall i | 0 <= i < |name| :: name[i] == ' ') by {
      ReplaceDisallowedIsMap(name);
    }
  }

  /** Any other result is made of allowed characters and `_` only, has no two
      spaces in a row and no space at either end, is non-empty and is no longer
      than the name it came from. */
  lemma SanitizeShape(name: string)
    requires exists i | 0 <= i < |name| :: name[i] != ' '
    ensures var r := Sanitize(name);
      && r != DefaultName
      && Clean(r) && NoDoubleSpace(r)
      && 0 < |r| && r[0] != ' ' && r[|r| - 1] != ' '
      && |r| <= |name|
  {
    assert Sanitize(name) != DefaultName by {
      SanitizeDefaultIff(name);
    }
    SanitizeSteps(name);
  }

  /** Sanitizing a sanitized name changes nothing, unless it was the default. */
  lemma SanitizeIdempotent(name: string)
    requires exists i | 0 <= i < |name| :: name[i] != ' '
    ensures Sanitize(Sanitize(name)) == Sanitize(name)
  {
    var r := Sanitize(name);
    SanitizeShape(name);
    SanitizeIsNormalised(r);
    assert MapChars(r) == r;
    JoinWordsOfWords(r);
    WordsEmptyIff(r);
  }

  /** A name without spaces comes out as its mapped characters, as one word. */
  lemma NormalisedOfWord(name: string)
    requires |name| > 0 && forall i | 0 <= i < |name| :: name[i] != ' '
    ensures NormalisedName(name) == MapChars(name)
  {
    var w := MapChars(name);
    ReplaceDisallowedIsMap(name);
    assert ' ' !in w;
    WordsOfWord(w);
  }

  lemma MapDefaultName()
    ensures MapChars(DefaultName) == "document_pdf"
  {
    assert !IsNameChar('.');
  }

  /** The default itself is not a fixed point: its `.` is not an allowed character. */
  lemma SanitizeDefaultName()
    ensures Sanitize(DefaultName) == "document_pdf"
  {
    assert NormalisedName(DefaultName) == "document_pdf" by {
      MapDefaultName();
      NormalisedOfWord(DefaultName);
    }
    SanitizeIsNormalised(DefaultName);
  }

  // ---------------------------------------------------------------------------
  // The documented requirement, which the source's constants break, and the
  // steps with those constants corrected.

  /** Every character is an allowed one. */
  predicate NameChars(t: string) {
    forall i | 0 <= i < |t| :: IsNameChar(t[i])
  }

  /** A name of allowed characters only, non-empty, with no two spaces in a row:
      what `sanitize_filename` documents its result to be. */
  predicate Accepted(t: string) {
    0 < |t| && NameChars(t) && NoDoubleSpace(t)
  }

  /** As written, the result can break the requirement: the default an empty
      name gets holds a `.`, which is not allowed, and "document.pdf" itself
      comes back as "document_pdf", whose `_` is not allowed either. */
  lemma SanitizeNotAccepted()
    ensures Sanitize("") == DefaultName && !Accepted(DefaultName)
    ensures Sanitize(DefaultName) == "document_pdf" && !Accepted("document_pdf")
  {
    assert !Accepted(DefaultName) by {
      assert !IsNameChar(DefaultName[8]);
    }
    assert !Accepted("document_pdf") by {
      assert !IsNameChar("document_pdf"[8]);
    }
    SanitizeDefaultName();
  }

  const AcceptedDefaultName: string := "document"

  /** The source's steps with its two constants corrected: a disallowed character
      becomes `-`, and the fallback name is "document". */
  function SanitizeAccepted(name: string): string {
    if |name| == 0 then AcceptedDefaultName
    else
      var cleaned := ReplaceAll(MatcherOf(Disallowed), name, "-");
      var collapsed := ReplaceAll(MatcherOf(SpaceRun), cleaned, " ");
      var stripped := Strip(collapsed);
      if |stripped| == 0 then AcceptedDefaultName else stripped
  }

  /** The corrected steps always meet the requirement, with no space at either end. */
  lemma SanitizeAcceptedShape(name: string)
    ensures Accepted(SanitizeAccepted(name)) && NoEdgeSpace(SanitizeAccepted(name))
  {
    DefaultAccepted();
    if |name| > 0 {
      SanitizeAcceptedSteps(name);
    }
  }

  lemma DefaultAccepted()
    ensures Accepted(AcceptedDefaultName) && NoEdgeSpace(AcceptedDefaultName)
  {
    assert NameChars(AcceptedDefaultName);
  }

  lemma SanitizeAcceptedSteps(name: string)
    requires |name| > 0
    ensures var r := SanitizeAccepted(name);
      r == AcceptedDefaultName || (NameChars(r) && NoDoubleSpace(r) && NoEdgeSpace(r))
  {
    var collapsed := ReplaceAll(MatcherOf(SpaceRun), ReplaceAll(MatcherOf(Disallowed), name, "-"), " ");
    CollapsedNameChars(name);
    StripNameChars(collapsed);
  }

  /** Filling with `-` and collapsing leaves allowed characters only, no double space. */
  lemma CollapsedNameChars(name: string)
    ensures var c := ReplaceAll(MatcherOf(SpaceRun), ReplaceAll(MatcherOf(Disallowed), name, "-"), " ");
      NameChars(c) && NoDoubleSpace(c)
  {
    var cleaned := ReplaceAll(MatcherOf(Disallowed), name, "-");
    assert cleaned == MapWith(name, '-') by {
      ReplaceDisallowedFrom(name, 0, '-');
    }
    var collapsed := ReplaceAll(MatcherOf(SpaceRun), cleaned, " ");
    CollapseFacts(cleaned);
    forall i | 0 <= i < |collapsed|
      ensures IsNameChar(collapsed[i])
    {
      assert collapsed[i] in collapsed;
    }
  }

  /** Stripping keeps allowed characters only and no double space, and leaves no
      space at either end. */
  lemma StripNameChars(t: string)
    requires NameChars(t) && NoDoubleSpace(t)
    ensures NameChars(Strip(t)) && NoDoubleSpace(Strip(t)) && NoEdgeSpace(Strip(t))
  {
    assert Clean(t);
    CleanOnlySpaces(t);
    StripWords(t);
    StripShrinks(t);
    var s := Strip(t);
    forall i | 0 <= i < |s|
      ensures IsNameChar(s[i])
    {
      assert s[i] in s;
    }
  }

  /** Where the source already keeps its promise, on a name of allowed characters
      that is not all spaces, the corrected steps give the same result. */
  lemma SanitizeAcceptedAgrees(name: string)
    requires NameChars(name)
    requires exists i | 0 <= i < |name| :: name[i] != ' '
    ensures SanitizeAccepted(name) == Sanitize(name)
  {
    assert ReplaceAll(MatcherOf(Disallowed), name, "-") == name by {
      ReplaceDisallowedFrom(name, 0, '-');
    }
    assert ReplaceAll(MatcherOf(Disallowed), name, "_") == name by {
      ReplaceDisallowedFrom(name, 0, '_');
    }
    SanitizeDefaultIff(name);
  }
}

# Document-summary library: file-name sanitizing and PII guardrails

This project is a Dafny model of the two pieces of local logic in the document
summarization library `doc_summary_lib.py`.

- `sanitize_filename` turns an uploaded file's name into one meant to meet the
  model API's naming rules (letters, digits, space, `-`, parentheses and square
  brackets, no run of spaces). The `_` filler and the `"document.pdf"` fallback
  break those rules; see "## Findings". It works in four steps:
  1. every character outside `[a-zA-Z0-9 \-()\[\]]` becomes `_`;
  2. each run of two or more spaces becomes one space;
  3. the ends are stripped;
  4. `"document.pdf"` is used when the name is empty or nothing is left.
- `apply_guardrails` redacts personal data from a text. It runs three
  (pattern, placeholder) rules in a fixed order:
  - social security numbers become `[SSN_REDACTED]`;
  - 16-digit card numbers become `[CARD_REDACTED]`;
  - e-mail addresses become `[EMAIL_REDACTED]`.

  Each rule collects its matches with `re.findall` and then replaces them with
  `re.sub`, working on the text the previous rule left behind. The result holds
  the filtered text, the list of redacted strings and an action, `FILTERED`
  or `ALLOWED`.

## Modules

- `Chars` (chars.dfy) holds the character classes of the five regular
  expressions, over ASCII. It also has the `\b` word-boundary test and the
  whitespace set of Python's `str.isspace`. `RunLength` is the greedy run of a
  class.
- `Scanner` (scanner.dfy) is a generic leftmost, non-overlapping scan over a
  matcher, i.e. a function giving the length of the match at a position.
  - `FindAll` models `re.findall` and `ReplaceAll` models `re.sub`. Both are
    derived from one span list.
  - `IsScan` describes declaratively what such a scan must return.
  - The scan computed is the only list that satisfies `IsScan`.
- `Patterns` (patterns.dfy) gives the five regular expressions as matchers.
  - SSN and card are fixed-width, bounded by `\b`.
  - The e-mail matcher follows the order in which Python's backtracking engine
    tries alternatives: every greedy part gives back one character at a time.
    It is proved sound and complete against a declarative description,
    `EmailForm`, and to return the longest match.
  - The e-mail pattern's top-level class `[A-Z|a-z]` admits a literal `|`.
    This is modelled as written.
- `Whitespace` (whitespace.dfy) has `str.strip()`, the words of a text (its
  maximal pieces without a space) and the joining of words with single spaces.
  Joining the words agrees with `" ".join(s.split())` only on a text whose one
  whitespace character is the plain space. After the first step of
  `sanitize_filename` every name is such a text, since a tab or any other
  whitespace has become `_`.
- `Filename` (filename.dfy) has `Sanitize` and its properties. It also has a
  reference reading, `NormalisedName`: the words of the per-character map,
  joined by single spaces. It ends with the documented requirement on the
  result, `Accepted`, and a corrected version of the steps (see Findings).
- `Guardrails` (guardrails.dfy) has `ApplyGuardrails`. The loop over the rules
  is `ApplyRules`, and `ApplyRule` keeps the source's `if matches:` guard.
- `Rerun` (rerun.dfy) proves that the filtered text passes the guardrails
  untouched. Every match is bounded by `\b`, and every placeholder is
  `[`...`]` with no digit and no `@`. So a match in the output of `re.sub` lies
  inside a stretch copied from its input, and it would have been a match
  there.

## Model

| member | source | states |
|---|---|---|
| `Filename.Sanitize` | doc_summary_lib.py:28-57 | The name handed to the API is never empty. Its exact value is given by `Filename.SanitizeIsNormalised`. |
| `Filename.ReplaceDisallowedIsMap` | doc_summary_lib.py:43-45 | The first substitution is a per-character map. It keeps the length, and each position keeps an allowed character or becomes `_`. |
| `Filename.CollapseFacts` | doc_summary_lib.py:47-48 | Collapsing space runs leaves no two spaces in a row and keeps the words. The result is empty only for the empty text. It starts and ends with a space exactly when the text does. It is never longer than the text and brings in no character the text lacks. |
| `Filename.SanitizeSteps` | doc_summary_lib.py:43-51 | After substitution, collapse and strip, the text holds only allowed characters and `_`. It has no double space and no edge space, is no longer than the name, and has the same words as the mapped name. |
| `Filename.SanitizeIsNormalised` | doc_summary_lib.py:28-57 | The sanitized name equals the words of the mapped name joined by single spaces. When there is no word, including for the empty name, it is "document.pdf". |
| `Filename.SanitizeDefaultIff` | doc_summary_lib.py:40-55 | The result is "document.pdf" exactly when the name is empty or all spaces. |
| `Filename.SanitizeShape` | doc_summary_lib.py:45-57 | When the name has a character other than a space, the result is not the default. It has only allowed characters and `_`, and no two consecutive spaces. It does not start or end with a space, is non-empty, and is no longer than the name. |
| `Filename.SanitizeIdempotent` | doc_summary_lib.py:28-57 | When the name has a character other than a space, sanitizing the result again returns it unchanged. |
| `Filename.SanitizeDefaultName` | doc_summary_lib.py:41-45 | "document.pdf" is not a fixed point: sanitizing it gives "document_pdf". |
| `Filename.SanitizeNotAccepted` | doc_summary_lib.py:30-55 | The code's own results break the documented requirement. The empty name gives "document.pdf", which holds a `.`. "document.pdf" gives "document_pdf", which holds a `_`. |
| `Filename.SanitizeAcceptedShape` | doc_summary_lib.py:30-32 | With `-` as the filler and "document" as the fallback, every result meets the requirement: non-empty, allowed characters only, no two spaces in a row, no space at either end. |
| `Filename.SanitizeAcceptedAgrees` | doc_summary_lib.py:43-57 | On a name of allowed characters that is not all spaces, the corrected steps return what the source returns. |
| `Whitespace.Strip` | doc_summary_lib.py:51 | What is left neither starts nor ends with whitespace and is no longer than the text; `Whitespace.StripIsSlice` says which text it is. |
| `Whitespace.StripIsSlice` | doc_summary_lib.py:51 | `str.strip()` cuts off exactly the leading and trailing whitespace: the result is a slice t[i..j] with only whitespace before i and after j, and with `Strip`'s own clause it starts and ends with a non-whitespace character, which leaves exactly one possible result. |
| `Whitespace.StripWords` | doc_summary_lib.py:50-51 | Where spaces are the only whitespace, stripping keeps the words and leaves no space at either end. |
| `Scanner.FindAll` | doc_summary_lib.py:80 | `re.findall`. It has no contract of its own; its meaning is stated by `Scanner.ScanSpec` and `Scanner.FindFromMatched`. |
| `Scanner.ReplaceAll` | doc_summary_lib.py:83 | `re.sub` with a literal replacement. It has no contract of its own; its meaning is stated by `Scanner.ScanSpec` and `Scanner.FindAllEmptyIff`. |
| `Scanner.ScanFromIsScan` | doc_summary_lib.py:80-83 | The scan returns ordered, non-overlapping matches of the exact length the matcher reports. Every position where a match could start lies inside one of them. |
| `Scanner.ScanUnique` | doc_summary_lib.py:80-83 | Only one span list is a leftmost non-overlapping scan. |
| `Scanner.ScanSpec` | doc_summary_lib.py:80-83 | For the unique scan, find-all gives the matched texts in order. Replace-all puts the placeholder in place of every one of them and keeps the unmatched stretches. |
| `Scanner.Reconstruct` | doc_summary_lib.py:80-83 | The unmatched stretches interleaved with the matched texts give back the text. |
| `Scanner.FindFromMatched` | doc_summary_lib.py:80 | Every string find-all returns is the text of a match in the text searched. |
| `Scanner.FindAllEmptyIff` | doc_summary_lib.py:80-83 | Find-all is empty exactly when nothing matches. Then replace-all leaves the text unchanged. |
| `Patterns.MatchLen` | doc_summary_lib.py:45-73 | A match of any of the five patterns never runs past the end of the text. What each accepts: `Disallowed` is one character outside the name class (`Filename.ReplaceDisallowedIsMap`); `SpaceRun` is the greedy run of two or more spaces (the contract of `Chars.RunLength`); `Ssn` and `Card` are `SsnAt` and `CardAt`; `Email` is `EmailForm`, by `Patterns.EmailMatchIff`. |
| `Patterns.EmailLen` | doc_summary_lib.py:73 | A reported e-mail match fits in the text and is at least five characters long. `Patterns.EmailLongest` shows it is the longest match at its position. |
| `Patterns.EmailLenSound` | doc_summary_lib.py:73 | A reported e-mail match covers a local part, `@`, a domain part, `.` and a top-level part of two or more characters, between word boundaries. |
| `Patterns.EmailMatchIff` | doc_summary_lib.py:73 | The backtracking e-mail matcher finds a match at a position exactly when the pattern's language has a match starting there. |
| `Patterns.EmailMatcherSound` | doc_summary_lib.py:73 | Wherever the e-mail matcher reports a match in a text, the reported stretch is a local part, `@`, a domain, `.` and a top-level part of two or more characters, between word boundaries. |
| `Patterns.EmailComplete` | doc_summary_lib.py:73 | If any local part, `@`, domain, `.` and top-level part fit at a position, the matcher reports a match there, reaching at least as far. |
| `Patterns.EmailLongest` | doc_summary_lib.py:73 | The matcher's end is an end of the pattern, and no end of the pattern at that position lies beyond it: the first success of the backtracking order is the longest match. |
| `Patterns.TopLevelAcceptsBar` | doc_summary_lib.py:73 | The top-level class admits `|`, so "a@b.c\|d" is an e-mail match. |
| `Guardrails.ApplyRule` | doc_summary_lib.py:79-83 | A rule's turn either leaves the text and redactions as they are or records at least one more redaction, keeping the earlier ones in front. |
| `Guardrails.ApplyRules` | doc_summary_lib.py:79-83 | Over the loop, redactions only accumulate. When the loop records nothing, the text is unchanged. |
| `Guardrails.ApplyGuardrails` | doc_summary_lib.py:76-89 | When the action is ALLOWED, the text comes back exactly as given, with no redactions. The action is FILTERED exactly when something was redacted. |
| `Guardrails.ApplyRuleUnguarded` | doc_summary_lib.py:79-83 | The `if matches:` guard changes nothing. A rule's turn is "replace every match, append every match". |
| `Guardrails.GuardrailsPipeline` | doc_summary_lib.py:70-83 | The rules apply in the order SSN, card, e-mail, each to the previous rule's output. The redactions are the SSN matches of the text, then the card matches of the SSN-redacted text, then the e-mail matches of the text with both redacted. |
| `Guardrails.GuardrailsAllowedIff` | doc_summary_lib.py:76-89 | The action is ALLOWED, labelled "ALLOWED", exactly when no SSN, card or e-mail pattern matches anywhere in the input. In that case the text comes back unchanged with no redactions. |
| `Guardrails.FindAllShaped` | doc_summary_lib.py:71-80 | Every string a rule collects has its pattern's shape. An SSN is 3 digits, `-`, 2 digits, `-`, 4 digits. A card number is 16 digits. An e-mail address is a local part, `@`, a domain part, `.` and a top-level part of two or more characters. |
| `Guardrails.GuardrailsRedactionShapes` | doc_summary_lib.py:70-83 | Every redaction has the full shape of an SSN, a 16-digit card number or an e-mail address. |
| `Guardrails.DigitsCard` | doc_summary_lib.py:72 | In a text made only of digits, the card pattern matches exactly when the text has 16 digits. |
| `Guardrails.DigitRunCard` | doc_summary_lib.py:72 | Anywhere in a text, a card match that overlaps a maximal run of digits is the whole run. So a run of any length but 16 holds no card number, and a run of 16 between non-word characters is one. |
| `Guardrails.GuardrailsDigits` | doc_summary_lib.py:70-89 | A digits-only text is filtered exactly when it has 16 digits. Any other length, such as a 17-digit run, comes back unchanged and ALLOWED. |
| `Rerun.RedactableDelimited` | doc_summary_lib.py:71-73 | Every SSN, card and e-mail match starts and ends at a word boundary. |
| `Rerun.GapWindow` | doc_summary_lib.py:83 | A stretch of `re.sub`'s output that has no bracket but has a digit or `@` is a copy of a stretch of its input at whose first position no match starts. A word boundary at either end of it in the output is one in the input. |
| `Rerun.MatchBack` | doc_summary_lib.py:71-83 | Wherever an SSN, card or e-mail pattern matches the output of a replacement by a bracketed placeholder, it matches the input at a position where the replaced pattern found nothing. |
| `Rerun.RedactClears` | doc_summary_lib.py:80-83 | After a rule replaces its matches, its pattern matches nowhere in the result. |
| `Rerun.RedactKeepsClear` | doc_summary_lib.py:80-83 | A rule's replacement creates no SSN, card or e-mail match where there was none. |
| `Rerun.GuardrailsRerun` | doc_summary_lib.py:70-89 | The filtered text holds no SSN, card or e-mail match. Applying the guardrails to it again returns it unchanged, with no redactions and ALLOWED. |

## Left out

- The Bedrock client setup, the import-time check and the summarization functions (doc_summary_lib.py:12-22, 92-383): these are remote calls.
- doc_summary_app.py (the Streamlit interface) and test_document.py (network smoke tests) are not part of this model.
- Python's `\d`, `\w` and `\b` on `str` patterns cover all Unicode digits and word characters. The model takes them over ASCII only.
- A non-string argument such as `None` to `sanitize_filename` is not modelled. The model takes a string; the empty string is the case `if not filename:` catches.
- The dictionary returned by `apply_guardrails` is a datatype here. `ActionLabel` gives the two label strings.

## Findings

| source | as written | input that shows it | evidently intended | confidence | as-written member | corrected member |
|---|---|---|---|---|---|---|
| doc_summary_lib.py:30-55 | The docstring promises a name of letters, digits, whitespace, hyphens, parentheses and square brackets only. Line 45 puts `_` in place of every other character, and lines 41 and 55 fall back to "document.pdf", which holds a `.`. | `""` gives "document.pdf"; "document.pdf" gives "document_pdf" | Every result holds only the documented characters | medium, not executed | `Filename.SanitizeNotAccepted` | `Filename.SanitizeAcceptedShape` |

The corrected definition is `Filename.SanitizeAccepted`. It fills with `-` and falls back to "document", and those two constants are one choice among several that meet the requirement. `Filename.SanitizeAcceptedAgrees` shows it returns the same as the source wherever the source already keeps its promise. All the other `Filename` lemmas describe the code as written.

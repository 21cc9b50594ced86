/** Spaces in text: Python's `str.strip()`, and splitting a text into its
    space-separated words and joining them back with single spaces. */
module Whitespace {
  import opened Chars

  /** No two spaces in a row. */
  predicate NoDoubleSpace(t: string) {
    forall i | 0 <= i < |t| - 1 :: t[i] != ' ' || t[i + 1] != ' '
  }

  /** Neither the first nor the last character is a space. */
  predicate NoEdgeSpace(t: string) {
    |t| == 0 || (t[0] != ' ' && t[|t| - 1] != ' ')
  }

  /** Every whitespace character in `t` is a plain space. */
  predicate OnlySpaces(t: string) {
    forall i | 0 <= i < |t| :: t[i] == ' ' || !IsWhitespace(t[i])
  }

  /** Drop leading whitespace. */
  function TrimStart(t: string): (r: string)
    ensures |r| <= |t| && r == t[|t| - |r|..]
    ensures forall k | 0 <= k < |t| - |r| :: IsWhitespace(t[k])
    ensures |r| == 0 || !IsWhitespace(r[0])
    decreases |t|
  {
    if |t| > 0 && IsWhitespace(t[0]) then TrimStart(t[1..]) else t
  }

  /** Drop trailing whitespace. */
  function TrimEnd(t: string): (r: string)
    ensures |r| <= |t| && r == t[..|r|]
    ensures forall k | |r| <= k < |t| :: IsWhitespace(t[k])
    ensures |r| == 0 || !IsWhitespace(r[|r| - 1])
    decreases |t|
  {
    if |t| > 0 && IsWhitespace(t[|t| - 1]) then TrimEnd(t[..|t| - 1]) else t
  }

  /** `str.strip()` with no argument: what is left neither starts nor ends with
      whitespace. */
  function Strip(t: string): (r: string)
    ensures |r| <= |t|
    ensures |r| == 0 || (!IsWhitespace(r[0]) && !IsWhitespace(r[|r| - 1]))
  {
    TrimEnd(TrimStart(t))
  }

  /** The maximal space-free pieces of `t`, left to right (`t.split(' ')` without
      the empty pieces). */
  function Words(t: string): (ws: seq<string>)
    ensures forall k | 0 <= k < |ws| :: |ws[k]| > 0 && ' ' !in ws[k]
    ensures |t| > 0 && t[0] != ' ' ==> |ws| > 0
    decreases |t|
  {
    if |t| == 0 then []
    else
      var rest := Words(t[1..]);
      if t[0] == ' ' then rest
      else if |t| > 1 && t[1] != ' ' then [[t[0]] + rest[0]] + rest[1..]
      else [[t[0]]] + rest
  }

  /** `" ".join(ws)`. */
  function JoinWords(ws: seq<string>): string
    decreases |ws|
  {
    if |ws| == 0 then []
    else if |ws| == 1 then ws[0]
    else ws[0] + " " + JoinWords(ws[1..])
  }

  // ---------------------------------------------------------------------------

  /** Words sees only the words after a character and whether the rest begins with one. */
  lemma WordsCons(c: char, x: string, y: string)
    requires Words(x) == Words(y)
    requires (|x| > 0 && x[0] != ' ') == (|y| > 0 && y[0] != ' ')
    ensures Words([c] + x) == Words([c] + y)
  {
    assert ([c] + x)[1..] == x;
    assert ([c] + y)[1..] == y;
  }

  /** Leading spaces do not change the words. */
  lemma {:induction false} WordsSkipSpaces(t: string, i: nat, j: nat)
    requires AllIn(t, i, j, Space)
    ensures Words(t[i..]) == Words(t[j..])
    decreases j - i
  {
    if i < j {
      assert t[i..][1..] == t[i + 1..];
      WordsSkipSpaces(t, i + 1, j);
    }
  }

  /** A trailing space does not change the words. */
  lemma {:induction false} WordsDropLastSpace(u: string)
    ensures Words(u + " ") == Words(u)
    decreases |u|
  {
    if |u| > 0 {
      WordsDropLastSpace(u[1..]);
      assert u + " " == [u[0]] + (u[1..] + " ");
      assert u == [u[0]] + u[1..];
      WordsCons(u[0], u[1..] + " ", u[1..]);
    } else {
      assert (u + " ")[1..] == [];
    }
  }

  lemma {:induction false} TrimStartWords(t: string)
    requires OnlySpaces(t)
    ensures Words(TrimStart(t)) == Words(t)
    decreases |t|
  {
    if |t| > 0 && IsWhitespace(t[0]) {
      TrimStartWords(t[1..]);
    }
  }

  lemma {:induction false} TrimEndWords(t: string)
    requires OnlySpaces(t)
    ensures Words(TrimEnd(t)) == Words(t)
    decreases |t|
  {
    if |t| > 0 && IsWhitespace(t[|t| - 1]) {
      var u := t[..|t| - 1];
      TrimEndWords(u);
      assert t == u + " ";
      WordsDropLastSpace(u);
    }
  }

  /** What `Strip` returns is the slice of its argument left once the leading
      and the trailing whitespace is cut off: everything before and after it is
      whitespace, and it neither starts nor ends with whitespace itself. */
  lemma StripIsSlice(t: string) returns (i: nat, j: nat)
    ensures i <= j <= |t| && Strip(t) == t[i..j]
    ensures forall k | 0 <= k < i :: IsWhitespace(t[k])
    ensures forall k | j <= k < |t| :: IsWhitespace(t[k])
  {
    var a := TrimStart(t);
    i := |t| - |a|;
    j := i + |TrimEnd(a)|;
    assert a == t[i..];
    assert TrimEnd(a) == a[..j - i];
    forall k | j <= k < |t|
      ensures IsWhitespace(t[k])
    {
      assert t[k] == a[k - i];
    }
  }

  /** Stripping keeps the words and leaves no space at either end. */
  lemma StripWords(t: string)
    requires OnlySpaces(t)
    ensures Words(Strip(t)) == Words(t)
    ensures NoEdgeSpace(Strip(t))
  {
    var a := TrimStart(t);
    assert Words(a) == Words(t) by {
      TrimStartWords(t);
    }
    assert OnlySpaces(a) by {
      forall k | 0 <= k < |a|
        ensures a[k] == ' ' || !IsWhitespace(a[k])
      {
        assert a[k] == t[|t| - |a| + k];
      }
    }
    TrimEndWords(a);
  }

  /** Stripping only removes characters, and creates no double space. */
  lemma StripShrinks(t: string)
    ensures NoDoubleSpace(t) ==> NoDoubleSpace(Strip(t))
    ensures |Strip(t)| <= |t|
    ensures forall c | c in Strip(t) :: c in t
  {
    var i, j := StripIsSlice(t);
    assert forall k | 0 <= k < |Strip(t)| :: Strip(t)[k] == t[i + k];
  }

  /** The words of an empty-of-words text: it is all spaces. */
  lemma {:induction false} WordsEmptyIff(t: string)
    ensures Words(t) == [] <==> forall i | 0 <= i < |t| :: t[i] == ' '
    decreases |t|
  {
    if |t| > 0 {
      WordsEmptyIff(t[1..]);
      if t[0] == ' ' {
        forall i | 0 < i < |t|
          ensures t[i] == t[1..][i - 1]
        {
        }
      }
    }
  }

  /** Joining a word in front of more words. */
  lemma JoinWordsCons(w: string, ws: seq<string>)
    ensures JoinWords([w] + ws) == if |ws| == 0 then w else w + " " + JoinWords(ws)
  {
    assert ([w] + ws)[0] == w && ([w] + ws)[1..] == ws;
  }

  lemma ConsJoinAssoc(c: char, w: string, j: string)
    ensures ([c] + w) + " " + j == [c] + (w + " " + j)
  {
  }

  lemma JoinWordsFirst(c: char, w: string, rest: seq<string>)
    ensures JoinWords([[c] + w] + rest) == [c] + JoinWords([w] + rest)
  {
    JoinWordsCons([c] + w, rest);
    JoinWordsCons(w, rest);
    if |rest| > 0 {
      ConsJoinAssoc(c, w, JoinWords(rest));
    }
  }

  /** A text with single inner spaces and none at the ends is its words joined by spaces. */
  lemma {:induction false} JoinWordsOfWords(u: string)
    requires NoDoubleSpace(u) && NoEdgeSpace(u)
    ensures JoinWords(Words(u)) == u
    decreases |u|
  {
    if |u| > 1 {
      var c := u[0];
      if u[1] != ' ' {
        var v := u[1..];
        JoinWordsOfWords(v);
        var ws := Words(v);
        assert ws == [ws[0]] + ws[1..];
        JoinWordsFirst(c, ws[0], ws[1..]);
        assert u == [c] + v;
      } else {
        var v := u[2..];
        assert u[1..][1..] == v;
        JoinWordsOfWords(v);
        var ws := Words(v);
        assert Words(u) == [[c]] + ws;
        assert ([[c]] + ws)[1..] == ws;
        assert u == [c] + " " + v;
      }
    }
  }

  /** A non-empty space-free text is a single word. */
  lemma {:induction false} WordsOfWord(w: string)
    requires |w| > 0 && ' ' !in w
    ensures Words(w) == [w]
    decreases |w|
  {
    assert w == [w[0]] + w[1..];
    assert w[0] in w;
    if |w| > 1 {
      assert w[1] in w;
      assert forall c | c in w[1..] :: c in w;
      WordsOfWord(w[1..]);
      assert Words(w) == [[w[0]] + Words(w[1..])[0]] + Words(w[1..])[1..];
    } else {
      assert w == [w[0]];
      assert Words(w) == [[w[0]]] + Words(w[1..]);
    }
  }

  /** Joining well-formed words and splitting again gives the words back. */
  lemma {:induction false} WordsOfJoinWords(ws: seq<string>)
    requires forall k | 0 <= k < |ws| :: |ws[k]| > 0 && ' ' !in ws[k]
    ensures Words(JoinWords(ws)) == ws
    decreases |ws|
  {
    if |ws| == 1 {
      WordsOfWord(ws[0]);
    } else if |ws| > 1 {
      var rest := JoinWords(ws[1..]);
      WordsOfJoinWords(ws[1..]);
      WordsPrefixWord(ws[0], " " + rest);
      assert (" " + rest)[1..] == rest;
      assert ws[0] + " " + rest == ws[0] + (" " + rest);
      assert ws == [ws[0]] + ws[1..];
    }
  }

  /** A word followed by a space (or by nothing) comes out as that word first. */
  lemma {:induction false} WordsPrefixWord(w: string, x: string)
    requires |w| > 0 && ' ' !in w
    requires |x| == 0 || x[0] == ' '
    ensures Words(w + x) == [w] + Words(x)
    decreases |w|
  {
    assert w + x == [w[0]] + (w[1..] + x);
    if |w| == 1 {
      assert w == [w[0]];
    } else {
      assert w[1] in w;
      assert forall c | c in w[1..] :: c in w;
      WordsPrefixWord(w[1..], x);
      assert w == [w[0]] + w[1..];
    }
  }
}

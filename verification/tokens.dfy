/** The token type and the two payload normalisers of the lexer:
    label-colon stripping and comment whitespace collapsing. */
module Tokens {
  import opened Ascii

  datatype Option<T> = None | Some(value: T)

  /** The six token kinds. Every payload is the normalised text of the match. */
  datatype Token =
    | Opcode(text: string)
    | Operand(text: string)
    | Comment(text: string)
    | Directive(text: string)
    | Label(text: string)
    | Comma

  /** The Label callback: upper-cases the matched text and drops its last
      character, which for a label match is the colon. */
  function CleanLabel(slice: string): (r: string)
    requires |slice| > 0
    ensures |r| == |slice| - 1
    ensures r + [ToUpper(slice[|slice| - 1])] == Upper(slice)
  {
    Upper(slice)[..|slice| - 1]
  }

  /** A non-empty run of non-whitespace characters. */
  predicate IsWord(w: string) {
    && |w| > 0
    && forall i :: 0 <= i < |w| ==> IsWordChar(w[i])
  }

  predicate AllWords(ws: seq<string>) {
    forall i :: 0 <= i < |ws| ==> IsWord(ws[i])
  }

  /** `split_whitespace`: the maximal runs of non-whitespace characters, in order. */
  function Words(s: string): (ws: seq<string>)
    ensures AllWords(ws)
    decreases |s|
  {
    if |s| == 0 then []
    else if IsWhitespace(s[0]) then Words(s[1..])
    else
      var n := Span(s, IsWordChar);
      [s[..n]] + Words(s[n..])
  }

  /** The number of characters in all the words together. */
  function TotalLen(ws: seq<string>): nat {
    if |ws| == 0 then 0 else |ws[0]| + TotalLen(ws[1..])
  }

  /** `join(" ")`: the words separated by single spaces. The text is the
      words' characters plus one separator between each adjacent pair. */
  function Join(ws: seq<string>): (r: string)
    ensures |ws| > 0 ==> |r| == TotalLen(ws) + |ws| - 1
  {
    if |ws| == 0 then ""
    else if |ws| == 1 then ws[0]
    else ws[0] + (" " + Join(ws[1..]))
  }

  /** Canonical spacing: no leading whitespace, and every whitespace character is
      a single space followed by a non-whitespace character (so there is no trailing
      whitespace and no run of two). */
  predicate WellSpaced(r: string) {
    && (|r| > 0 ==> !IsWhitespace(r[0]))
    && forall i :: 0 <= i < |r| && IsWhitespace(r[i]) ==> r[i] == ' ' && i + 1 < |r| && !IsWhitespace(r[i + 1])
  }

  /** The Comment callback: fails unless the text starts with `;`; otherwise
      drops that `;` and re-joins the whitespace-separated words with single
      spaces. The result is the canonically spaced text with the same words. */
  function CleanComment(slice: string): (r: Option<string>)
    ensures r.Some? <==> |slice| > 0 && slice[0] == ';'
    ensures r.Some? ==> WellSpaced(r.value) && Words(r.value) == Words(slice[1..])
  {
    if |slice| > 0 && slice[0] == ';' then
      var ws := Words(slice[1..]);
      JoinWellSpaced(ws);
      WordsOfJoin(ws);
      Some(Join(ws))
    else None
  }

  lemma JoinStartsWithFirstWord(ws: seq<string>)
    requires |ws| > 0 && IsWord(ws[0])
    ensures |Join(ws)| >= |ws[0]| > 0
    ensures Join(ws)[..|ws[0]|] == ws[0]
  {
  }

  /** Joining words with single spaces yields canonically spaced text. */
  lemma {:induction false} JoinWellSpaced(ws: seq<string>)
    requires AllWords(ws)
    ensures WellSpaced(Join(ws))
  {
    if |ws| >= 2 {
      var rest := Join(ws[1..]);
      JoinWellSpaced(ws[1..]);
      JoinStartsWithFirstWord(ws[1..]);
      assert rest[0] == ws[1][0];
      var w := ws[0];
      var r := w + " " + rest;
      assert Join(ws) == r;
      forall i | 0 <= i < |r| && IsWhitespace(r[i])
        ensures r[i] == ' ' && i + 1 < |r| && !IsWhitespace(r[i + 1])
      {
        if i == |w| {
          assert r[i + 1] == rest[0];
        } else {
          if i > |w| {
            assert r[i] == rest[i - |w| - 1];
          }
          if i + 1 < |r| {
            assert r[i + 1] == rest[i - |w|];
          }
        }
      }
      assert r[0] == w[0];
    }
  }

  /** Splitting skips one leading whitespace character. */
  lemma WordsAfterSpace(c: char, s: string)
    requires IsWhitespace(c)
    ensures Words([c] + s) == Words(s)
  {
    assert ([c] + s)[1..] == s;
  }

  /** Splitting text that starts with a whole word yields that word first. */
  lemma WordsAfterWord(w: string, s: string)
    requires IsWord(w)
    requires |s| == 0 || IsWhitespace(s[0])
    ensures Words(w + s) == [w] + Words(s)
  {
    var t := w + s;
    SpanAfterPrefix(w, s, IsWordChar);
    assert Span(s, IsWordChar) == 0;
    assert t[..|w|] == w;
    assert t[|w|..] == s;
  }

  /** Round trip: splitting joined words gives back the words. */
  lemma {:induction false} WordsOfJoin(ws: seq<string>)
    requires AllWords(ws)
    ensures Words(Join(ws)) == ws
  {
    if |ws| == 0 {
    } else if |ws| == 1 {
      WordsAfterWord(ws[0], "");
      assert ws[0] + "" == ws[0];
    } else {
      var rest := Join(ws[1..]);
      WordsAfterWord(ws[0], " " + rest);
      WordsAfterSpace(' ', rest);
      WordsOfJoin(ws[1..]);
      assert ws == [ws[0]] + ws[1..];
    }
  }

  function MapUpper(ws: seq<string>): (us: seq<string>)
    ensures |us| == |ws|
  {
    seq(|ws|, i requires 0 <= i < |ws| => Upper(ws[i]))
  }

  /** Upper-casing commutes with joining. */
  lemma {:induction false} JoinUpper(ws: seq<string>)
    ensures Upper(Join(ws)) == Join(MapUpper(ws))
  {
    if |ws| >= 2 {
      JoinUpper(ws[1..]);
      assert MapUpper(ws)[1..] == MapUpper(ws[1..]);
      UpperConcat(ws[0] + " ", Join(ws[1..]));
      UpperConcat(ws[0], " ");
    }
  }

  /** Upper-casing commutes with splitting, since it never turns a
      whitespace character into a non-whitespace one or back. */
  lemma {:induction false} WordsUpper(s: string)
    ensures Words(Upper(s)) == MapUpper(Words(s))
    decreases |s|
  {
    if |s| > 0 {
      ToUpperKeepsClasses(s[0]);
      if IsWhitespace(s[0]) {
        var u := Upper(s);
        UpperDrop(s, 1);
        assert u[0] == ToUpper(s[0]);
        WordsUpper(s[1..]);
        calc {
          Words(u);
          Words(u[1..]);
          Words(Upper(s[1..]));
          MapUpper(Words(s[1..]));
          MapUpper(Words(s));
        }
      } else {
        var n := Span(s, IsWordChar);
        WordsUpper(s[n..]);
        WordsUpperWordFirst(s, n);
      }
    }
  }

  lemma WordsUpperWordFirst(s: string, n: nat)
    requires |s| > 0 && !IsWhitespace(s[0]) && n == Span(s, IsWordChar)
    requires Words(Upper(s[n..])) == MapUpper(Words(s[n..]))
    ensures Words(Upper(s)) == MapUpper(Words(s))
  {
    var u := Upper(s);
    assert Span(u, IsWordChar) == n by {
      forall i | 0 <= i < |s|
        ensures IsWordChar(s[i]) == IsWordChar(u[i])
      {
        ToUpperKeepsClasses(s[i]);
      }
      SpanAgree(s, u, IsWordChar);
    }
    assert Words(u) == [u[..n]] + Words(u[n..]) by {
      assert u[0] == ToUpper(s[0]);
      ToUpperKeepsClasses(s[0]);
    }
    UpperTake(s, n);
    UpperDrop(s, n);
    MapUpperCons(s[..n], Words(s[n..]));
    calc {
      Words(u);
      [u[..n]] + Words(u[n..]);
      [Upper(s[..n])] + Words(Upper(s[n..]));
      [Upper(s[..n])] + MapUpper(Words(s[n..]));
      MapUpper([s[..n]] + Words(s[n..]));
      { assert Words(s) == [s[..n]] + Words(s[n..]); }
      MapUpper(Words(s));
    }
  }

  lemma MapUpperCons(w: string, ws: seq<string>)
    ensures MapUpper([w] + ws) == [Upper(w)] + MapUpper(ws)
  {
  }

  /** Comments that differ only in letter case clean to payloads that differ
      only in letter case. */
  lemma CleanCommentCaseInsensitive(a: string, b: string)
    requires Upper(a) == Upper(b)
    ensures CleanComment(a).Some? <==> CleanComment(b).Some?
    ensures CleanComment(a).Some? ==> Upper(CleanComment(a).value) == Upper(CleanComment(b).value)
  {
    UpperAgrees(a, b);
    if |a| > 0 {
      ToUpperKeepsClasses(a[0]);
      ToUpperKeepsClasses(b[0]);
    }
    if CleanComment(a).Some? {
      UpperSlice(a, 1, |a|);
      UpperSlice(b, 1, |b|);
      assert Upper(a[1..]) == Upper(b[1..]);
      WordsUpper(a[1..]);
      WordsUpper(b[1..]);
      JoinUpper(Words(a[1..]));
      JoinUpper(Words(b[1..]));
    }
  }
}

/** Letter case does not matter to the lexer: every rule is case-insensitive
    and every payload except comment text is upper-cased, so two inputs that
    differ only in letter case give the same tokens, up to the letter case
    of comment text. */
module CaseFold {
  import opened Ascii
  import opened Tokens
  import opened Rules
  import opened Lexer

  /** A token with the letter case of its comment text erased; every other
      payload is upper case already. */
  function FoldCase(t: Token): Token {
    match t
    case Comment(x) => Comment(Upper(x))
    case _ => t
  }

  function FoldCaseAll(ts: seq<Token>): (us: seq<Token>)
    ensures |us| == |ts|
    ensures forall i :: 0 <= i < |ts| ==> us[i] == FoldCase(ts[i])
  {
    if |ts| == 0 then [] else [FoldCase(ts[0])] + FoldCaseAll(ts[1..])
  }

  /** Characters with the same upper-case form are in the same classes, and
      are the same character unless they are letters. */
  lemma SameClasses(c: char, d: char)
    requires ToUpper(c) == ToUpper(d)
    ensures IsLetter(c) == IsLetter(d) && IsDigit(c) == IsDigit(d) && IsHexDigit(c) == IsHexDigit(d)
    ensures IsSkipSpace(c) == IsSkipSpace(d)
    ensures !IsLetter(c) ==> c == d
  {
    ToUpperKeepsClasses(c);
    ToUpperKeepsClasses(d);
  }

  lemma OperandIgnoresCase(a: string, b: string)
    requires Upper(a) == Upper(b)
    ensures IsOperandText(a) ==> IsOperandText(b)
  {
    UpperAgrees(a, b);
    forall i | 0 <= i < |a|
      ensures IsLetter(a[i]) == IsLetter(b[i]) && IsHexDigit(a[i]) == IsHexDigit(b[i])
    {
      SameClasses(a[i], b[i]);
    }
  }

  lemma CommentIgnoresCase(a: string, b: string)
    requires Upper(a) == Upper(b)
    ensures IsCommentText(a) ==> IsCommentText(b)
  {
    UpperAgrees(a, b);
    forall i | 0 <= i < |a|
      ensures (a[i] == ';') == (b[i] == ';') && (a[i] == '\n') == (b[i] == '\n')
    {
      SameClasses(a[i], b[i]);
    }
  }

  lemma LabelIgnoresCase(a: string, b: string)
    requires Upper(a) == Upper(b)
    ensures IsLabelText(a) ==> IsLabelText(b)
  {
    UpperAgrees(a, b);
    if IsLabelText(a) {
      var n := |a| - 1;
      SameClasses(a[n], b[n]);
      forall i | 0 <= i < n
        ensures IsLetter(b[..n][i])
      {
        assert a[..n][i] == a[i];
        SameClasses(a[i], b[i]);
      }
    }
  }

  lemma CommaIgnoresCase(a: string, b: string)
    requires Upper(a) == Upper(b)
    ensures a == "," ==> b == ","
  {
    UpperAgrees(a, b);
    if a == "," {
      SameClasses(a[0], b[0]);
    }
  }

  /** Every rule accepts a text exactly when it accepts the text in any other
      letter case. */
  lemma MatchesIgnoresCase(q: Rule, a: string, b: string)
    requires Upper(a) == Upper(b)
    ensures Matches(q, a) <==> Matches(q, b)
  {
    match q
    case OpcodeRule =>
    case DirectiveRule =>
    case OperandRule =>
      OperandIgnoresCase(a, b);
      OperandIgnoresCase(b, a);
    case CommentRule =>
      CommentIgnoresCase(a, b);
      CommentIgnoresCase(b, a);
    case LabelRule =>
      LabelIgnoresCase(a, b);
      LabelIgnoresCase(b, a);
    case CommaRule =>
      CommaIgnoresCase(a, b);
      CommaIgnoresCase(b, a);
  }

  lemma PrefixesIgnoreCase(q: Rule, a: string, b: string, k: nat)
    requires Upper(a) == Upper(b) && k <= |a|
    ensures Matches(q, a[..k]) <==> Matches(q, b[..k])
  {
    UpperTake(a, k);
    UpperTake(b, k);
    MatchesIgnoresCase(q, a[..k], b[..k]);
  }

  lemma LongestMatchIgnoresCase(a: string, b: string, m: Match)
    requires Upper(a) == Upper(b) && IsLongestMatch(a, m)
    ensures IsLongestMatch(b, m)
  {
    forall q, k | 0 < k <= |a|
      ensures Matches(q, a[..k]) <==> Matches(q, b[..k])
    {
      PrefixesIgnoreCase(q, a, b, k);
    }
  }

  /** The engine picks the same rule and length in either letter case. */
  lemma {:induction false} LexIgnoresCase(a: string, b: string)
    requires Upper(a) == Upper(b)
    ensures Lex(a) == Lex(b)
  {
    LexFoundIgnoresCase(a, b);
    LexFoundIgnoresCase(b, a);
  }

  lemma {:induction false} LexFoundIgnoresCase(a: string, b: string)
    requires Upper(a) == Upper(b)
    ensures Lex(a).Some? ==> Lex(b) == Lex(a)
  {
    if Lex(a).Some? {
      LongestMatchIgnoresCase(a, b, Lex(a).value);
      LexIsLongestMatch(b, Lex(a).value);
    }
  }

  /** A rule's callback makes the same token of a text in any letter case,
      except that a comment keeps the case it was written in. */
  lemma EmitIgnoresCase(q: Rule, a: string, b: string)
    requires Upper(a) == Upper(b) && Matches(q, a) && Matches(q, b)
    ensures FoldCase(Emit(q, a)) == FoldCase(Emit(q, b))
  {
    if q == CommentRule {
      CleanCommentCaseInsensitive(a, b);
    }
  }

  lemma {:induction false} NextStepIgnoresCase(a: string, b: string)
    requires |a| > 0 && Upper(a) == Upper(b)
    ensures NextStep(a).len == NextStep(b).len
    ensures NextStep(a).Emitted? == NextStep(b).Emitted?
    ensures NextStep(a).Emitted? ==> FoldCase(NextStep(a).token) == FoldCase(NextStep(b).token)
  {
    UpperAgrees(a, b);
    SameClasses(a[0], b[0]);
    forall i | 0 <= i < |a|
      ensures IsSkipSpace(a[i]) == IsSkipSpace(b[i])
    {
      SameClasses(a[i], b[i]);
    }
    SpanAgree(a, b, IsSkipSpace);
    LexIgnoresCase(a, b);
    if !IsSkipSpace(a[0]) && Lex(a).Some? {
      var m := Lex(a).value;
      PrefixesIgnoreCase(m.rule, a, b, m.len);
      UpperTake(a, m.len);
      UpperTake(b, m.len);
      EmitIgnoresCase(m.rule, a[..m.len], b[..m.len]);
    }
  }

  /** Inputs that differ only in letter case give the same tokens, up to the
      letter case of comment text. */
  lemma {:induction false} TokenizeIgnoresCase(a: string, b: string)
    requires Upper(a) == Upper(b)
    ensures FoldCaseAll(Tokenize(a)) == FoldCaseAll(Tokenize(b))
    decreases |a|
  {
    if |a| > 0 {
      NextStepIgnoresCase(a, b);
      var n := NextStep(a).len;
      UpperDrop(a, n);
      UpperDrop(b, n);
      TokenizeIgnoresCase(a[n..], b[n..]);
    }
  }

  /** Without a `;` no rule can produce a comment, so inputs that differ
      only in letter case give exactly the same tokens. */
  lemma CommentFreeIgnoresCase(a: string, b: string)
    requires Upper(a) == Upper(b) && ';' !in a
    ensures Tokenize(a) == Tokenize(b)
  {
    UpperAgrees(a, b);
    forall i | 0 <= i < |b|
      ensures b[i] != ';'
    {
      SameClasses(a[i], b[i]);
      assert a[i] in a;
    }
    TokenizeIgnoresCase(a, b);
    NoCommentWithoutSemicolon(a);
    NoCommentWithoutSemicolon(b);
  }

  /** Every comment starts with `;`: input without one scans to no Comment
      token, so FoldCase leaves its tokens alone. */
  lemma {:induction false} NoCommentWithoutSemicolon(s: string)
    requires ';' !in s
    ensures forall i :: 0 <= i < |Tokenize(s)| ==> !Tokenize(s)[i].Comment?
    ensures FoldCaseAll(Tokenize(s)) == Tokenize(s)
    decreases |s|
  {
    if |s| > 0 {
      var st := NextStep(s);
      var rest := s[st.len..];
      forall i | 0 <= i < |rest|
        ensures rest[i] != ';'
      {
        assert rest[i] == s[st.len + i];
      }
      NoCommentWithoutSemicolon(rest);
      assert s[0] in s;
      if st.Emitted? && st.token.Comment? {
        NextStepSpec(s);
        MatchedTextShape(CommentRule, s[..st.len]);
        assert false;
      }
    }
  }
}

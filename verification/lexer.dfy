/** The scan loop: at each cursor position skip a whitespace run, or take the
    engine's match and emit its token, or drop one unmatched character; the
    token list is everything emitted, left to right. */
module Lexer {
  import opened Ascii
  import opened Keywords
  import opened Tokens
  import opened Rules

  /** What the engine does at one cursor position. */
  datatype Step =
    | Skipped(len: nat)
    | Emitted(token: Token, len: nat)
    | Rejected(len: nat)

  /** One step of the scan at the start of `s`: a run of skip-space is consumed
      silently; otherwise the engine's match is turned into its token; when no
      rule accepts any prefix, one character is dropped. Every step consumes
      at least one character. */
  function NextStep(s: string): (st: Step)
    requires |s| > 0
    ensures 0 < st.len <= |s|
  {
    if IsSkipSpace(s[0]) then Skipped(Span(s, IsSkipSpace))
    else
      match Lex(s)
      case None => Rejected(1)
      case Some(m) => Emitted(Emit(m.rule, s[..m.len]), m.len)
  }

  /** The policy of one step: whitespace runs are skipped whole; a character
      from which no rule accepts anything is dropped alone; otherwise the token
      comes from a rule accepting the longest prefix any rule accepts, and only
      an Operand match, losing to an exact keyword, ties with it. */
  lemma {:induction false} NextStepSpec(s: string)
    requires |s| > 0
    ensures NextStep(s).Skipped? <==> IsSkipSpace(s[0])
    ensures NextStep(s).Skipped? ==> forall i :: 0 <= i < NextStep(s).len ==> IsSkipSpace(s[i])
    ensures NextStep(s).Skipped? && NextStep(s).len < |s| ==> !IsSkipSpace(s[NextStep(s).len])
    ensures NextStep(s).Rejected? <==> !IsSkipSpace(s[0]) && forall q, k :: 0 < k <= |s| ==> !Matches(q, s[..k])
    ensures NextStep(s).Rejected? ==> NextStep(s).len == 1
    ensures NextStep(s).Emitted? ==> EmitsLongestMatch(s, NextStep(s).token, NextStep(s).len)
  {
  }

  /** `t` is the token of a rule accepting the first `n` characters of `s`;
      no rule accepts more; only Operand, losing to an exact keyword, ties. */
  predicate EmitsLongestMatch(s: string, t: Token, n: nat) {
    && IsLongestMatch(s, Match(RuleOf(t), n))
    && t == Emit(RuleOf(t), s[..n])
  }

  /** `create_tokens`, as a function: the tokens of every step, in order. It
      never fails, and as every step consumes at least one character there are
      never more tokens than characters. */
  function Tokenize(s: string): (ts: seq<Token>)
    ensures |ts| <= |s|
    decreases |s|
  {
    if |s| == 0 then []
    else
      var st := NextStep(s);
      StepTokens(st) + Tokenize(s[st.len..])
  }

  /** The token a step contributes: its token when it emitted one, else none. */
  function StepTokens(st: Step): seq<Token> {
    if st.Emitted? then [st.token] else []
  }

  /** Every token satisfies the payload invariants. */
  lemma {:induction false} TokenizeWellFormed(s: string)
    ensures forall i :: 0 <= i < |Tokenize(s)| ==> WellFormed(Tokenize(s)[i])
    decreases |s|
  {
    if |s| > 0 {
      var st := NextStep(s);
      TokenizeWellFormed(s[st.len..]);
      if st.Emitted? {
        NextStepSpec(s);
        var m := Lex(s).value;
        assert st.token == Emit(m.rule, s[..m.len]);
      }
    }
  }

  /** `create_tokens` as the source runs it: a cursor loop over the input that
      keeps the emitted tokens and drops everything else. */
  method CreateTokens(source: string) returns (tokens: seq<Token>)
    ensures tokens == Tokenize(source)
    ensures |tokens| <= |source|
  {
    tokens := [];
    var rest := source;
    while |rest| > 0
      invariant tokens + Tokenize(rest) == Tokenize(source)
      decreases |rest|
    {
      var st := NextStep(rest);
      assert Tokenize(rest) == StepTokens(st) + Tokenize(rest[st.len..]);
      if st.Emitted? {
        tokens := tokens + [st.token];
      } else {
        assert StepTokens(st) + Tokenize(rest[st.len..]) == Tokenize(rest[st.len..]);
      }
      rest := rest[st.len..];
    }
  }

  /** A token together with the span of the input it was lexed from. */
  datatype Located = Located(token: Token, start: nat, end: nat)

  /** The spans of `ls` moved `n` characters to the right. */
  function ShiftBy(ls: seq<Located>, n: nat): (r: seq<Located>)
    ensures |r| == |ls|
    ensures forall i :: 0 <= i < |ls| ==> r[i] == Located(ls[i].token, ls[i].start + n, ls[i].end + n)
  {
    if |ls| == 0 then [] else [Located(ls[0].token, ls[0].start + n, ls[0].end + n)] + ShiftBy(ls[1..], n)
  }

  /** The scan of `t` keeping where each token came from. */
  function Trace(t: string): (ls: seq<Located>)
    decreases |t|
  {
    if |t| == 0 then []
    else
      var st := NextStep(t);
      var rest := ShiftBy(Trace(t[st.len..]), st.len);
      if st.Emitted? then [Located(st.token, 0, st.len)] + rest else rest
  }

  /** Spans are non-empty, inside the input, and strictly left to right. */
  predicate SpansInOrder(ls: seq<Located>, len: nat) {
    && (forall i :: 0 <= i < |ls| ==> ls[i].start < ls[i].end <= len)
    && (forall i, j :: 0 <= i < j < |ls| ==> ls[i].end <= ls[j].start)
  }

  lemma {:induction false} TraceSpansInOrder(t: string)
    ensures SpansInOrder(Trace(t), |t|)
    decreases |t|
  {
    if |t| > 0 {
      var st := NextStep(t);
      var tail := Trace(t[st.len..]);
      TraceSpansInOrder(t[st.len..]);
      ShiftSpans(tail, st.len, |t[st.len..]|);
      if st.Emitted? {
        ConsSpans(Located(st.token, 0, st.len), ShiftBy(tail, st.len), |t|);
      }
    }
  }

  lemma ShiftSpans(ls: seq<Located>, n: nat, len: nat)
    requires SpansInOrder(ls, len)
    ensures SpansInOrder(ShiftBy(ls, n), len + n)
    ensures forall i :: 0 <= i < |ls| ==> n <= ShiftBy(ls, n)[i].start
  {
  }

  lemma ConsSpans(l: Located, rest: seq<Located>, len: nat)
    requires l.start < l.end <= len && SpansInOrder(rest, len)
    requires forall i :: 0 <= i < |rest| ==> l.end <= rest[i].start
    ensures SpansInOrder([l] + rest, len)
  {
    var ls := [l] + rest;
    forall i, j | 0 <= i < j < |ls|
      ensures ls[i].end <= ls[j].start
    {
      assert ls[j] == rest[j - 1];
      if i > 0 {
        assert ls[i] == rest[i - 1];
      }
    }
  }

  function TokensOf(ls: seq<Located>): (ts: seq<Token>)
    ensures |ts| == |ls|
  {
    if |ls| == 0 then [] else [ls[0].token] + TokensOf(ls[1..])
  }

  lemma TokensOfShift(ls: seq<Located>, n: nat)
    ensures TokensOf(ShiftBy(ls, n)) == TokensOf(ls)
  {
  }

  /** The located scan and the plain scan emit the same tokens. */
  lemma {:induction false} TraceAgreesWithTokenize(t: string)
    ensures TokensOf(Trace(t)) == Tokenize(t)
    decreases |t|
  {
    if |t| > 0 {
      var st := NextStep(t);
      TraceAgreesWithTokenize(t[st.len..]);
      TokensOfShift(Trace(t[st.len..]), st.len);
      var rest := ShiftBy(Trace(t[st.len..]), st.len);
      if st.Emitted? {
        assert ([Located(st.token, 0, st.len)] + rest)[1..] == rest;
      }
    }
  }

  /** The text from `start` to `end` is accepted by the rule `token` names,
      and `token` is what that rule makes of it. */
  predicate IsLexeme(s: string, token: Token, start: nat, end: nat) {
    && start < end <= |s|
    && Matches(RuleOf(token), s[start..end])
    && token == Emit(RuleOf(token), s[start..end])
  }

  predicate AllLexedFrom(s: string, ls: seq<Located>) {
    |ls| == 0 || (IsLexeme(s, ls[0].token, ls[0].start, ls[0].end) && AllLexedFrom(s, ls[1..]))
  }

  /** Every located token of the scan of `s` comes from its own span of `s`:
      the rule it names accepts that text, and the token is what the rule
      makes of it. */
  lemma {:induction false} TraceLexedFrom(s: string)
    ensures AllLexedFrom(s, Trace(s))
    decreases |s|
  {
    if |s| > 0 {
      var st := NextStep(s);
      TraceLexedFrom(s[st.len..]);
      ShiftLexedFrom(s, st.len, Trace(s[st.len..]));
      if st.Emitted? {
        EmittedLexeme(s, st.token, st.len);
        var rest := ShiftBy(Trace(s[st.len..]), st.len);
        assert ([Located(st.token, 0, st.len)] + rest)[1..] == rest;
      }
    }
  }

  /** Lexemes of a suffix are lexemes of the whole input, once moved right
      by the length of what precedes the suffix. */
  lemma {:induction false} ShiftLexedFrom(s: string, n: nat, ls: seq<Located>)
    requires n <= |s| && AllLexedFrom(s[n..], ls)
    ensures AllLexedFrom(s, ShiftBy(ls, n))
    decreases |ls|
  {
    if |ls| > 0 {
      ShiftLexedFrom(s, n, ls[1..]);
      ShiftLexeme(s, n, ls[0]);
      assert ShiftBy(ls, n)[1..] == ShiftBy(ls[1..], n);
    }
  }

  /** One lexeme of a suffix, moved right by the length of what precedes it. */
  lemma ShiftLexeme(s: string, n: nat, l: Located)
    requires n <= |s| && IsLexeme(s[n..], l.token, l.start, l.end)
    ensures IsLexeme(s, l.token, l.start + n, l.end + n)
  {
    assert s[n..][l.start..l.end] == s[l.start + n..l.end + n];
  }

  /** An emitted token is what its rule makes of the consumed text. */
  lemma {:induction false} EmittedLexeme(t: string, token: Token, n: nat)
    requires |t| > 0 && NextStep(t) == Emitted(token, n)
    ensures IsLexeme(t, token, 0, n)
  {
    NextStepSpec(t);
    assert t[0..n] == t[..n];
  }

  /** Text made only of skip-space characters. */
  predicate IsBlank(p: string) {
    forall i :: 0 <= i < |p| ==> IsSkipSpace(p[i])
  }

  /** A run of skip-space produces nothing: the scan continues after it as if it
      were not there. With an empty `rest`, whitespace-only input has no tokens. */
  lemma {:induction false} SkipRunInvisible(w: string, rest: string)
    requires |w| > 0 && IsBlank(w)
    ensures Tokenize(w + rest) == Tokenize(rest)
  {
    var m := Span(rest, IsSkipSpace);
    SkipPrefixStep(w, rest);
    if m > 0 {
      SkipStep(rest);
    } else {
      assert rest[m..] == rest;
    }
  }

  /** A scan starting on a blank run goes on after it and after whatever
      skip-space follows it. */
  lemma {:induction false} SkipPrefixStep(w: string, rest: string)
    requires |w| > 0 && IsBlank(w)
    ensures Tokenize(w + rest) == Tokenize(rest[Span(rest, IsSkipSpace)..])
  {
    var s := w + rest;
    assert s[0] == w[0];
    SkipStep(s);
    SpanAfterPrefix(w, rest, IsSkipSpace);
    assert s[Span(s, IsSkipSpace)..] == rest[Span(rest, IsSkipSpace)..];
  }

  /** A scan starting on skip-space goes on after the whole run. */
  lemma SkipStep(s: string)
    requires |s| > 0 && IsSkipSpace(s[0])
    ensures Tokenize(s) == Tokenize(s[Span(s, IsSkipSpace)..])
  {
    assert NextStep(s) == Skipped(Span(s, IsSkipSpace));
    assert StepTokens(NextStep(s)) == [];
  }

  lemma {:induction false} WhitespaceOnlyInput(s: string)
    requires IsBlank(s)
    ensures Tokenize(s) == []
  {
    if |s| > 0 {
      SkipAll(s);
      assert s[|s|..] == [];
    }
  }

  /** A whitespace-only input is skipped in one step. */
  lemma {:induction false} SkipAll(s: string)
    requires |s| > 0 && IsBlank(s)
    ensures NextStep(s) == Skipped(|s|)
  {
    SpanExact(s, IsSkipSpace, |s|);
  }

  /** A character that is not skip-space and that no rule's text starts with. */
  predicate IsStray(c: char) {
    !IsSkipSpace(c) && !IsLetter(c) && !IsDigit(c) && c != ';' && c != ','
  }

  /** A character no rule can start with, and that is not skip-space, is dropped
      and the scan continues with the next character. */
  lemma {:induction false} UnmatchedCharDropped(c: char, rest: string)
    requires IsStray(c)
    ensures Tokenize([c] + rest) == Tokenize(rest)
  {
    var s := [c] + rest;
    forall q, k | 0 < k <= |s|
      ensures !Matches(q, s[..k])
    {
      assert s[..k][0] == c;
      MatchedFirstChar(q, s[..k]);
    }
    assert s[1..] == rest;
  }

  /** When rule `q` accepts exactly the first `n` characters, nothing accepts a
      longer prefix, and only Operand (against a keyword rule) ties with it,
      the scan emits `q`'s token for those characters and goes on after them. */
  lemma {:induction false} EmitsMatch(s: string, q: Rule, n: nat)
    requires 0 < n <= |s| && !IsSkipSpace(s[0])
    requires Matches(q, s[..n])
    requires forall r, k :: n < k <= |s| ==> !Matches(r, s[..k])
    requires forall r :: Matches(r, s[..n]) ==> r == q || (r == OperandRule && IsKeywordRule(q))
    ensures Tokenize(s) == [Emit(q, s[..n])] + Tokenize(s[n..])
  {
    StepOfMatch(s, q, n);
  }

  lemma {:induction false} StepOfMatch(s: string, q: Rule, n: nat)
    requires 0 < n <= |s| && !IsSkipSpace(s[0])
    requires IsLongestMatch(s, Match(q, n))
    ensures NextStep(s) == Emitted(Emit(q, s[..n]), n)
  {
    LexIsLongestMatch(s, Match(q, n));
  }

  /** The characters that end a keyword, identifier or hex literal: anything
      but a letter, a digit or the label colon. */
  predicate IsBoundary(c: char) {
    !IsLetter(c) && !IsDigit(c) && c != ':'
  }

  /** No rule accepts text that runs over a boundary character, unless it is a
      comment, which starts with `;`. */
  lemma NoMatchAcrossBoundary(s: string, n: nat)
    requires 0 < n < |s| && s[0] != ';' && IsBoundary(s[n])
    ensures forall q, k :: n < k <= |s| ==> !Matches(q, s[..k])
  {
    forall q, k | n < k <= |s|
      ensures !Matches(q, s[..k])
    {
      var w := s[..k];
      assert w[n] == s[n] && w[0] == s[0];
      NoMatchOverBoundary(q, w, n);
    }
  }

  lemma NoMatchOverBoundary(q: Rule, w: string, n: nat)
    requires 0 < n < |w| && w[0] != ';' && IsBoundary(w[n])
    ensures !Matches(q, w)
  {
    MatchedCharsNoBoundary(q, w);
  }

  /** Letters and digits, except that the last character may be a colon. */
  predicate IsWordLike(w: string) {
    forall i :: 0 <= i < |w| ==> !IsBoundary(w[i]) && (i < |w| - 1 ==> w[i] != ':')
  }

  /** Keyword, Operand and Label texts are word-like. */
  lemma MatchedCharsNoBoundary(q: Rule, w: string)
    ensures Matches(q, w) && q != CommentRule && q != CommaRule ==> IsWordLike(w)
  {
    match q
    case OpcodeRule =>
      OpcodesShaped();
      KeywordWordLike(w, OPCODES);
    case DirectiveRule =>
      DirectivesShaped();
      KeywordWordLike(w, DIRECTIVES);
    case OperandRule => OperandWordLike(w);
    case LabelRule => LabelWordLike(w);
    case CommentRule =>
    case CommaRule =>
  }

  lemma KeywordWordLike(w: string, words: seq<string>)
    requires AllKeywordShaped(words)
    ensures OneOf(Upper(w), words) ==> IsWordLike(w)
  {
    if OneOf(Upper(w), words) {
      KeywordTextShape(w, words);
    }
  }

  lemma OperandWordLike(w: string)
    ensures IsOperandText(w) ==> IsWordLike(w)
  {
    if IsOperandText(w) {
      forall i | 0 <= i < |w|
        ensures IsLetter(w[i]) || IsDigit(w[i])
      {
        ToUpperKeepsClasses(w[i]);
      }
    }
  }

  lemma LabelWordLike(w: string)
    ensures IsLabelText(w) ==> IsWordLike(w)
  {
    if IsLabelText(w) {
      forall i | 0 <= i < |w| - 1
        ensures IsLetter(w[i])
      {
        assert w[..|w| - 1][i] == w[i];
      }
    }
  }

  /** Every match starts with a letter, a digit, `;` or `,`. */
  lemma MatchedFirstChar(q: Rule, w: string)
    ensures Matches(q, w) ==> |w| > 0 && (IsLetter(w[0]) || IsDigit(w[0]) || w[0] == ';' || w[0] == ',')
  {
    if Matches(q, w) {
      MatchedTextShape(q, w);
    }
  }

  /** A `;` can only start a comment. */
  lemma OnlyCommentStartsWithSemicolon(q: Rule, w: string)
    ensures Matches(q, w) && |w| > 0 && w[0] == ';' ==> q == CommentRule
  {
    MatchedCharsNoBoundary(q, w);
  }

  /** A mnemonic in any letter case, ended by a boundary, is one Opcode token
      carrying the upper-case mnemonic, never an Operand. */
  lemma {:induction false} OpcodeWins(w: string, rest: string)
    requires OneOf(Upper(w), OPCODES)
    requires |rest| == 0 || IsBoundary(rest[0])
    ensures Tokenize(w + rest) == [Opcode(Upper(w))] + Tokenize(rest)
  {
    KeywordWins(OpcodeRule, w, rest);
  }

  /** A directive keyword in any letter case, ended by a boundary, is one
      Directive token carrying the upper-case keyword, never an Operand. */
  lemma {:induction false} DirectiveWins(w: string, rest: string)
    requires OneOf(Upper(w), DIRECTIVES)
    requires |rest| == 0 || IsBoundary(rest[0])
    ensures Tokenize(w + rest) == [Directive(Upper(w))] + Tokenize(rest)
  {
    KeywordWins(DirectiveRule, w, rest);
  }

  lemma {:induction false} KeywordWins(q: Rule, w: string, rest: string)
    requires IsKeywordRule(q) && Matches(q, w)
    requires |rest| == 0 || IsBoundary(rest[0])
    ensures Tokenize(w + rest) == [Emit(q, w)] + Tokenize(rest)
  {
    var s := w + rest;
    MatchedTextShape(q, w);
    assert s[..|w|] == w && s[|w|..] == rest;
    assert s[0] == w[0];
    if |rest| > 0 {
      assert s[|w|] == rest[0];
      NoMatchAcrossBoundary(s, |w|);
    }
    forall r | Matches(r, w)
      ensures r == q || (r == OperandRule && IsKeywordRule(q))
    {
      if r != q {
        RulesOverlapOnlyOnKeywords(r, q, w);
      }
    }
    EmitsMatch(s, q, |w|);
  }

  /** A register name, hex literal or letter run that is not a keyword, ended by
      a boundary, is one Operand token carrying the upper-cased text. */
  lemma {:induction false} OperandLexeme(w: string, rest: string)
    requires IsOperandText(w)
    requires !OneOf(Upper(w), OPCODES) && !OneOf(Upper(w), DIRECTIVES)
    requires |rest| == 0 || IsBoundary(rest[0])
    ensures Tokenize(w + rest) == [Operand(Upper(w))] + Tokenize(rest)
  {
    var s := w + rest;
    MatchedTextShape(OperandRule, w);
    assert s[..|w|] == w && s[|w|..] == rest;
    assert s[0] == w[0];
    if |rest| > 0 {
      assert s[|w|] == rest[0];
      NoMatchAcrossBoundary(s, |w|);
    }
    forall r | Matches(r, w)
      ensures r == OperandRule
    {
      if r != OperandRule {
        RulesOverlapOnlyOnKeywords(r, OperandRule, w);
      }
    }
    EmitsMatch(s, OperandRule, |w|);
  }

  /** A letter run directly followed by `:` is one Label token carrying the
      upper-cased run without the colon, whatever follows it: the longer Label
      match beats the Operand match of the letters alone. */
  lemma {:induction false} LabelWins(w: string, rest: string)
    requires IsIdentifier(w)
    ensures Tokenize(w + ":" + rest) == [Label(Upper(w))] + Tokenize(rest)
  {
    var s := w + ":" + rest;
    var n := |w| + 1;
    assert s[..n] == w + ":";
    assert s[..n][..n - 1] == w;
    assert Matches(LabelRule, s[..n]);
    forall r, k | n < k <= |s|
      ensures !Matches(r, s[..k])
    {
      var v := s[..k];
      assert v[|w|] == ':' && v[0] == w[0];
      MatchedCharsNoBoundary(r, v);
    }
    forall r | Matches(r, s[..n])
      ensures r == LabelRule
    {
      if r != LabelRule {
        RulesOverlapOnlyOnKeywords(r, LabelRule, s[..n]);
      }
    }
    EmitsMatch(s, LabelRule, n);
    LabelPayload(s[..n]);
    assert CleanLabel(s[..n]) == Upper(w) by {
      UpperConcat(w, ":");
      assert Upper(w + ":") == Upper(w) + ":";
    }
    assert s[n..] == rest;
  }

  /** A `,` is a Comma token, whatever follows it. */
  lemma {:induction false} CommaLexeme(rest: string)
    ensures Tokenize("," + rest) == [Comma] + Tokenize(rest)
  {
    var s := "," + rest;
    assert s[..1] == ",";
    forall r, k | 1 < k <= |s|
      ensures !Matches(r, s[..k])
    {
      var v := s[..k];
      assert v[0] == ',';
      if Matches(r, v) {
        MatchedTextShape(r, v);
      }
    }
    forall r | Matches(r, s[..1])
      ensures r == CommaRule
    {
      MatchedTextShape(r, s[..1]);
    }
    EmitsMatch(s, CommaRule, 1);
    assert s[1..] == rest;
  }

  /** A `;` starts a comment that runs to the next newline or the end of the
      input and never past it; its token carries the words of the text after
      the `;`, joined by single spaces. */
  lemma {:induction false} CommentLexeme(body: string, rest: string)
    requires '\n' !in body
    requires |rest| == 0 || rest[0] == '\n'
    ensures Tokenize(";" + body + rest) == [Comment(Join(Words(body)))] + Tokenize(rest)
  {
    var s := ";" + body + rest;
    var n := 1 + |body|;
    assert s[..n] == ";" + body;
    assert s[..n][1..] == body;
    forall i | 1 <= i < n
      ensures s[..n][i] != '\n'
    {
      assert s[..n][i] == body[i - 1];
    }
    assert Matches(CommentRule, s[..n]);
    forall r, k | n < k <= |s|
      ensures !Matches(r, s[..k])
    {
      var v := s[..k];
      assert v[0] == ';' && v[n] == rest[0];
      OnlyCommentStartsWithSemicolon(r, v);
    }
    forall r | Matches(r, s[..n])
      ensures r == CommentRule
    {
      OnlyCommentStartsWithSemicolon(r, s[..n]);
    }
    EmitsMatch(s, CommentRule, n);
    assert s[n..] == rest;
  }
}

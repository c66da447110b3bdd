/** The rule table of the lexer. Each rule is given twice: as the language of
    texts its pattern accepts (`Matches`), and as a function computing the
    longest prefix of the input that the pattern accepts (`MatchLen`). The
    engine's policy, longest match with exact keywords winning ties, is `Lex`. */
module Rules {
  import opened Ascii
  import opened Keywords
  import opened Tokens

  /** The six token rules, in declaration order. */
  datatype Rule = OpcodeRule | OperandRule | CommentRule | DirectiveRule | LabelRule | CommaRule

  const RULES: seq<Rule> := [OpcodeRule, OperandRule, CommentRule, DirectiveRule, LabelRule, CommaRule]

  /** The single-letter register names of the Operand rule. */
  const REGISTERS: string := "ABCDEHL"

  /** The exact-keyword rules, which win a tie against the Operand rule. */
  predicate IsKeywordRule(q: Rule) {
    q == OpcodeRule || q == DirectiveRule
  }

  predicate AllLetters(w: string) {
    forall i :: 0 <= i < |w| ==> IsLetter(w[i])
  }

  /** `A|B|C|D|E|H|L`, either case. */
  predicate IsRegisterName(w: string) {
    |w| == 1 && ToUpper(w[0]) in REGISTERS
  }

  /** `[0-9A-F]{1,4}H`, either case. */
  predicate IsHexLiteral(w: string) {
    && 2 <= |w| <= 5
    && (forall i :: 0 <= i < |w| - 1 ==> IsHexDigit(w[i]))
    && ToUpper(w[|w| - 1]) == 'H'
  }

  /** `[a-zA-Z]+`. */
  predicate IsIdentifier(w: string) {
    |w| > 0 && AllLetters(w)
  }

  predicate IsOperandText(w: string) {
    IsRegisterName(w) || IsHexLiteral(w) || IsIdentifier(w)
  }

  /** `;.*`, where `.` is any character but a newline. */
  predicate IsCommentText(w: string) {
    && |w| > 0
    && w[0] == ';'
    && forall i :: 1 <= i < |w| ==> w[i] != '\n'
  }

  /** `[a-zA-Z]+:`. */
  predicate IsLabelText(w: string) {
    && |w| >= 2
    && IsIdentifier(w[..|w| - 1])
    && w[|w| - 1] == ':'
  }

  /** The language of each rule's pattern. */
  predicate Matches(q: Rule, w: string) {
    match q
    case OpcodeRule => OneOf(Upper(w), OPCODES)
    case OperandRule => IsOperandText(w)
    case CommentRule => IsCommentText(w)
    case DirectiveRule => OneOf(Upper(w), DIRECTIVES)
    case LabelRule => IsLabelText(w)
    case CommaRule => w == ","
  }

  function Max(a: nat, b: nat): nat {
    if a < b then b else a
  }

  /** The first `n` characters of `s`, upper-cased, are a keyword of `words`. */
  predicate IsKeywordPrefix(s: string, words: seq<string>, n: nat) {
    n <= |s| && OneOf(Upper(s[..n]), words)
  }

  /** Longest prefix of `s`, of length at most `k`, that is a keyword of `words`
      after upper-casing; 0 when there is none. */
  function KeywordLen(s: string, words: seq<string>, k: nat): (n: nat)
    requires k <= |s|
    ensures n <= k
    ensures n > 0 ==> IsKeywordPrefix(s, words, n)
    ensures forall j :: n < j <= k ==> !OneOf(Upper(s[..j]), words)
    decreases k
  {
    if k == 0 then 0
    else if OneOf(Upper(s[..k]), words) then k
    else KeywordLen(s, words, k - 1)
  }

  /** Longest keyword prefix; no keyword is longer than MAX_KEYWORD_LEN, so the
      search stops there. */
  function KeywordPrefixLen(s: string, words: seq<string>): (n: nat)
    requires AllKeywordShaped(words)
    ensures n <= |s|
    ensures n > 0 ==> IsKeywordPrefix(s, words, n)
    ensures forall k :: n < k <= |s| ==> !OneOf(Upper(s[..k]), words)
  {
    var bound := if |s| < MAX_KEYWORD_LEN then |s| else MAX_KEYWORD_LEN;
    var n := KeywordLen(s, words, bound);
    forall k | bound < k <= |s|
      ensures !OneOf(Upper(s[..k]), words)
    {
      MemberShaped(Upper(s[..k]), words);
    }
    n
  }

  /** Longest Operand prefix: the longest of a register letter, a hex literal
      and a letter run. */
  function OperandLen(s: string): (n: nat)
    ensures n <= |s|
    ensures n > 0 ==> AcceptsPrefix(OperandRule, s, n)
    ensures forall k :: n < k <= |s| ==> !IsOperandText(s[..k])
  {
    var letters := Span(s, IsLetter);
    var digits := Span(s, IsHexDigit);
    var hex := if 1 <= digits <= 4 && digits < |s| && ToUpper(s[digits]) == 'H' then digits + 1 else 0;
    var register := if 0 < |s| && ToUpper(s[0]) in REGISTERS then 1 else 0;
    IdentifierPrefixes(s, letters);
    HexLiteralPrefixes(s, digits, hex);
    Max(register, Max(hex, letters))
  }

  lemma IdentifierPrefixes(s: string, letters: nat)
    requires letters == Span(s, IsLetter)
    ensures letters > 0 ==> IsIdentifier(s[..letters])
    ensures forall k :: letters < k <= |s| ==> !IsIdentifier(s[..k])
  {
    forall k | letters < k <= |s|
      ensures !IsIdentifier(s[..k])
    {
      assert s[..k][letters] == s[letters];
    }
  }

  /** A hex literal prefix can only end at the first character that is not a hex digit. */
  lemma HexLiteralPrefixes(s: string, digits: nat, hex: nat)
    requires digits == Span(s, IsHexDigit)
    requires hex == if 1 <= digits <= 4 && digits < |s| && ToUpper(s[digits]) == 'H' then digits + 1 else 0
    ensures hex > 0 ==> IsHexLiteral(s[..hex])
    ensures forall k :: 0 < k <= |s| && IsHexLiteral(s[..k]) ==> k == hex
  {
    forall k | 0 < k <= |s| && IsHexLiteral(s[..k])
      ensures k == hex
    {
      HexPrefixEndsRun(s, digits, k);
    }
  }

  lemma HexPrefixEndsRun(s: string, digits: nat, k: nat)
    requires digits == Span(s, IsHexDigit)
    requires 0 < k <= |s| && IsHexLiteral(s[..k])
    ensures digits == k - 1 && ToUpper(s[k - 1]) == 'H'
  {
    var w := s[..k];
    assert w[k - 1] == s[k - 1];
    assert s[k - 1] == 'H' || s[k - 1] == 'h';
    assert forall i :: 0 <= i < k - 1 ==> IsHexDigit(s[i]) by {
      assert forall i :: 0 <= i < k - 1 ==> w[i] == s[i];
    }
  }

  /** Longest Comment prefix: the `;` and everything up to the next newline. */
  function CommentLen(s: string): (n: nat)
    ensures n <= |s|
    ensures n > 0 ==> AcceptsPrefix(CommentRule, s, n)
    ensures forall k :: n < k <= |s| ==> !IsCommentText(s[..k])
  {
    if |s| > 0 && s[0] == ';' then
      var body := Span(s[1..], IsNotNewline);
      assert forall k :: 1 + body < k <= |s| ==> s[..k][1 + body] == '\n';
      1 + body
    else 0
  }

  /** Longest Label prefix: a letter run directly followed by `:`. */
  function LabelLen(s: string): (n: nat)
    ensures n <= |s|
    ensures n > 0 ==> AcceptsPrefix(LabelRule, s, n)
    ensures forall k :: n < k <= |s| ==> !IsLabelText(s[..k])
  {
    var letters := Span(s, IsLetter);
    LabelPrefixes(s, letters);
    if 0 < letters < |s| && s[letters] == ':' then letters + 1 else 0
  }

  lemma LabelPrefixes(s: string, letters: nat)
    requires letters == Span(s, IsLetter)
    ensures forall k :: 0 < k <= |s| && IsLabelText(s[..k]) ==> k == letters + 1
    ensures 0 < letters < |s| && s[letters] == ':' ==> IsLabelText(s[..letters + 1])
  {
    forall k | 0 < k <= |s| && IsLabelText(s[..k])
      ensures k == letters + 1
    {
      LabelPrefixEndsRun(s, letters, k);
    }
    if 0 < letters < |s| && s[letters] == ':' {
      assert s[..letters + 1][..letters] == s[..letters];
    }
  }

  lemma LabelPrefixEndsRun(s: string, letters: nat, k: nat)
    requires letters == Span(s, IsLetter)
    requires 0 < k <= |s| && IsLabelText(s[..k])
    ensures k == letters + 1
  {
    var w := s[..k];
    assert s[k - 1] == ':';
    assert w[..k - 1] == s[..k - 1];
    assert forall i :: 0 <= i < k - 1 ==> IsLetter(s[i]) by {
      assert AllLetters(s[..k - 1]);
    }
    SpanExact(s, IsLetter, k - 1);
  }

  function CommaLen(s: string): (n: nat)
    ensures n <= |s|
    ensures n > 0 ==> AcceptsPrefix(CommaRule, s, n)
    ensures forall k :: n < k <= |s| ==> s[..k] != ","
  {
    if |s| > 0 && s[0] == ',' then 1 else 0
  }

  /** Rule `q` accepts the first `n` characters of `s`, and there are some. */
  predicate AcceptsPrefix(q: Rule, s: string, n: nat) {
    0 < n <= |s| && Matches(q, s[..n])
  }

  /** A rule and how many characters of the input it consumes. */
  datatype Match = Match(rule: Rule, len: nat)

  /** Length of the longest prefix of `s` that rule `q` accepts; 0 when it accepts none. */
  function MatchLen(q: Rule, s: string): (n: nat)
    ensures n <= |s|
    ensures n > 0 ==> AcceptsPrefix(q, s, n)
    ensures forall k :: n < k <= |s| ==> !Matches(q, s[..k])
  {
    match q
    case OpcodeRule => OpcodesShaped(); KeywordPrefixLen(s, OPCODES)
    case OperandRule => OperandLen(s)
    case CommentRule => CommentLen(s)
    case DirectiveRule => DirectivesShaped(); KeywordPrefixLen(s, DIRECTIVES)
    case LabelRule => LabelLen(s)
    case CommaRule => CommaLen(s)
  }

  /** Every rule's language holds only non-empty texts, and the only two rules
      that ever accept the same text are an exact-keyword rule and the Operand
      rule (a mnemonic or directive is also a letter run). */
  lemma RulesOverlapOnlyOnKeywords(q: Rule, r: Rule, w: string)
    requires q != r && Matches(q, w) && Matches(r, w)
    ensures || (q == OperandRule && IsKeywordRule(r))
            || (r == OperandRule && IsKeywordRule(q))
  {
    MatchedTextShape(q, w);
    MatchedTextShape(r, w);
    if IsKeywordRule(q) && IsKeywordRule(r) {
      KeywordListsDisjoint(Upper(w));
    }
  }

  /** What the first and last characters of a matched text can be. */
  lemma MatchedTextShape(q: Rule, w: string)
    requires Matches(q, w)
    ensures |w| > 0
    ensures q == CommentRule <==> w[0] == ';'
    ensures q == CommaRule <==> w[0] == ','
    ensures q != CommentRule ==> (q == LabelRule <==> w[|w| - 1] == ':')
    ensures IsKeywordRule(q) ==> AllLetters(w) && |w| >= 2
    ensures q == OperandRule ==> (IsLetter(w[0]) || IsDigit(w[0])) && IsLetter(w[|w| - 1])
    ensures q == LabelRule ==> IsLetter(w[0])
  {
    match q
    case OpcodeRule => OpcodesShaped(); KeywordTextShape(w, OPCODES);
    case DirectiveRule => DirectivesShaped(); KeywordTextShape(w, DIRECTIVES);
    case OperandRule => OperandTextShape(w);
    case LabelRule => assert w[..|w| - 1][0] == w[0];
    case CommentRule =>
    case CommaRule =>
  }

  lemma KeywordTextShape(w: string, words: seq<string>)
    requires AllKeywordShaped(words) && OneOf(Upper(w), words)
    ensures AllLetters(w) && |w| >= 2
  {
    var u := Upper(w);
    MemberShaped(u, words);
    forall i | 0 <= i < |w|
      ensures IsLetter(w[i])
    {
      assert IsUpper(u[i]);
      ToUpperKeepsClasses(w[i]);
    }
  }

  lemma OperandTextShape(w: string)
    requires IsOperandText(w)
    ensures |w| > 0
    ensures IsLetter(w[0]) || IsDigit(w[0])
    ensures IsLetter(w[|w| - 1])
  {
    ToUpperKeepsClasses(w[0]);
    ToUpperKeepsClasses(w[|w| - 1]);
    if IsHexLiteral(w) {
      assert IsHexDigit(w[0]);
    }
  }

  /** Each rule's longest match at `s`, in declaration order. */
  function Candidates(s: string): (ms: seq<Match>)
    ensures forall q: Rule :: Match(q, MatchLen(q, s)) in ms
    ensures forall m :: m in ms ==> m.len == MatchLen(m.rule, s)
  {
    var ms := seq(|RULES|, i requires 0 <= i < |RULES| => Match(RULES[i], MatchLen(RULES[i], s)));
    EveryRuleListed(s, ms);
    ms
  }

  lemma EveryRuleListed(s: string, ms: seq<Match>)
    requires |ms| == |RULES| && forall i :: 0 <= i < |RULES| ==> ms[i] == Match(RULES[i], MatchLen(RULES[i], s))
    ensures forall q: Rule :: Match(q, MatchLen(q, s)) in ms
  {
    forall q: Rule
      ensures Match(q, MatchLen(q, s)) in ms
    {
      match q
      case OpcodeRule => assert ms[0].rule == q;
      case OperandRule => assert ms[1].rule == q;
      case CommentRule => assert ms[2].rule == q;
      case DirectiveRule => assert ms[3].rule == q;
      case LabelRule => assert ms[4].rule == q;
      case CommaRule => assert ms[5].rule == q;
    }
  }

  /** The engine's choice among candidate matches: a longest one, and among
      equally long ones an exact-keyword rule over any other. */
  function Best(ms: seq<Match>): (b: Match)
    requires |ms| > 0
    ensures b in ms
    ensures forall m :: m in ms ==> m.len <= b.len
    ensures forall m :: m in ms && IsKeywordRule(m.rule) && m.len == b.len ==> IsKeywordRule(b.rule)
    decreases |ms|
  {
    if |ms| == 1 then ms[0]
    else
      var rest := Best(ms[1..]);
      var first := ms[0];
      if first.len > rest.len || (first.len == rest.len && (IsKeywordRule(first.rule) || !IsKeywordRule(rest.rule)))
      then first
      else rest
  }

  /** The rule that takes a text several rules accept: an exact keyword over
      anything else. At most one other rule can accept the same text, and only
      Operand can share it with a keyword. */
  function Winner(w: string): (r: Option<Rule>)
    ensures r.Some? ==> Matches(r.value, w)
    ensures r.Some? ==> forall q :: Matches(q, w) ==> q == r.value || (q == OperandRule && IsKeywordRule(r.value))
    ensures r.None? <==> forall q :: !Matches(q, w)
  {
    OverlapsOnlyOnKeywords(w);
    if Matches(OpcodeRule, w) then Some(OpcodeRule)
    else if Matches(DirectiveRule, w) then Some(DirectiveRule)
    else if Matches(OperandRule, w) then Some(OperandRule)
    else if Matches(CommentRule, w) then Some(CommentRule)
    else if Matches(LabelRule, w) then Some(LabelRule)
    else if Matches(CommaRule, w) then Some(CommaRule)
    else None
  }

  lemma OverlapsOnlyOnKeywords(w: string)
    ensures forall q, r :: q != r && Matches(q, w) && Matches(r, w) ==>
              (q == OperandRule && IsKeywordRule(r)) || (r == OperandRule && IsKeywordRule(q))
  {
    forall q, r | q != r && Matches(q, w) && Matches(r, w)
      ensures (q == OperandRule && IsKeywordRule(r)) || (r == OperandRule && IsKeywordRule(q))
    {
      RulesOverlapOnlyOnKeywords(q, r, w);
    }
  }

  /** The length of the longest prefix, among the first `k` characters, that
      some rule accepts; 0 when no rule accepts any of them. */
  function LongestLen(s: string, k: nat): (n: nat)
    requires k <= |s|
    ensures n <= k
    ensures n > 0 ==> exists q :: AcceptsPrefix(q, s, n)
    ensures forall q, j :: n < j <= k ==> !Matches(q, s[..j])
    decreases k
  {
    if k == 0 then 0
    else
      var w := Winner(s[..k]);
      if w.Some? then assert AcceptsPrefix(w.value, s, k); k
      else LongestLen(s, k - 1)
  }

  /** The matching engine at one cursor position (whitespace already excluded):
      the longest prefix any rule accepts, with exact keywords winning a tie
      against Operand; None when no rule accepts any prefix. */
  function Lex(s: string): (m: Option<Match>)
    ensures m.Some? ==> IsLongestMatch(s, m.value)
    ensures m.None? <==> forall q, k :: 0 < k <= |s| ==> !Matches(q, s[..k])
  {
    var n := LongestLen(s, |s|);
    if n == 0 then None
    else
      var w := Winner(s[..n]);
      Some(Match(w.value, n))
  }

  /** The same engine built the way a rule table is run: each rule's own
      longest match, then the longest of those, keywords first on a tie. */
  function LexByRules(s: string): (m: Option<Match>)
    ensures m.Some? ==> IsLongestMatch(s, m.value)
    ensures m.None? <==> forall q, k :: 0 < k <= |s| ==> !Matches(q, s[..k])
  {
    var b := Best(Candidates(s));
    LongestOverall(s, b);
    if b.len == 0 then None
    else
      KeywordWinsTie(s, b);
      Some(b)
  }

  /** `m` is what the longest-match policy allows at the start of `s`: its rule
      accepts its text, no rule accepts a longer prefix, and only Operand,
      losing to an exact keyword, accepts the same text. */
  predicate IsLongestMatch(s: string, m: Match) {
    && 0 < m.len <= |s|
    && Matches(m.rule, s[..m.len])
    && (forall q, k :: m.len < k <= |s| ==> !Matches(q, s[..k]))
    && (forall q :: Matches(q, s[..m.len]) ==> q == m.rule || (q == OperandRule && IsKeywordRule(m.rule)))
  }

  /** The policy leaves no choice: at most one match satisfies it. */
  lemma LongestMatchUnique(s: string, a: Match, b: Match)
    requires IsLongestMatch(s, a) && IsLongestMatch(s, b)
    ensures a == b
  {
  }

  /** So the engine's answer is the one the policy allows. */
  lemma {:induction false} LexIsLongestMatch(s: string, m: Match)
    requires IsLongestMatch(s, m)
    ensures Lex(s) == Some(m)
  {
    LongestMatchUnique(s, Lex(s).value, m);
  }

  /** The two constructions of the engine agree on every input. */
  lemma {:induction false} EnginesAgree(s: string)
    ensures LexByRules(s) == Lex(s)
  {
    var a := LexByRules(s);
    if a.Some? {
      LexIsLongestMatch(s, a.value);
    }
  }

  lemma LongestOverall(s: string, b: Match)
    requires b == Best(Candidates(s))
    ensures b.len == MatchLen(b.rule, s)
    ensures forall q :: MatchLen(q, s) <= b.len
    ensures forall q, k :: b.len < k <= |s| ==> !Matches(q, s[..k])
  {
    forall q, k | b.len < k <= |s|
      ensures !Matches(q, s[..k])
    {
      assert Match(q, MatchLen(q, s)) in Candidates(s);
    }
  }

  lemma KeywordWinsTie(s: string, b: Match)
    requires b == Best(Candidates(s)) && b.len > 0
    ensures forall q :: Matches(q, s[..b.len]) ==> q == b.rule || (q == OperandRule && IsKeywordRule(b.rule))
  {
    LongestOverall(s, b);
    forall q | Matches(q, s[..b.len]) && q != b.rule
      ensures q == OperandRule && IsKeywordRule(b.rule)
    {
      var n := MatchLen(q, s);
      assert n == b.len;
      assert Match(q, n) in Candidates(s);
      RulesOverlapOnlyOnKeywords(q, b.rule, s[..b.len]);
    }
  }

  /** The rule a token comes from. */
  function RuleOf(t: Token): Rule {
    match t
    case Opcode(_) => OpcodeRule
    case Operand(_) => OperandRule
    case Comment(_) => CommentRule
    case Directive(_) => DirectiveRule
    case Label(_) => LabelRule
    case Comma => CommaRule
  }

  /** The payload invariants of emitted tokens. */
  predicate WellFormed(t: Token) {
    match t
    case Opcode(x) => OneOf(x, OPCODES)
    case Directive(x) => OneOf(x, DIRECTIVES)
    case Operand(x) => |x| > 0 && forall i :: 0 <= i < |x| ==> IsUpper(x[i]) || IsDigit(x[i])
    case Label(x) => |x| > 0 && forall i :: 0 <= i < |x| ==> IsUpper(x[i])
    case Comment(x) => WellSpaced(x)
    case Comma => true
  }

  /** The rule callbacks: each turns the matched text into its token. */
  function Emit(q: Rule, slice: string): (t: Token)
    requires Matches(q, slice)
    ensures RuleOf(t) == q
    ensures WellFormed(t)
  {
    match q
    case OpcodeRule => Opcode(Upper(slice))
    case OperandRule => OperandPayload(slice); Operand(Upper(slice))
    case CommentRule => Comment(CleanComment(slice).value)
    case DirectiveRule => Directive(Upper(slice))
    case LabelRule => LabelPayload(slice); Label(CleanLabel(slice))
    case CommaRule => Comma
  }

  lemma OperandPayload(slice: string)
    requires IsOperandText(slice)
    ensures |Upper(slice)| > 0
    ensures forall i :: 0 <= i < |slice| ==> IsUpper(Upper(slice)[i]) || IsDigit(Upper(slice)[i])
  {
    forall i | 0 <= i < |slice|
      ensures IsUpper(Upper(slice)[i]) || IsDigit(Upper(slice)[i])
    {
      ToUpperKeepsClasses(slice[i]);
      if IsHexLiteral(slice) && i == |slice| - 1 {
        assert ToUpper(slice[i]) == 'H';
      }
    }
  }

  /** The Label payload is the upper-cased letter run: the matched text less its
      colon, so one character shorter, non-empty and colon-free. */
  lemma LabelPayload(slice: string)
    requires IsLabelText(slice)
    ensures CleanLabel(slice) + ":" == Upper(slice)
    ensures |CleanLabel(slice)| == |slice| - 1 > 0
    ensures forall i :: 0 <= i < |slice| - 1 ==> IsUpper(CleanLabel(slice)[i])
    ensures ':' !in CleanLabel(slice)
  {
    var r := CleanLabel(slice);
    forall i | 0 <= i < |slice| - 1
      ensures IsUpper(r[i])
    {
      assert slice[..|slice| - 1][i] == slice[i];
      assert r[i] == ToUpper(slice[i]);
    }
  }
}

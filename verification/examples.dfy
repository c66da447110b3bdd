/** Worked inputs: the scan of short 8085 source lines, token by token. */
module Examples {
  import opened Ascii
  import opened Keywords
  import opened Tokens
  import opened Rules
  import opened Lexer

  /** `CPI` is one Opcode, not `CP` followed by the Operand `I`. */
  lemma CompareImmediateIsOneOpcode()
    ensures Tokenize("CPI") == [Opcode("CPI")]
  {
    OneOfAt("CPI", OPCODES, 25);
    assert Upper("CPI") == "CPI";
    OpcodeWins("CPI", "");
    assert "CPI" + "" == "CPI";
  }

  /** Text that is not two to four capital letters after upper-casing is not
      a keyword of either list. */
  lemma NotAKeyword(w: string)
    requires !IsKeywordShaped(Upper(w))
    ensures !OneOf(Upper(w), OPCODES) && !OneOf(Upper(w), DIRECTIVES)
  {
    OpcodesShaped();
    DirectivesShaped();
    MemberShaped(Upper(w), OPCODES);
    MemberShaped(Upper(w), DIRECTIVES);
  }

  /** A letter run directly followed by `:` is one Label, upper-cased and
      without its colon. */
  lemma LowerCaseLabel()
    ensures Tokenize("start:") == [Label("START")]
  {
    LabelSpelling();
    LabelAlone("start");
  }

  lemma LabelSpelling()
    ensures IsIdentifier("start") && Upper("start") == "START"
    ensures "start" + ":" == "start:"
  {
    assert Upper("start") == "START";
  }

  /** A letter run directly followed by `:` and nothing else is one Label. */
  lemma {:induction false} LabelAlone(w: string)
    requires IsIdentifier(w)
    ensures Tokenize(w + ":") == [Label(Upper(w))]
  {
    LabelWins(w, "");
    assert w + ":" + "" == w + ":";
  }

  /** Hex literals are single Operands, whatever their length. */
  lemma ShortHexLiteral()
    ensures Tokenize("42H") == [Operand("42H")]
  {
    assert Upper("42H") == "42H" && !IsUpper("42H"[0]);
    NotAKeyword("42H");
    OperandLexeme("42H", "");
    assert "42H" + "" == "42H";
  }

  /** Where an engine that drops the whole walked prefix `1234` of `12345H`
      would resume. */
  lemma ResumedHexLiteral()
    ensures "12345H"[..4] == "1234"
    ensures Tokenize("12345H"[4..]) == [Operand("5H")]
  {
    assert "12345H"[4..] == "5H" + "";
    assert Upper("5H") == "5H" && !IsUpper("5H"[0]);
    NotAKeyword("5H");
    OperandLexeme("5H", "");
  }

  lemma LongHexLiteral()
    ensures Tokenize("2000H") == [Operand("2000H")]
  {
    assert Upper("2000H") == "2000H";
    NotAKeyword("2000H");
    OperandLexeme("2000H", "");
    assert "2000H" + "" == "2000H";
  }

  /** A hex literal one digit too long is not a hex literal, and no rule
      accepts any prefix of it: its first digit is dropped and the rest,
      now short enough, is one Operand. */
  lemma OverlongHexLiteral()
    ensures Tokenize("12345H") == [Operand("2345H")]
  {
    OverlongHexRejected();
    NextStepSpec("12345H");
    assert "12345H"[1..] == "2345H";
    assert Upper("2345H") == "2345H";
    NotAKeyword("2345H");
    OperandLexeme("2345H", "");
    assert "2345H" + "" == "2345H";
  }

  /** No rule accepts any prefix of `12345H`. */
  lemma OverlongHexRejected()
    ensures forall q, k :: 0 < k <= |"12345H"| ==> !Matches(q, "12345H"[..k])
  {
    var s := "12345H";
    forall q, k | 0 < k <= |s|
      ensures !Matches(q, s[..k])
    {
      var w := s[..k];
      assert w[0] == '1';
      if Matches(q, w) {
        MatchedTextShape(q, w);
      }
    }
  }

  /** Register operands separated by a comma. */
  lemma RegisterPair()
    ensures Tokenize("A,B") == [Operand("A"), Comma, Operand("B")]
  {
    PairSpelling();
    RegistersWithComma("A", "B");
  }

  lemma PairSpelling()
    ensures IsRegisterName("A") && IsRegisterName("B")
    ensures Upper("A") == "A" && Upper("B") == "B"
    ensures "A" + "," + "B" == "A,B"
  {
    assert Upper("A") == "A";
    assert Upper("B") == "B";
  }

  /** Two register names separated by a comma are two Operands around a Comma. */
  lemma {:induction false} RegistersWithComma(a: string, b: string)
    requires IsRegisterName(a) && IsRegisterName(b)
    ensures Tokenize(a + "," + b) == [Operand(Upper(a)), Comma, Operand(Upper(b))]
  {
    CommaThenRegister(b);
    RegisterBeforeComma(a, b);
    RegroupPair(a, b);
  }

  lemma {:induction false} RegisterBeforeComma(a: string, b: string)
    requires IsRegisterName(a)
    ensures Tokenize(a + ("," + b)) == [Operand(Upper(a))] + Tokenize("," + b)
  {
    NotAKeyword(a);
    OperandLexeme(a, "," + b);
  }

  lemma RegroupPair(a: string, b: string)
    ensures a + "," + b == a + ("," + b)
  {
  }

  lemma {:induction false} CommaThenRegister(b: string)
    requires IsRegisterName(b)
    ensures Tokenize("," + b) == [Comma, Operand(Upper(b))]
  {
    RegisterAlone(b);
    CommaLexeme(b);
  }

  /** A lone `;` is an empty comment. */
  lemma EmptyComment()
    ensures Tokenize(";") == [Comment("")]
  {
    CommentLexeme("", "");
    assert ";" + "" + "" == ";";
  }

  /** A character no rule accepts is dropped, and the scan goes on: a
      mnemonic, a stray character and a register, space-separated, give the
      mnemonic and the register. */
  lemma {:induction false} StrayBetween(w: string, c: char, r: string)
    requires OneOf(Upper(w), OPCODES) && IsStray(c) && IsRegisterName(r)
    ensures Tokenize(w + " " + [c] + " " + r) == [Opcode(Upper(w)), Operand(Upper(r))]
  {
    StrayThenRegister(c, r);
    OpcodeWins(w, " " + [c] + " " + r);
    Regroup(w, c, r);
  }

  lemma Regroup(w: string, c: char, r: string)
    ensures w + " " + [c] + " " + r == w + (" " + [c] + " " + r)
  {
  }

  lemma {:induction false} StrayThenRegister(c: char, r: string)
    requires IsStray(c) && IsRegisterName(r)
    ensures Tokenize(" " + [c] + " " + r) == [Operand(Upper(r))]
  {
    DroppedThenRegister(c, r);
    RegroupStray(c, r);
    SkipRunInvisible(" ", [c] + " " + r);
  }

  lemma RegroupStray(c: char, r: string)
    ensures " " + [c] + " " + r == " " + ([c] + " " + r)
    ensures ([c] + " " + r)[0] == c
  {
  }

  lemma {:induction false} DroppedThenRegister(c: char, r: string)
    requires IsStray(c) && IsRegisterName(r)
    ensures Tokenize([c] + " " + r) == [Operand(Upper(r))]
  {
    SpaceThenRegister(r);
    UnmatchedCharDropped(c, " " + r);
    assert [c] + " " + r == [c] + (" " + r);
  }

  lemma {:induction false} SpaceThenRegister(r: string)
    requires IsRegisterName(r)
    ensures Tokenize(" " + r) == [Operand(Upper(r))]
  {
    RegisterAlone(r);
    SkipRunInvisible(" ", r);
  }

  /** A register name on its own is one Operand token. */
  lemma {:induction false} RegisterAlone(r: string)
    requires IsRegisterName(r)
    ensures Tokenize(r) == [Operand(Upper(r))]
  {
    NotAKeyword(r);
    OperandLexeme(r, "");
    assert r + "" == r;
  }

  lemma StrayCharacterDropped()
    ensures Tokenize("MOV $ A") == [Opcode("MOV"), Operand("A")]
  {
    MoveSpelling();
    StrayBetween("MOV", '$', "A");
  }

  lemma MoveSpelling()
    ensures OneOf(Upper("MOV"), OPCODES)
    ensures Upper("MOV") == "MOV" && Upper("A") == "A" && IsRegisterName("A")
    ensures "MOV" + " " + ['$'] + " " + "A" == "MOV $ A"
  {
    assert Upper("MOV") == "MOV";
    OneOfAt("MOV", OPCODES, 0);
  }

  /** Every mnemonic, in any letter case, is on its own one Opcode token. */
  lemma {:induction false} MnemonicAlone(w: string)
    requires OneOf(Upper(w), OPCODES)
    ensures Tokenize(w) == [Opcode(Upper(w))]
  {
    OpcodeWins(w, "");
    assert w + "" == w;
  }

  /** Every directive keyword, in any letter case, is on its own one Directive token. */
  lemma {:induction false} DirectiveAlone(w: string)
    requires OneOf(Upper(w), DIRECTIVES)
    ensures Tokenize(w) == [Directive(Upper(w))]
  {
    DirectiveWins(w, "");
    assert w + "" == w;
  }

  /** A mnemonic directly followed by `:` is a Label: the longer match wins. */
  lemma MnemonicAsLabel()
    ensures Tokenize("CALL:") == [Label("CALL")]
  {
    CallSpelling();
    LabelAlone("CALL");
  }

  lemma CallSpelling()
    ensures IsIdentifier("CALL") && Upper("CALL") == "CALL"
    ensures "CALL" + ":" == "CALL:"
  {
    assert Upper("CALL") == "CALL";
  }

  /** The comment callback drops the space after `;`, collapses the run of
      spaces between two words to one, and keeps the words as written. */
  lemma CommentSpacing(w1: string, w2: string)
    requires IsWord(w1) && IsWord(w2)
    ensures CleanComment("; " + w1 + "   " + w2) == Some(w1 + " " + w2)
  {
    var c := "; " + w1 + "   " + w2;
    assert c[1..] == " " + (w1 + (" " + (" " + (" " + w2))));
    WordsAfterSpace(' ', w1 + (" " + (" " + (" " + w2))));
    WordsAfterWord(w1, " " + (" " + (" " + w2)));
    WordsAfterSpace(' ', " " + (" " + w2));
    WordsAfterSpace(' ', " " + w2);
    WordsAfterSpace(' ', w2);
    WordsAfterWord(w2, "");
    assert w2 + "" == w2;
    assert Words(c[1..]) == [w1, w2];
    assert [w1, w2][1..] == [w2];
    assert Join([w1, w2]) == w1 + " " + w2;
  }

  /** Blank runs before, between and after tokens are invisible: a padded
      instruction scans exactly like its compact spelling. */
  lemma BlanksAreInvisible()
    ensures Tokenize("  MOV   A,  B  ") == Tokenize("MOV A,B")
    ensures Tokenize("MOV A,B") == [Opcode("MOV"), Operand("A"), Comma, Operand("B")]
  {
    MoveSpelling();
    PairSpelling();
    LineSpelling();
    SpacedInstruction("  ", "MOV", "   ", "A", "  ", "B", "  ");
    SpacedInstruction("", "MOV", " ", "A", "", "B", "");
  }

  lemma LineSpelling()
    ensures "  " + ("MOV" + ("   " + ("A" + ("," + ("  " + ("B" + "  ")))))) == "  MOV   A,  B  "
    ensures "" + ("MOV" + (" " + ("A" + ("," + ("" + ("B" + "")))))) == "MOV A,B"
    ensures IsBlank("  ") && IsBlank("   ") && IsBlank(" ") && IsBlank("")
  {
  }

  /** A mnemonic and two comma-separated registers, with any blank runs
      around them (at least one blank after the mnemonic, which would
      otherwise run into the register), scan to the same four tokens. */
  lemma {:induction false} SpacedInstruction(p: string, w: string, q: string, a: string, r: string, b: string, t: string)
    requires OneOf(Upper(w), OPCODES) && IsRegisterName(a) && IsRegisterName(b)
    requires IsBlank(p) && IsBlank(q) && |q| > 0 && IsBlank(r) && IsBlank(t)
    ensures Tokenize(p + (w + (q + (a + ("," + (r + (b + t))))))) ==
            [Opcode(Upper(w)), Operand(Upper(a)), Comma, Operand(Upper(b))]
  {
    var tail := a + ("," + (r + (b + t)));
    SpacedOperands(a, r, b, t);
    MnemonicThenBlanks(w, q, tail);
    BlanksBefore(p, w + (q + tail));
  }

  lemma {:induction false} MnemonicThenBlanks(w: string, q: string, tail: string)
    requires OneOf(Upper(w), OPCODES) && IsBlank(q) && |q| > 0
    ensures Tokenize(w + (q + tail)) == [Opcode(Upper(w))] + Tokenize(tail)
  {
    assert (q + tail)[0] == q[0];
    OpcodeWins(w, q + tail);
    BlanksBefore(q, tail);
  }

  lemma {:induction false} SpacedOperands(a: string, r: string, b: string, t: string)
    requires IsRegisterName(a) && IsRegisterName(b) && IsBlank(r) && IsBlank(t)
    ensures Tokenize(a + ("," + (r + (b + t)))) == [Operand(Upper(a)), Comma, Operand(Upper(b))]
  {
    SpacedComma(r, b, t);
    NotAKeyword(a);
    OperandLexeme(a, "," + (r + (b + t)));
  }

  lemma {:induction false} SpacedComma(r: string, b: string, t: string)
    requires IsRegisterName(b) && IsBlank(r) && IsBlank(t)
    ensures Tokenize("," + (r + (b + t))) == [Comma, Operand(Upper(b))]
  {
    RegisterThenBlanks(b, t);
    BlanksBefore(r, b + t);
    CommaLexeme(r + (b + t));
  }

  lemma {:induction false} RegisterThenBlanks(b: string, t: string)
    requires IsRegisterName(b) && IsBlank(t)
    ensures Tokenize(b + t) == [Operand(Upper(b))]
  {
    NotAKeyword(b);
    OperandLexeme(b, t);
    WhitespaceOnlyInput(t);
  }

  /** A blank run, possibly empty, in front of any text changes nothing. */
  lemma {:induction false} BlanksBefore(p: string, x: string)
    requires IsBlank(p)
    ensures Tokenize(p + x) == Tokenize(x)
  {
    if |p| > 0 {
      SkipRunInvisible(p, x);
    } else {
      assert p + x == x;
    }
  }
}

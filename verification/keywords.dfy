/** The two closed keyword lists of the lexer: 8085 instruction mnemonics and
    assembler directives, both in their upper-case spelling. */
module Keywords {
  import opened Ascii

  /** The 67 mnemonics of the Opcode rule, in the order the rule lists them:
      data transfer, register and immediate arithmetic and logic, the
      remaining one-byte operations, branches, then stack, I/O and interrupt
      control. */
  const OPCODES: seq<string> := TRANSFER_OPS + ALU_OPS + ONE_BYTE_OPS + BRANCH_OPS + STACK_OPS

  const TRANSFER_OPS: seq<string> := ["MOV", "MVI", "LXI", "LDA", "STA", "LHLD", "SHLD", "LDAX", "STAX", "XCHG"]
  const ALU_OPS: seq<string> := ["ADD", "ADC", "SUB", "SBB", "ANA", "XRA", "ORA", "CMP",
                                 "ADI", "ACI", "SUI", "SBI", "ANI", "XRI", "ORI", "CPI"]
  const ONE_BYTE_OPS: seq<string> := ["RLC", "RRC", "RAL", "RAR", "CMA", "CMC", "STC", "HLT", "NOP",
                                      "DCR", "INR", "DAD", "DAA"]
  const BRANCH_OPS: seq<string> := ["JMP", "CALL", "RET", "JNZ", "JZ", "JNC", "JC", "JPO", "JPE", "JP", "JM",
                                    "CNZ", "CZ", "CNC", "CC", "CPO", "CPE", "CP", "CM"]
  const STACK_OPS: seq<string> := ["RIM", "SIM", "IN", "OUT", "PUSH", "POP", "XTHL", "SPHL", "PCHL"]

  /** The keywords of the Directive rule. */
  const DIRECTIVES: seq<string> := ["ORG", "DB", "DW", "DS", "EQU", "END"]

  /** No keyword of either list is longer than this. */
  const MAX_KEYWORD_LEN: nat := 4

  /** `u` is one of `words`, looked at one entry at a time. */
  predicate OneOf(u: string, words: seq<string>)
    decreases |words|
  {
    |words| > 0 && (u == words[0] || OneOf(u, words[1..]))
  }

  lemma {:induction false} OneOfIsMembership(u: string, words: seq<string>)
    ensures OneOf(u, words) <==> u in words
    decreases |words|
  {
    if |words| > 0 {
      OneOfIsMembership(u, words[1..]);
      assert words == [words[0]] + words[1..];
    }
  }

  /** A word is one of a concatenation when it is one of either part. */
  lemma {:induction false} OneOfConcat(u: string, a: seq<string>, b: seq<string>)
    ensures OneOf(u, a + b) <==> OneOf(u, a) || OneOf(u, b)
    decreases |a|
  {
    if |a| > 0 {
      assert (a + b)[1..] == a[1..] + b;
      OneOfConcat(u, a[1..], b);
    } else {
      assert a + b == b;
    }
  }

  /** The mnemonic list is one alternation: a word is a mnemonic exactly when
      it is in one of the five groups the list is assembled from. */
  lemma OpcodeGroups(u: string)
    ensures OneOf(u, OPCODES) <==>
              || OneOf(u, TRANSFER_OPS) || OneOf(u, ALU_OPS) || OneOf(u, ONE_BYTE_OPS)
              || OneOf(u, BRANCH_OPS) || OneOf(u, STACK_OPS)
  {
    OneOfConcat(u, TRANSFER_OPS, ALU_OPS);
    OneOfConcat(u, TRANSFER_OPS + ALU_OPS, ONE_BYTE_OPS);
    OneOfConcat(u, TRANSFER_OPS + ALU_OPS + ONE_BYTE_OPS, BRANCH_OPS);
    OneOfConcat(u, TRANSFER_OPS + ALU_OPS + ONE_BYTE_OPS + BRANCH_OPS, STACK_OPS);
  }

  /** Two to four upper-case letters. */
  predicate IsKeywordShaped(w: string) {
    && 2 <= |w| <= MAX_KEYWORD_LEN
    && forall i :: 0 <= i < |w| ==> IsUpper(w[i])
  }

  predicate AllKeywordShaped(words: seq<string>) {
    forall i :: 0 <= i < |words| ==> IsKeywordShaped(words[i])
  }

  /** A member of a list of keyword-shaped words is keyword-shaped. */
  lemma {:induction false} MemberShaped(u: string, words: seq<string>)
    requires AllKeywordShaped(words)
    ensures OneOf(u, words) ==> IsKeywordShaped(u)
    decreases |words|
  {
    if |words| > 0 && u != words[0] {
      MemberShaped(u, words[1..]);
    }
  }

  lemma OpcodesShaped()
    ensures AllKeywordShaped(OPCODES)
  {
    assert AllKeywordShaped(TRANSFER_OPS);
    assert AllKeywordShaped(ALU_OPS);
    assert AllKeywordShaped(ONE_BYTE_OPS);
    assert AllKeywordShaped(BRANCH_OPS);
    assert AllKeywordShaped(STACK_OPS);
  }

  lemma DirectivesShaped()
    ensures AllKeywordShaped(DIRECTIVES)
  {
  }

  /** The position of a member. */
  lemma {:induction false} MemberAt(u: string, words: seq<string>) returns (i: nat)
    requires OneOf(u, words)
    ensures i < |words| && words[i] == u
    decreases |words|
  {
    if u == words[0] {
      i := 0;
    } else {
      var j := MemberAt(u, words[1..]);
      i := j + 1;
    }
  }

  /** A word at some position of the list is one of it. */
  lemma {:induction false} OneOfAt(u: string, words: seq<string>, i: nat)
    requires i < |words| && words[i] == u
    ensures OneOf(u, words)
    decreases |words|
  {
    if i > 0 {
      OneOfAt(u, words[1..], i - 1);
    }
  }

  predicate Apart(words: seq<string>, others: seq<string>) {
    forall i, j :: 0 <= i < |words| && 0 <= j < |others| ==> words[i] != others[j]
  }

  lemma ApartConcat(a: seq<string>, b: seq<string>, others: seq<string>)
    requires Apart(a, others) && Apart(b, others)
    ensures Apart(a + b, others)
  {
    forall i, j | 0 <= i < |a + b| && 0 <= j < |others|
      ensures (a + b)[i] != others[j]
    {
      if i >= |a| {
        assert (a + b)[i] == b[i - |a|];
      }
    }
  }

  lemma OpcodesApartFromDirectives()
    ensures Apart(OPCODES, DIRECTIVES)
  {
    assert Apart(TRANSFER_OPS, DIRECTIVES);
    assert Apart(ALU_OPS, DIRECTIVES);
    assert Apart(ONE_BYTE_OPS, DIRECTIVES);
    assert Apart(BRANCH_OPS, DIRECTIVES);
    assert Apart(STACK_OPS, DIRECTIVES);
    ApartConcat(TRANSFER_OPS, ALU_OPS, DIRECTIVES);
    ApartConcat(TRANSFER_OPS + ALU_OPS, ONE_BYTE_OPS, DIRECTIVES);
    ApartConcat(TRANSFER_OPS + ALU_OPS + ONE_BYTE_OPS, BRANCH_OPS, DIRECTIVES);
    ApartConcat(TRANSFER_OPS + ALU_OPS + ONE_BYTE_OPS + BRANCH_OPS, STACK_OPS, DIRECTIVES);
  }

  /** No word is both a mnemonic and a directive, so the two keyword rules
      never accept the same text. */
  lemma KeywordListsDisjoint(u: string)
    ensures !(OneOf(u, OPCODES) && OneOf(u, DIRECTIVES))
  {
    OpcodesApartFromDirectives();
    if OneOf(u, OPCODES) && OneOf(u, DIRECTIVES) {
      var i := MemberAt(u, OPCODES);
      var j := MemberAt(u, DIRECTIVES);
    }
  }
}

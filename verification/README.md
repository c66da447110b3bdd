# lex8085 lexer model

A Dafny model of the lexer for Intel 8085 assembly source. The lexer is a
table of six token rules: Opcode, Operand, Comment, Directive, Label and
Comma. It also has a skip rule for blanks, and a `create_tokens` entry point
that runs the table over a string and keeps every token it produced.

Modules:

- `Ascii`: character classes, ASCII upper-casing, and the longest-run helper
  `Span`.
- `Keywords`: the 67 mnemonics and 6 directives, in the source's order.
- `Tokens`: the `Token` type and the two payload callbacks:
  - `CleanLabel` upper-cases the label and drops its colon;
  - `CleanComment` strips the `;`, splits on whitespace and re-joins with
    single spaces.
- `Rules`: the language of each rule's pattern (`Matches`), each rule's
  longest prefix (`MatchLen`), and the matching engine `Lex`. The engine
  takes the longest prefix any rule accepts; on an equal length, an exact
  keyword beats Operand. A second construction of the engine, `LexByRules`,
  picks the best of the per-rule candidates, and is proved to agree with
  `Lex`.
- `Lexer`: the scan. At each position it does one of three things:
  - skips a run of `[ \t\n\f]`;
  - emits the token of the engine's match;
  - drops one character that no rule accepts.

  It is modelled three ways: `Tokenize` (a function), `CreateTokens` (the
  cursor loop) and `Trace` (the scan with input spans). The module also
  holds the lemmas that say what the scan does around keywords, operands,
  labels, commas, comments, blanks and stray characters.
- `CaseFold`: inputs that differ only in letter case give the same tokens,
  up to the letter case of comment text.
- `Examples`: the scan of short 8085 source lines, token by token.

The matching engine itself is generated code that the source only
configures, so its policy is stated here explicitly:

- a run of blanks is skipped;
- otherwise the longest match is taken;
- an equal-length tie between a keyword rule and Operand goes to the keyword;
- if no rule accepts any prefix, exactly one character is dropped; the
  engine reports an error item there, and `create_tokens` discards error
  items with `filter_map(|op| op.ok())`. How much text one error item
  covers is up to the engine; one character is a modelling choice (see
  "## Left out").

`RulesOverlapOnlyOnKeywords` proves that the keyword/Operand tie is the only
tie that can occur.

The rules overlap. The engine settles overlaps by longest match, not by the
order in which the rules are declared, so:

- `CALL:` is one Label, not the Opcode `CALL` followed by an unmatched `:`
  (`Examples.MnemonicAsLabel`);
- a letter run such as `INX` that merely starts with a mnemonic is one
  Operand, by `Lexer.OperandLexeme`.

## Model

| member | source | states |
|---|---|---|
| Keywords.KeywordListsDisjoint | src/lib.rs:17-27 | no word is both a mnemonic of the Opcode rule and a keyword of the Directive rule |
| Ascii.ToUpper | src/lib.rs:4 | `to_uppercase` on one ASCII character: a letter becomes the upper-case letter 32 code points below a lower-case one, and every other character is unchanged |
| Ascii.Upper | src/lib.rs:17-29 | `to_uppercase` on a slice keeps its length; `Ascii.UpperChars` states that it maps each character by `ToUpper` |
| Ascii.UpperChars | src/lib.rs:17-29 | upper-casing a slice maps every position by `ToUpper`: each lower-case letter moves down 32 code points to its capital, nothing else changes, no lower-case letter is left, and upper-casing is idempotent |
| Keywords.OneOfIsMembership | src/lib.rs:17 | the alternation test on a keyword list accepts exactly the list's members |
| Keywords.OneOfConcat | src/lib.rs:17 | a word is in a concatenation of keyword groups exactly when it is in one of the groups |
| Keywords.OpcodeGroups | src/lib.rs:17 | a word is a mnemonic exactly when it is in one of the five groups the mnemonic list is assembled from, so the grouping keeps the single alternation |
| Keywords.MemberShaped | src/lib.rs:17 | a member of a list of two-to-four capital-letter words has that shape |
| Keywords.MemberAt | src/lib.rs:17 | every accepted keyword sits at some position of the list |
| Keywords.OneOfAt | src/lib.rs:17 | the word at any position of a keyword list is accepted |
| Tokens.CleanLabel | src/lib.rs:3-7 | the label payload is one character shorter than the match, and with the match's upper-cased last character appended it is the upper-cased match |
| Tokens.CleanComment | src/lib.rs:9-12 | the callback succeeds exactly when the text starts with `;`; the payload has canonical spacing (no leading, trailing or doubled whitespace) and the same whitespace-separated words as the text after the `;` |
| Tokens.Words | src/lib.rs:10 | `split_whitespace` yields only non-empty, whitespace-free words |
| Tokens.Join | src/lib.rs:10 | the single-space join of a non-empty word list has length `TotalLen(ws) + |ws| - 1`; its content is pinned by `Tokens.JoinWellSpaced` and `Tokens.WordsOfJoin` |
| Tokens.WordsOfJoin | src/lib.rs:10 | splitting the single-space join of whitespace-free words gives the words back |
| Tokens.JoinWellSpaced | src/lib.rs:10 | the single-space join of words has no leading, trailing or doubled whitespace |
| Tokens.WordsUpper | src/lib.rs:10 | splitting commutes with upper-casing |
| Tokens.JoinUpper | src/lib.rs:10 | joining commutes with upper-casing |
| Tokens.CleanCommentCaseInsensitive | src/lib.rs:9-12 | comment texts that differ only in letter case both succeed or both fail, and their payloads differ only in letter case |
| Rules.MatchLen | src/lib.rs:17-33 | each rule's computed length is the longest prefix its pattern accepts, 0 when it accepts none |
| Rules.Matches | src/lib.rs:17-33 | the language of each rule's pattern, against which every length and engine contract is stated |
| Rules.OperandLen | src/lib.rs:20 | the longest prefix that is a register, a hex literal `[0-9A-F]{1,4}H` or a letter run, in either case |
| Rules.CommentLen | src/lib.rs:23 | the longest `;` prefix that stops before the first newline |
| Rules.LabelLen | src/lib.rs:29 | the longest prefix that is a letter run directly followed by `:` |
| Rules.KeywordPrefixLen | src/lib.rs:17 | the longest prefix whose upper-cased form is one of the keywords |
| Rules.CommaLen | src/lib.rs:32 | the `,` rule accepts one leading comma and nothing longer |
| Rules.HexLiteralPrefixes | src/lib.rs:20 | a hex-literal prefix can only end right after the run of hex digits, at an `H` |
| Rules.LabelPrefixes | src/lib.rs:29 | a label prefix can only end right after the run of letters, at a `:` |
| Rules.RulesOverlapOnlyOnKeywords | src/lib.rs:17-33 | two different rules accept the same text only when one is Operand and the other an exact-keyword rule |
| Rules.MatchedTextShape | src/lib.rs:17-33 | what each rule's matched text starts and ends with: comments with `;`, commas with `,`, labels end in `:`, keywords are at least two letters |
| Rules.Winner | src/lib.rs:17-33 | the rule that takes a text accepts it; every other accepting rule is Operand losing to a keyword; none is returned exactly when no rule accepts |
| Rules.LongestLen | src/lib.rs:14-33 | the scan from the longest prefix down stops at a length some rule accepts, and no rule accepts any longer prefix within the bound |
| Rules.Lex | src/lib.rs:14-33 | the engine takes a prefix some rule accepts; no rule accepts a longer prefix; only Operand, losing to a keyword, ties with it; no match exactly when no rule accepts any prefix |
| Rules.LexByRules | src/lib.rs:14-33 | the best of the per-rule longest matches satisfies the same four properties |
| Rules.Best | src/lib.rs:14-33 | the chosen candidate is one of them, is no shorter than any, and is a keyword when a keyword candidate has the same length |
| Rules.LongestMatchUnique | src/lib.rs:14-33 | the longest-match policy leaves at most one admissible match |
| Rules.LexIsLongestMatch | src/lib.rs:14-33 | any match the policy admits is the one the engine returns |
| Rules.EnginesAgree | src/lib.rs:14-33 | the two constructions of the engine give the same answer on every input |
| Rules.Emit | src/lib.rs:17-33 | each callback builds a token of its own rule whose payload is well formed: a listed keyword, upper-case letters and digits, or canonically spaced comment text |
| Rules.OperandPayload | src/lib.rs:20-21 | the Operand payload is non-empty upper-case letters and digits |
| Rules.LabelPayload | src/lib.rs:3-7 | the Label payload with a colon appended is the upper-cased match; it is non-empty, all capital letters, with no colon |
| Lexer.NextStep | src/lib.rs:15 | every step of the scan consumes at least one character and never more than remain |
| Lexer.NextStepSpec | src/lib.rs:15-37 | a step skips a whole blank run exactly when the input starts with a blank; drops one character exactly when no rule accepts anything; otherwise emits the token of the longest match |
| Lexer.Tokenize | src/lib.rs:36-39 | there are never more tokens than input characters |
| Lexer.TokenizeWellFormed | src/lib.rs:36-39 | every token of the scan has a well-formed payload |
| Lexer.CreateTokens | src/lib.rs:36-39 | the cursor loop returns exactly the tokens of the scan, in order |
| Lexer.TraceAgreesWithTokenize | src/lib.rs:36-39 | the located scan and the plain scan emit the same tokens |
| Lexer.TraceSpansInOrder | src/lib.rs:36-39 | token spans are non-empty, within the input, and strictly left to right without overlap |
| Lexer.TraceLexedFrom | src/lib.rs:17-39 | every token is what its rule's callback makes of the text of its own span, which that rule accepts |
| Lexer.EmittedLexeme | src/lib.rs:17-37 | an emitted token is its rule's callback applied to the consumed text |
| Lexer.SkipRunInvisible | src/lib.rs:15 | a run of space, tab, newline or form feed in front of any text changes nothing in the token list |
| Lexer.SkipPrefixStep | src/lib.rs:15 | a scan that starts on a blank run resumes after that run and after all skip-space that follows it |
| Lexer.WhitespaceOnlyInput | src/lib.rs:15 | input made only of blanks gives no tokens |
| Lexer.SkipAll | src/lib.rs:15 | a blank-only input is consumed by a single skip step |
| Lexer.UnmatchedCharDropped | src/lib.rs:37 | a character no rule can start with is dropped and lexing goes on with the next character |
| Lexer.EmitsMatch | src/lib.rs:14-37 | when a rule accepts exactly the longest prefix and wins any tie, the scan emits that rule's token and continues after it |
| Lexer.NoMatchAcrossBoundary | src/lib.rs:17-33 | outside comments, no rule accepts text running over a boundary character |
| Lexer.MatchedCharsNoBoundary | src/lib.rs:17-29 | keyword, operand and label texts hold only letters and digits, with a colon allowed at the end |
| Lexer.MatchedFirstChar | src/lib.rs:17-33 | every match starts with a letter, a digit, `;` or `,` |
| Lexer.OnlyCommentStartsWithSemicolon | src/lib.rs:23 | only the Comment rule accepts text starting with `;` |
| Lexer.OpcodeWins | src/lib.rs:17-21 | a mnemonic in any letter case, ended by a boundary, is one upper-cased Opcode token, not an Operand |
| Lexer.DirectiveWins | src/lib.rs:20-27 | a directive in any letter case, ended by a boundary, is one upper-cased Directive token, not an Operand |
| Lexer.OperandLexeme | src/lib.rs:20-21 | a register, hex literal or non-keyword letter run, ended by a boundary, is one upper-cased Operand token |
| Lexer.LabelWins | src/lib.rs:29-30 | a letter run directly followed by `:` is one Label token carrying the upper-cased run, even when the run is a mnemonic |
| Lexer.CommaLexeme | src/lib.rs:32-33 | a `,` is a Comma token, whatever follows |
| Lexer.CommentLexeme | src/lib.rs:9-12 | a `;` starts a comment that runs to the next newline or the end of the input; its payload is the single-space join of the words after the `;` |
| CaseFold.MatchesIgnoresCase | src/lib.rs:17-29 | every rule accepts a text exactly when it accepts that text in any other letter case |
| CaseFold.LexIgnoresCase | src/lib.rs:17-29 | the engine picks the same rule and length in either letter case |
| CaseFold.EmitIgnoresCase | src/lib.rs:17-30 | a callback makes the same token in either letter case, except that comment text keeps its case |
| CaseFold.NextStepIgnoresCase | src/lib.rs:15-30 | a step consumes the same length and emits the same token up to comment letter case, in either letter case |
| CaseFold.TokenizeIgnoresCase | src/lib.rs:14-39 | inputs that differ only in letter case give the same tokens, up to the letter case of comment text |
| CaseFold.FoldCaseAll | src/lib.rs:10 | folding a token list keeps its length and folds each token in place, so only comment text (the one payload `clean_comment` leaves in its written case) changes |
| CaseFold.NoCommentWithoutSemicolon | src/lib.rs:23 | input without a `;` scans to no Comment token, so folding comment case leaves its tokens unchanged |
| CaseFold.CommentFreeIgnoresCase | src/lib.rs:14-39 | two inputs without `;` that differ only in letter case give exactly the same tokens |
| Examples.CompareImmediateIsOneOpcode | src/lib.rs:17 | `CPI` is the single Opcode `CPI` |
| Examples.NotAKeyword | src/lib.rs:17-26 | text that is not two to four letters is neither a mnemonic nor a directive |
| Examples.MnemonicAlone | src/lib.rs:17-18 | every mnemonic on its own, in any letter case, is one Opcode token |
| Examples.DirectiveAlone | src/lib.rs:26-27 | every directive on its own, in any letter case, is one Directive token |
| Examples.LowerCaseLabel | src/lib.rs:3-7 | `start:` is the single Label `START` |
| Examples.ShortHexLiteral | src/lib.rs:20 | `42H` is the single Operand `42H` |
| Examples.LongHexLiteral | src/lib.rs:20 | `2000H` is the single Operand `2000H` |
| Examples.OverlongHexLiteral | src/lib.rs:20 | `12345H`, one digit over `[0-9A-F]{1,4}H`, loses its first digit and scans to [Operand("2345H")] |
| Examples.OverlongHexRejected | src/lib.rs:17-33 | no rule accepts any prefix of `12345H`, so the scan drops a character there |
| Examples.ResumedHexLiteral | src/lib.rs:20 | after the walked prefix `1234` of `12345H`, the remaining `5H` is the single Operand `5H` |
| Examples.RegisterPair | src/lib.rs:20-33 | `A,B` is Operand `A`, Comma, Operand `B` |
| Examples.EmptyComment | src/lib.rs:9-12 | a lone `;` is the Comment with empty text |
| Examples.RegistersWithComma | src/lib.rs:20-33 | two register names around a comma are two upper-cased Operands around a Comma |
| Examples.LabelAlone | src/lib.rs:29-30 | a letter run followed by `:` and nothing else is one Label carrying the upper-cased run |
| Examples.RegisterAlone | src/lib.rs:20 | a register name on its own is one upper-cased Operand |
| Examples.StrayBetween | src/lib.rs:36-39 | mnemonic, stray character, register, separated by spaces, give the Opcode and the Operand only |
| Examples.StrayCharacterDropped | src/lib.rs:36-39 | `MOV $ A` is Opcode `MOV` then Operand `A`; the `$` is dropped |
| Examples.MnemonicAsLabel | src/lib.rs:17-30 | `CALL:` is the single Label `CALL`: the longer match wins over the mnemonic |
| Examples.CommentSpacing | src/lib.rs:9-12 | the comment callback drops the space after `;` and collapses a run of spaces between two words to one |
| Examples.BlanksAreInvisible | src/lib.rs:15 | `  MOV   A,  B  ` scans exactly like `MOV A,B`, to Opcode, Operand, Comma, Operand |
| Examples.SpacedInstruction | src/lib.rs:15-32 | a mnemonic and two comma-separated registers, with any blank runs around them and at least one after the mnemonic, give the same four tokens |

## Left out

- The generated matching engine (its DFA, rule priorities and error item) is
  not modelled as such. Its behaviour is stated as the explicit policy `Lex`:
  longest match, keyword over Operand on a tie, one dropped character when
  nothing matches.
- Unicode case-insensitive matching: under the `(?i)` flag, a few non-ASCII
  characters fold to ASCII letters, such as U+212A KELVIN SIGN to `k` and
  U+017F LATIN SMALL LETTER LONG S to `s`. The rules here accept ASCII
  letters only.
- Unicode upper-casing: `to_uppercase` also maps non-ASCII letters, and can
  lengthen a string. The model upper-cases ASCII only. Every Opcode,
  Directive, Operand and Label match is made of ASCII letters and digits, so
  only comment text could differ, and comments are not upper-cased.
- Tokens.CleanComment: the `?` failure path of `strip_prefix(";")` can never
  be taken, because the engine only calls the callback on a `;` match. It
  is modelled as `None`, and `Emit` takes the `Some` value.
- Lexer.NextStep: where no rule accepts any prefix, the model drops exactly
  one character and rescans. The generated engine decides how much text its
  error item covers, and after a partial walk (say, of a hex literal that
  turns out too long) it may cover the whole walked prefix. The choice is
  observable: the model scans `12345H`, one digit too many for
  `[0-9A-F]{1,4}H`, to the single Operand `2345H`
  (`Examples.OverlongHexLiteral`). An engine whose error item covers the
  walked prefix `1234` (after four hex digits only `H` may follow) resumes
  at `5H` and yields the Operand `5H` instead (`Examples.ResumedHexLiteral`).
- Lexer.CreateTokens: the error items of the engine are never materialised;
  the loop skips the dropped character directly, and `filter_map(|op|
  op.ok())` would discard those items anyway.
- The test at src/lib.rs:41-60 only prints the tokens of a sample program.
  The model restates it piecewise through the worked examples (hex literals,
  registers, comments, keywords, blanks), not as one whole-program lemma.
- Owned `String` values and allocation are modelled as immutable sequences
  of characters.

/** Character classes, ASCII case mapping and the longest-run helper that
    every lexical rule of the 8085 lexer is built from. */
module Ascii {

  predicate IsUpper(c: char) { 'A' <= c <= 'Z' }

  predicate IsLower(c: char) { 'a' <= c <= 'z' }

  predicate IsLetter(c: char) { IsUpper(c) || IsLower(c) }

  predicate IsDigit(c: char) { '0' <= c <= '9' }

  predicate IsHexDigit(c: char) { IsDigit(c) || 'A' <= c <= 'F' || 'a' <= c <= 'f' }

  /** The character class of the lexer's skip rule: space, tab, newline and form feed. */
  predicate IsSkipSpace(c: char) { c == ' ' || c == '\t' || c == '\n' || c == '\U{000C}' }

  /** Characters with the Unicode White_Space property: the separators of `split_whitespace`. */
  predicate IsWhitespace(c: char) {
    || ('\t' <= c <= '\r')
    || c == ' ' || c == '\U{0085}' || c == '\U{00A0}' || c == '\U{1680}'
    || ('\U{2000}' <= c <= '\U{200A}')
    || c == '\U{2028}' || c == '\U{2029}' || c == '\U{202F}' || c == '\U{205F}' || c == '\U{3000}'
  }

  predicate IsWordChar(c: char) { !IsWhitespace(c) }

  predicate IsNotNewline(c: char) { c != '\n' }

  /** ASCII upper-casing; every other character is left alone. */
  function ToUpper(c: char): (u: char)
    ensures IsLetter(c) ==> IsUpper(u) && (IsUpper(c) ==> u == c)
    ensures !IsLower(c) ==> u == c
    ensures IsLower(c) ==> u as int + 32 == c as int
  {
    if IsLower(c) then (c as int - 32) as char else c
  }

  /** ASCII upper-casing of a whole string. */
  function Upper(s: string): (u: string)
    ensures |u| == |s|
  {
    seq(|s|, i requires 0 <= i < |s| => ToUpper(s[i]))
  }

  /** Upper-casing maps each character by `ToUpper`: a lower-case letter
      becomes its capital, 32 code points down, and nothing else changes;
      so no lower-case letter is left and upper-casing is idempotent. */
  lemma UpperChars(s: string)
    ensures forall i :: 0 <= i < |s| ==> Upper(s)[i] == ToUpper(s[i])
    ensures forall i :: 0 <= i < |s| && IsLower(s[i]) ==> Upper(s)[i] as int + 32 == s[i] as int
    ensures forall i :: 0 <= i < |s| ==> !IsLower(Upper(s)[i])
    ensures forall i :: 0 <= i < |s| && !IsLower(s[i]) ==> Upper(s)[i] == s[i]
    ensures Upper(Upper(s)) == Upper(s)
  {
  }

  /** Upper-casing never changes which class a character belongs to,
      except that lower-case letters become upper-case ones. */
  lemma ToUpperKeepsClasses(c: char)
    ensures IsLetter(ToUpper(c)) == IsLetter(c)
    ensures IsHexDigit(ToUpper(c)) == IsHexDigit(c)
    ensures IsWhitespace(ToUpper(c)) == IsWhitespace(c)
    ensures IsSkipSpace(ToUpper(c)) == IsSkipSpace(c)
    ensures !IsLetter(c) ==> ToUpper(c) == c
    ensures IsUpper(ToUpper(c)) ==> IsLetter(c)
  {
  }

  lemma UpperSlice(s: string, i: nat, j: nat)
    requires i <= j <= |s|
    ensures Upper(s[i..j]) == Upper(s)[i..j]
  {
  }

  lemma UpperTake(s: string, n: nat)
    requires n <= |s|
    ensures Upper(s[..n]) == Upper(s)[..n]
  {
  }

  lemma UpperDrop(s: string, n: nat)
    requires n <= |s|
    ensures Upper(s[n..]) == Upper(s)[n..]
  {
  }

  lemma UpperConcat(a: string, b: string)
    ensures Upper(a + b) == Upper(a) + Upper(b)
  {
  }

  /** Two strings that agree after upper-casing agree character by character after upper-casing. */
  lemma UpperAgrees(s: string, t: string)
    requires Upper(s) == Upper(t)
    ensures |s| == |t|
    ensures forall i :: 0 <= i < |s| ==> ToUpper(s[i]) == ToUpper(t[i])
  {
    forall i | 0 <= i < |s|
      ensures ToUpper(s[i]) == ToUpper(t[i])
    {
      assert Upper(s)[i] == Upper(t)[i];
    }
  }

  /** Length of the longest prefix of `s` whose characters all satisfy `p`. */
  function Span(s: string, p: char -> bool): (n: nat)
    ensures n <= |s|
    ensures forall i :: 0 <= i < n ==> p(s[i])
    ensures n < |s| ==> !p(s[n])
    decreases |s|
  {
    if |s| == 0 || !p(s[0]) then 0 else 1 + Span(s[1..], p)
  }

  /** The three properties in Span's contract pin its value down. */
  lemma SpanExact(s: string, p: char -> bool, n: nat)
    requires n <= |s|
    requires forall i :: 0 <= i < n ==> p(s[i])
    requires n < |s| ==> !p(s[n])
    ensures Span(s, p) == n
  {
  }

  /** Strings on which `p` agrees position by position have the same span. */
  lemma SpanAgree(s: string, t: string, p: char -> bool)
    requires |s| == |t|
    requires forall i :: 0 <= i < |s| ==> p(s[i]) == p(t[i])
    ensures Span(s, p) == Span(t, p)
  {
    SpanExact(t, p, Span(s, p));
  }

  /** Span of a string behind a prefix whose characters all satisfy `p`. */
  lemma SpanAfterPrefix(a: string, b: string, p: char -> bool)
    requires forall i :: 0 <= i < |a| ==> p(a[i])
    ensures Span(a + b, p) == |a| + Span(b, p)
  {
    var s := a + b;
    var m := Span(b, p);
    forall i | 0 <= i < |a| + m
      ensures p(s[i])
    {
      if i >= |a| {
        assert s[i] == b[i - |a|];
      }
    }
    if |a| + m < |s| {
      assert s[|a| + m] == b[m];
    }
    SpanExact(s, p, |a| + m);
  }
}

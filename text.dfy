/**
 * Character classes and greedy runs: the building blocks the regular expressions
 * of routes/index.js are made of.
 */
module Text {

  /**
   * JavaScript's `\s`: the ECMAScript WhiteSpace and LineTerminator characters. It takes
   * in the ASCII tab, line feed, vertical tab, form feed, carriage return and space, and
   * no printable ASCII character.
   */
  predicate IsSpace(c: char)
    ensures '\t' <= c <= '\r' || c == ' ' ==> IsSpace(c)
    ensures '!' <= c <= '~' ==> !IsSpace(c)
  {
    || c == ' ' || c == '\t' || c == '\n' || c == '\r'
    || c == '\U{B}' || c == '\U{C}' || c == '\U{A0}' || c == '\U{1680}'
    || ('\U{2000}' <= c <= '\U{200A}')
    || c == '\U{2028}' || c == '\U{2029}' || c == '\U{202F}' || c == '\U{205F}'
    || c == '\U{3000}' || c == '\U{FEFF}'
  }

  /** The character classes that occur under a `*` in the source's patterns. */
  datatype CharClass =
    | Space       // \s
    | NonSpace    // [^\s]
    | Token       // [^\s;]
    | NonNewline  // [^\n]
    | NonBrace    // [^\}]

  predicate InClass(c: char, k: CharClass) {
    match k
    case Space => IsSpace(c)
    case NonSpace => !IsSpace(c)
    case Token => !IsSpace(c) && c != ';'
    case NonNewline => c != '\n'
    case NonBrace => c != '}'
  }

  /** Every character of `s[i..j]` is in class `k`. */
  predicate AllIn(s: string, i: nat, j: nat, k: CharClass)
    requires i <= j <= |s|
  {
    forall m :: i <= m < j ==> InClass(s[m], k)
  }

  /** Every character of `w` is in class `k`. */
  predicate Word(w: string, k: CharClass) {
    forall m :: 0 <= m < |w| ==> InClass(w[m], k)
  }

  /**
   * Where a greedy `[k]*` that starts at `i` stops: the end of the longest run of
   * class-`k` characters beginning at `i`.
   */
  function RunEnd(s: string, i: nat, k: CharClass): (j: nat)
    requires i <= |s|
    ensures i <= j <= |s|
    ensures j == |s| || !InClass(s[j], k)
    decreases |s| - i
  {
    if i == |s| || !InClass(s[i], k) then i else RunEnd(s, i + 1, k)
  }

  /** Everything a greedy run passes over is in its class. */
  lemma {:induction false} RunEndSpan(s: string, i: nat, k: CharClass)
    requires i <= |s|
    ensures AllIn(s, i, RunEnd(s, i, k), k)
    decreases |s| - i
  {
    if i < |s| && InClass(s[i], k) {
      RunEndSpan(s, i + 1, k);
    }
  }

  /** A run is determined by where it starts: any maximal run ending at `j` is the greedy one. */
  lemma {:induction false} RunEndIs(s: string, i: nat, j: nat, k: CharClass)
    requires i <= j <= |s|
    requires AllIn(s, i, j, k)
    requires j == |s| || !InClass(s[j], k)
    ensures RunEnd(s, i, k) == j
    decreases j - i
  {
    if i < j {
      RunEndIs(s, i + 1, j, k);
    }
  }

  /** A greedy run reaches at least as far as any run of its class from the same start. */
  lemma {:induction false} RunEndCovers(s: string, i: nat, j: nat, k: CharClass)
    requires i <= j <= |s| && AllIn(s, i, j, k)
    ensures j <= RunEnd(s, i, k)
    decreases j - i
  {
    if i < j {
      RunEndCovers(s, i + 1, j, k);
    }
  }

  /** The literal `lit` occurs in `s` at offset `i`. */
  predicate LiteralAt(s: string, i: nat, lit: string) {
    i + |lit| <= |s| && s[i..i + |lit|] == lit
  }
}

// Inline markup: *bold*, _underline_, /italic/ and -strike-.
//
// The source finds the closing symbol with the anchored, lazily matched
// pattern  X([^\s|^X].*[^\s|^X])X  where X is the symbol. The pattern is
// modelled here by the predicate MatchEndsAt and the search FindClose: the
// inner text is at least two characters long, its first and last characters
// are neither white space nor '|', '^' or X, the characters between them are
// not line feeds, and the shortest such match is the one taken.
module HighlightRules {
  import opened CharClass

  /** The four markup symbols. */
  predicate IsMarkupSymbol(c: char) {
    c == '*' || c == '_' || c == '/' || c == '-'
  }

  /** A character allowed at either end of the inner text. */
  predicate IsInnerEdge(c: char, x: char) {
    !IsSpace(c) && c != '|' && c != '^' && c != x
  }

  /** The pattern matches text[p..q + 1]: the symbol at p, inner text
      text[p + 1..q], the symbol again at q. */
  predicate MatchEndsAt(text: seq<char>, p: int, q: int)
    requires 0 <= p < |text|
  {
    var x := text[p];
    && p + 3 <= q < |text|
    && text[q] == x
    && IsInnerEdge(text[p + 1], x)
    && IsInnerEdge(text[q - 1], x)
    && (forall k :: p + 2 <= k < q - 1 ==> text[k] != '\n')
  }

  /** The shortest match whose closing symbol is at `from` or later. */
  function FindClose(text: seq<char>, p: int, from: int): (r: int)
    requires 0 <= p < |text| && p + 3 <= from
    ensures r == -1 || (from <= r && MatchEndsAt(text, p, r))
    ensures forall q :: from <= q < |text| && (r == -1 || q < r) ==> !MatchEndsAt(text, p, q)
    decreases |text| - from
  {
    if from >= |text| then -1
    else if MatchEndsAt(text, p, from) then from
    else FindClose(text, p, from + 1)
  }

  /** Where highlightedText puts the closing symbol of markup opening at p:
      the shortest match, when the symbol follows white space (or starts the
      text) and white space (or the end of the text) follows the match; -1
      when there is no such markup at p. */
  function MarkupClose(text: seq<char>, p: int): (q: int)
    requires 0 <= p < |text|
    ensures q == -1 || (p + 3 <= q < |text| && MatchEndsAt(text, p, q))
  {
    if (p > 0 && !IsSpace(text[p - 1])) || !IsMarkupSymbol(text[p]) then -1
    else
      var q := FindClose(text, p, p + 3);
      if q < 0 || (q + 1 < |text| && !IsSpace(text[q + 1])) then -1 else q
  }

  /** Markup at p closes at q exactly when the symbol at p is a markup
      symbol after white space, q closes the shortest match, and white space
      follows q. */
  lemma MarkupCloseMeaning(text: seq<char>, p: int, q: int)
    requires 0 <= p < |text|
    ensures MarkupClose(text, p) == q && q >= 0 <==>
      && (p == 0 || IsSpace(text[p - 1]))
      && IsMarkupSymbol(text[p])
      && p + 3 <= q && MatchEndsAt(text, p, q)
      && (forall k :: p + 3 <= k < q ==> !MatchEndsAt(text, p, k))
      && (q + 1 == |text| || IsSpace(text[q + 1]))
  {
    if (p == 0 || IsSpace(text[p - 1])) && IsMarkupSymbol(text[p]) && p + 3 <= q && MatchEndsAt(text, p, q) {
      var f := FindClose(text, p, p + 3);
      if forall k :: p + 3 <= k < q ==> !MatchEndsAt(text, p, k) {
        assert f == q;
      }
    }
  }

  /** The markup emitted around the inner text, symbols included. */
  function OpenTag(x: char): string {
    if x == '*' then "<b>" else if x == '_' then "<u>" else if x == '/' then "<i>" else "<strike>"
  }

  function CloseTag(x: char): string {
    if x == '*' then "</b>" else if x == '_' then "</u>" else if x == '/' then "</i>" else "</strike>"
  }

  function Markup(x: char, inner: seq<char>): seq<char> {
    OpenTag(x) + [x] + inner + [x] + CloseTag(x)
  }
}

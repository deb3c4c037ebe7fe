// Character classes used by the plain-text scanner.
//
// The scanner asks Qt's Unicode tables (QChar::isLetterOrNumber, isDigit,
// isSpace, isPrint). Here they are ASCII approximations: a non-ASCII
// character is neither a letter, a digit nor a space, and counts as
// printable from U+00A0 on.
module CharClass {

  predicate IsDigit(c: char) {
    '0' <= c <= '9'
  }

  predicate IsLetter(c: char) {
    ('a' <= c <= 'z') || ('A' <= c <= 'Z')
  }

  predicate IsLetterOrNumber(c: char) {
    IsLetter(c) || IsDigit(c)
  }

  /** Tab, line feed, vertical tab, form feed, carriage return and space. */
  predicate IsSpace(c: char) {
    c == ' ' || ('\t' <= c <= '\r')
  }

  predicate IsPrint(c: char) {
    (' ' <= c <= '~') || c >= '\U{A0}'
  }

  predicate IsAscii(c: char) {
    c < '\U{80}'
  }

  /** The characters besides letters and digits that may appear in a
      dot-atom (section 3.2.4 of RFC 2822): . ! # $ % & ' * + - / = ? ^ _ `
      { | } ~ */
  predicate IsDotAtomSpecial(c: char) {
    c == '.' || c == '!' || c == '#' || c == '$' || c == '%' || c == '&' || c == '\'' ||
    c == '*' || c == '+' || c == '-' || c == '/' || c == '=' || c == '?' || c == '^' ||
    c == '_' || c == '`' || c == '{' || c == '|' || c == '}' || c == '~'
  }

  /** A character allowed in the local part of an address: an ASCII letter,
      digit or dot-atom special. */
  predicate IsLocalPartChar(c: char) {
    IsAscii(c) && (IsLetterOrNumber(c) || IsDotAtomSpecial(c))
  }

  /** A character allowed in the domain part of an address. */
  predicate IsDomainChar(c: char) {
    IsLetterOrNumber(c) || c == '.' || c == '-'
  }

  // White-space trimming. QString::trimmed and QByteArray::trimmed strip the
  // same characters under the ASCII approximation of IsSpace.

  function TrimEnd(s: seq<char>): (r: seq<char>)
    ensures |r| <= |s|
  {
    if s != [] && IsSpace(s[|s| - 1]) then TrimEnd(s[..|s| - 1]) else s
  }

  /** TrimEnd drops exactly the white space at the end: what it keeps is a
      prefix that does not end in white space, and all it drops is white
      space. */
  lemma {:induction false} TrimEndMeaning(s: seq<char>)
    ensures var r := TrimEnd(s);
      && r == s[..|r|]
      && (r == [] || !IsSpace(r[|r| - 1]))
      && forall k :: |r| <= k < |s| ==> IsSpace(s[k])
  {
    if s != [] && IsSpace(s[|s| - 1]) {
      var s' := s[..|s| - 1];
      TrimEndMeaning(s');
      var r := TrimEnd(s');
      assert s'[..|r|] == s[..|r|];
      forall k | |r| <= k < |s| ensures IsSpace(s[k]) {
        if k < |s| - 1 { assert s[k] == s'[k]; }
      }
    } else {
      assert s[..|s|] == s;
    }
  }

  function TrimStart(s: seq<char>): (r: seq<char>)
    ensures |r| <= |s|
  {
    if s != [] && IsSpace(s[0]) then TrimStart(s[1..]) else s
  }

  /** TrimStart drops exactly the white space at the start: what it keeps
      is a suffix that does not start with white space, all it drops is
      white space, and it keeps everything when the first character is not
      white space. */
  lemma {:induction false} TrimStartMeaning(s: seq<char>)
    ensures var r := TrimStart(s);
      && r == s[|s| - |r|..]
      && (r == [] || !IsSpace(r[0]))
      && (forall k :: 0 <= k < |s| - |r| ==> IsSpace(s[k]))
      && (s != [] && !IsSpace(s[0]) ==> r == s)
  {
    if s != [] && IsSpace(s[0]) {
      var s' := s[1..];
      TrimStartMeaning(s');
      var r := TrimStart(s');
      assert TrimStart(s) == r;
      assert s'[|s'| - |r|..] == s[|s| - |r|..];
      forall k | 0 <= k < |s| - |r| ensures IsSpace(s[k]) {
        if 0 < k { assert s[k] == s'[k - 1]; }
      }
    }
  }

  function Trimmed(s: seq<char>): seq<char> {
    TrimStart(TrimEnd(s))
  }

  /** How many elements of `s` equal `x`. */
  function Count<T(==)>(s: seq<T>, x: T): (n: nat)
    ensures n <= |s|
  {
    if s == [] then 0 else (if s[0] == x then 1 else 0) + Count(s[1..], x)
  }

  /** `x` occurs nowhere in `s` exactly when it is counted no time. */
  lemma {:induction false} CountZero<T>(s: seq<T>, x: T)
    ensures Count(s, x) == 0 <==> x !in s
  {
    if s != [] {
      CountZero(s[1..], x);
      assert s == [s[0]] + s[1..];
    }
  }

  lemma {:induction false} CountAppend<T>(a: seq<T>, b: seq<T>, x: T)
    ensures Count(a + b, x) == Count(a, x) + Count(b, x)
  {
    if a == [] {
      assert a + b == b;
    } else {
      assert (a + b)[1..] == a[1..] + b;
      CountAppend(a[1..], b, x);
    }
  }

  lemma CountPrefix<T>(s: seq<T>, k: nat, x: T)
    requires k <= |s|
    ensures Count(s[..k], x) <= Count(s, x)
  {
    assert s == s[..k] + s[k..];
    CountAppend(s[..k], s[k..], x);
  }
}

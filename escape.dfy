// The character escapes of the plain-text-to-HTML converter.
//
// Four characters are replaced by HTML entities (the escapes of
// QString::toHtmlEscaped and of the converter's own loop); in running text a
// line feed additionally becomes a "<br />" followed by the line feed.
module HtmlEscape {

  /** The entity escape of one character. */
  function EscapeChar(c: char): seq<char>
  {
    if c == '&' then "&amp;"
    else if c == '"' then "&quot;"
    else if c == '<' then "&lt;"
    else if c == '>' then "&gt;"
    else [c]
  }

  /** What the converter emits for one character of running text when no
      token starts there and spaces are not preserved. */
  function HtmlChar(c: char): seq<char>
  {
    if c == '\n' then "<br />\n" else EscapeChar(c)
  }

  /** Each character of `s` replaced by its image under `f`, in order. */
  function ConcatMap(s: seq<char>, f: char -> seq<char>): seq<char>
  {
    if s == [] then [] else ConcatMap(s[..|s| - 1], f) + f(s[|s| - 1])
  }

  /** The four entity escapes applied to every character (what the converter
      returns when it meets a malformed URL, and QString::toHtmlEscaped). */
  function EscapeEntities(s: seq<char>): seq<char>
  {
    ConcatMap(s, EscapeChar)
  }

  /** Every character mapped independently by HtmlChar. */
  function EscapeHtml(s: seq<char>): seq<char>
  {
    ConcatMap(s, HtmlChar)
  }

  /** A character-wise map distributes over concatenation. */
  lemma {:induction false} ConcatMapAppend(a: seq<char>, b: seq<char>, f: char -> seq<char>)
    ensures ConcatMap(a + b, f) == ConcatMap(a, f) + ConcatMap(b, f)
  {
    if b == [] {
      assert a + b == a;
    } else {
      var b', c := b[..|b| - 1], b[|b| - 1];
      var ab := a + b;
      assert ab[..|ab| - 1] == a + b' && ab[|ab| - 1] == c;
      calc {
        ConcatMap(ab, f);
        ConcatMap(a + b', f) + f(c);
        { ConcatMapAppend(a, b', f); }
        (ConcatMap(a, f) + ConcatMap(b', f)) + f(c);
        ConcatMap(a, f) + (ConcatMap(b', f) + f(c));
        ConcatMap(a, f) + ConcatMap(b, f);
      }
    }
  }

  /** The map of a text is the image of its first character followed by the
      map of the rest. */
  lemma ConcatMapCons(s: seq<char>, f: char -> seq<char>)
    requires s != []
    ensures ConcatMap(s, f) == f(s[0]) + ConcatMap(s[1..], f)
  {
    assert s == [s[0]] + s[1..];
    ConcatMapAppend([s[0]], s[1..], f);
    assert ConcatMap([s[0]], f) == ConcatMap([], f) + f(s[0]);
  }

  /** Text without line feeds is escaped the same way by both functions. */
  lemma {:induction false} EscapeHtmlWithoutNewline(s: seq<char>)
    requires '\n' !in s
    ensures EscapeHtml(s) == EscapeEntities(s)
  {
    if s != [] {
      EscapeHtmlWithoutNewline(s[..|s| - 1]);
      assert HtmlChar(s[|s| - 1]) == EscapeChar(s[|s| - 1]);
    }
  }

  /** The text with its entities escaped holds no raw '<', '>' or '"':
      each of them became an entity. */
  lemma {:induction false} EscapeEntitiesNoMarkup(s: seq<char>)
    ensures '<' !in EscapeEntities(s) && '>' !in EscapeEntities(s) && '"' !in EscapeEntities(s)
  {
    if s != [] {
      EscapeEntitiesNoMarkup(s[..|s| - 1]);
      var c := s[|s| - 1];
      assert '<' !in EscapeChar(c) && '>' !in EscapeChar(c) && '"' !in EscapeChar(c);
    }
  }

  /** `p` is a prefix of `s`, compared character by character. */
  predicate StartsWith(s: seq<char>, p: seq<char>): (b: bool)
    ensures b ==> |p| <= |s|
  {
    p == [] || (s != [] && s[0] == p[0] && StartsWith(s[1..], p[1..]))
  }

  lemma {:induction false} StartsWithConcat(p: seq<char>, rest: seq<char>)
    ensures StartsWith(p + rest, p)
  {
    if p != [] {
      assert (p + rest)[1..] == p[1..] + rest;
      StartsWithConcat(p[1..], rest);
    }
  }

  /** Reference decoder: the inverse of both escapes. */
  function Unescape(s: seq<char>): (r: seq<char>)
    ensures |r| <= |s|
  {
    if s == [] then []
    else if StartsWith(s, "&amp;") then ['&'] + Unescape(s[5..])
    else if StartsWith(s, "&quot;") then ['"'] + Unescape(s[6..])
    else if StartsWith(s, "&lt;") then ['<'] + Unescape(s[4..])
    else if StartsWith(s, "&gt;") then ['>'] + Unescape(s[4..])
    else if StartsWith(s, "<br />\n") then ['\n'] + Unescape(s[7..])
    else [s[0]] + Unescape(s[1..])
  }

  /** Decoding the escape of one character gives the character back and
      goes on after the escape. */
  lemma UnescapeCons(c: char, rest: seq<char>)
    ensures Unescape(HtmlChar(c) + rest) == [c] + Unescape(rest)
  {
    if c == '&' {
      UnescapeAmp(rest);
    } else if c == '"' {
      UnescapeQuot(rest);
    } else if c == '<' {
      UnescapeLt(rest);
    } else if c == '>' {
      UnescapeGt(rest);
    } else if c == '\n' {
      UnescapeBreak(rest);
    } else {
      assert HtmlChar(c) == [c];
      UnescapePlainCons(c, rest);
    }
  }

  lemma UnescapeAmp(rest: seq<char>)
    ensures Unescape("&amp;" + rest) == ['&'] + Unescape(rest)
  {
    var s := "&amp;" + rest;
    StartsWithConcat("&amp;", rest);
    assert s[5..] == rest;
  }

  lemma UnescapeQuot(rest: seq<char>)
    ensures Unescape("&quot;" + rest) == ['"'] + Unescape(rest)
  {
    var s := "&quot;" + rest;
    StartsWithConcat("&quot;", rest);
    assert s[1..][0] == 'q' && !StartsWith(s[1..], "amp;");
    assert s[6..] == rest;
  }

  lemma UnescapeLt(rest: seq<char>)
    ensures Unescape("&lt;" + rest) == ['<'] + Unescape(rest)
  {
    var s := "&lt;" + rest;
    StartsWithConcat("&lt;", rest);
    assert s[1..][0] == 'l' && !StartsWith(s[1..], "amp;") && !StartsWith(s[1..], "quot;");
    assert s[4..] == rest;
  }

  lemma UnescapeGt(rest: seq<char>)
    ensures Unescape("&gt;" + rest) == ['>'] + Unescape(rest)
  {
    var s := "&gt;" + rest;
    StartsWithConcat("&gt;", rest);
    assert s[1..][0] == 'g' && !StartsWith(s[1..], "amp;") && !StartsWith(s[1..], "quot;");
    assert !StartsWith(s[1..], "lt;");
    assert s[4..] == rest;
  }

  lemma UnescapeBreak(rest: seq<char>)
    ensures Unescape("<br />\n" + rest) == ['\n'] + Unescape(rest)
  {
    var s := "<br />\n" + rest;
    StartsWithConcat("<br />\n", rest);
    assert s[0] == '<' && s[7..] == rest;
  }

  lemma {:induction false} UnescapeEscapeHtml(s: seq<char>)
    ensures Unescape(EscapeHtml(s)) == s
  {
    if s != [] {
      ConcatMapCons(s, HtmlChar);
      UnescapeCons(s[0], EscapeHtml(s[1..]));
      UnescapeEscapeHtml(s[1..]);
    }
  }

  lemma UnescapePlainCons(c: char, rest: seq<char>)
    requires c != '&' && c != '<'
    ensures Unescape([c] + rest) == [c] + Unescape(rest)
  {
    var s := [c] + rest;
    assert s[0] == c && s[1..] == rest;
    assert !StartsWith(s, "&amp;") && !StartsWith(s, "&quot;") && !StartsWith(s, "&lt;");
    assert !StartsWith(s, "&gt;") && !StartsWith(s, "<br />\n");
  }

  lemma {:induction false} UnescapeEscapeEntities(s: seq<char>)
    ensures Unescape(EscapeEntities(s)) == s
  {
    if s != [] {
      ConcatMapCons(s, EscapeChar);
      var rest := EscapeEntities(s[1..]);
      if s[0] == '\n' {
        UnescapePlainCons('\n', rest);
      } else {
        assert EscapeChar(s[0]) == HtmlChar(s[0]);
        UnescapeCons(s[0], rest);
      }
      UnescapeEscapeEntities(s[1..]);
    }
  }
}

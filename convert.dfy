// KTextToHTML::convertToHtml: one pass over the text that escapes it for
// HTML, keeps line breaks (and, on request, spaces and tabs), and turns the
// URLs, addresses, phone numbers and inline markup the helper recognises
// into anchors and markup.
module TextToHtml {
  import opened CharClass
  import opened HtmlEscape
  import opened UrlRules
  import opened EmailRules
  import opened PhoneRules
  import opened HighlightRules
  import opened HtmlOutput
  import opened TextToHtmlHelper
  import opened TokenRules

  /** normalizePhoneNumber: the digits and '+' signs of a number, for the
      "tel:" link. */
  method NormalizePhoneNumber(s: seq<char>) returns (r: seq<char>)
    ensures r == PhoneChars(s)
  {
    r := [];
    var i := 0;
    while i < |s|
      invariant 0 <= i <= |s|
      invariant r == PhoneChars(s[..i])
    {
      assert s[..i + 1][..i] == s[..i];
      if IsDigit(s[i]) || s[i] == '+' {
        r := r + [s[i]];
      }
      i := i + 1;
    }
    assert s[..i] == s;
  }

  /** The tab loop of convertToHtml at column x: non-breaking spaces up to
      the next column that is a multiple of 8, and the column of the tab's
      last space. (x & 7 in the source is x % 8 here: both give the
      remainder in 0..7, negative x included.) */
  method TabStop(x: int) returns (out: seq<char>, last: int)
    ensures var n := |out| / 6;
      && out == Nbsps(n) && 1 <= n <= 8
      && (x + n) % 8 == 0
      && (forall k :: 1 <= k < n ==> !TabStopAt(x, k))
      && last == x + n - 1
    ensures |out| / 6 == TabWidth(x)
  {
    out := [];
    var col := x;
    out := out + Nbsp;
    col := col + 1;
    while col % 8 != 0
      invariant col - x == |out| / 6 && out == Nbsps(col - x) && 1 <= col - x <= 8
      invariant forall k :: 1 <= k < col - x ==> !TabStopAt(x, k)
      decreases 8 - (col - x)
    {
      WithinEight(x, col - x);
      out := out + Nbsp;
      col := col + 1;
    }
    last := col - 1;
    TabWidthMeaning(x, col - x);
  }

  /** Among eight consecutive columns one is a multiple of 8. */
  lemma WithinEight(x: int, m: int)
    requires 1 <= m && forall k :: 1 <= k <= m ==> !TabStopAt(x, k)
    ensures m < 8
  {
    var k := 8 - x % 8;
    assert TabStopAt(x, k);
  }

  /** The bad-URL loop of convertToHtml: the whole text with only the four
      entity escapes applied (line feeds kept as they are). */
  method EscapeEntitiesLoop(text: seq<char>) returns (r: seq<char>)
    ensures r == EscapeEntities(text)
  {
    r := [];
    var i := 0;
    while i < |text|
      invariant 0 <= i <= |text|
      invariant r == EscapeEntities(text[..i])
    {
      var c := text[i];
      assert text[..i + 1][..i] == text[..i] && text[..i + 1][i] == c;
      if c == '&' {
        r := r + "&amp;";
      } else if c == '"' {
        r := r + "&quot;";
      } else if c == '<' {
        r := r + "&lt;";
      } else if c == '>' {
        r := r + "&gt;";
      } else {
        r := r + [c];
      }
      i := i + 1;
    }
    assert text[..i] == text;
  }

  /** The space branch of convertToHtml with PreserveSpaces, at a space at
      index pos: a single space between words stays a breaking space; one at
      the start or end of a line, or at the end of the text, becomes a
      non-breaking space; a run of spaces becomes as many non-breaking
      spaces. `last` is the index of the last space consumed. */
  method PreservedSpace(text: seq<char>, pos: int, startOfLine: bool) returns (out: seq<char>, last: int)
    requires 0 <= pos < |text| && text[pos] == ' '
    ensures pos <= last < |text| && forall k :: pos <= k <= last ==> text[k] == ' '
    ensures pos + 1 == |text| ==> last == pos && out == Nbsp
    ensures pos + 1 < |text| && text[pos + 1] != ' ' ==>
      last == pos && out == (if startOfLine || text[pos + 1] == '\n' then Nbsp else " ")
    ensures pos + 1 < |text| && text[pos + 1] == ' ' ==>
      pos < last && out == Nbsps(last - pos + 1) && (last + 1 == |text| || text[last + 1] != ' ')
    ensures Span(Blank, pos, last + 1, out) == KeptSpace(text, pos, startOfLine)
  {
    if pos + 1 < |text| {
      if text[pos + 1] != ' ' {
        // a single space: breaking unless at the start or end of a line
        var endOfLine := text[pos + 1] == '\n';
        if !startOfLine && !endOfLine {
          out := " ";
        } else {
          out := Nbsp;
        }
        last := pos;
      } else {
        // a run of spaces: all non-breaking
        out := [];
        var p := pos;
        while p < |text| && text[p] == ' '
          invariant pos <= p <= |text|
          invariant forall k :: pos <= k < p ==> text[k] == ' '
          invariant out == Nbsps(p - pos)
        {
          out := out + Nbsp;
          p := p + 1;
        }
        assert p > pos + 1;
        last := p - 1;
        SpaceRunEndAt(text, pos, p);
      }
    } else {
      out := Nbsp;
      last := pos;
    }
  }

  /** QString::indexOf for one character: the first index holding c, or -1. */
  function IndexOf(s: seq<char>, c: char): (i: int)
    ensures -1 <= i < |s|
    ensures i == -1 <==> c !in s
    ensures 0 <= i ==> s[i] == c && c !in s[..i]
  {
    if s == [] then -1
    else if s[0] == c then 0
    else
      var j := IndexOf(s[1..], c);
      assert j >= 0 ==> s[..j + 1] == [s[0]] + s[1..][..j];
      if j < 0 then -1 else j + 1
  }

  /** The '@' of an address found at index p is the first '@' in it. */
  lemma AtIsFirst(text: seq<char>, s: int, p: int, e: int, maxLen: int)
    requires EmailAt(text, s, p, e, maxLen)
    ensures IndexOf(text[s..e], '@') == p - s
  {
    var a := text[s..e];
    EmailShape(text, s, p, e, maxLen);
    var i := IndexOf(a, '@');
    assert a[..p - s + 1][p - s] == '@';
    assert i <= p - s;
    assert i >= p - s by {
      assert i < 0 || a[i] == '@';
    }
  }

  /** convertToHtml, without the emoticon pass. telMatches[q] is the length
      of the anchored match of the telephone pattern at index q (0: none).
      Unless a malformed URL makes it fall back to escaping the entities of
      the whole text, the output is the rendering of spans that tile the
      text, each of them a faithful rendering of its piece and each the one
      the recognisers pick, in their order, where the previous one ends
      (Decided). The fallback happens at the first index, scanning from the
      start, where the recognisers report a malformed URL. */
  method ConvertToHtml(plainText: seq<char>, opts: Options, maxUrlLen: int, maxAddressLen: int, telMatches: seq<int>)
    returns (result: seq<char>, ghost badUrl: bool, ghost spans: seq<Span>, ghost badAt: int)
    requires |telMatches| == |plainText|
    requires forall q :: 0 <= q < |plainText| ==> TelMatch(plainText, q, telMatches[q])
    ensures badUrl ==> !opts.ignoreUrls && result == EscapeEntities(plainText)
    ensures badUrl ==> var lim, mark := Limits(maxUrlLen, maxAddressLen), MarkOf(spans);
      && 0 <= badAt < |plainText| && Tiles(spans, badAt)
      && Decided(plainText, opts, lim, telMatches, spans)
      && AllPassed(plainText, opts, lim, telMatches, mark, mark, badAt)
      && Tried(opts, plainText[badAt]) && TelFits(plainText, badAt, telMatches[badAt])
      && RecogniseAt(plainText, opts, lim, telMatches[badAt], mark, badAt) == MalformedUrl
    ensures !badUrl ==> (Tiles(spans, |plainText|)
      && AllValid(plainText, opts, Limits(maxUrlLen, maxAddressLen), spans) && result == Render(spans)
      && Decided(plainText, opts, Limits(maxUrlLen, maxAddressLen), telMatches, spans))
    ensures opts.ignoreUrls && !opts.highlightText && !opts.preserveSpaces ==>
      !badUrl && result == EscapeHtml(plainText) && Unescape(result) == plainText
  {
    var h := new Helper(plainText, 0, maxUrlLen, maxAddressLen);
    ghost var lim := Limits(maxUrlLen, maxAddressLen);
    result, badUrl, spans, badAt := [], false, [], 0;
    var x := 0;
    var startOfLine := true;
    // the characters since index mark were emitted escaped, one span each
    var mark := 0;
    ConvertedStart(plainText, opts, lim, telMatches);
    while h.pos < |plainText|
      invariant h.text == plainText && h.maxUrlLen == maxUrlLen && h.maxAddressLen == maxAddressLen
      invariant Tracked(plainText, opts, lim, telMatches, spans, result, mark, h.pos, x, startOfLine)
      decreases |plainText| - h.pos
    {
      var pos := h.pos;
      var span, bad, local, x', startOfLine';
      span, bad, local, x', startOfLine' := Step(h, opts, telMatches, mark, x, startOfLine);
      if bad {
        MalformedAtUrl(plainText, opts, lim, telMatches[pos], mark, pos);
        result := EscapeEntitiesLoop(plainText);
        badUrl, badAt := true, pos;
        return;
      }
      if span.start < pos {
        // an address: take its local part back out of the output
        StepAddress(plainText, opts, lim, telMatches, spans, result, mark, pos, x, startOfLine, span, local, x', startOfLine');
        result := Truncate(result, |result| - |local| - Count(local, '&') * 4) + span.out;
        spans := spans[..|spans| - |local|] + [span];
      } else {
        StepPicked(plainText, opts, lim, telMatches, spans, result, mark, pos, x, startOfLine, span, x', startOfLine');
        result, spans := result + span.out, spans + [span];
      }
      if span.token != Char {
        mark := span.end;
      }
      h.pos := h.pos + 1;
      x, startOfLine := x' + 1, startOfLine';
    }
    if opts.ignoreUrls && !opts.highlightText && !opts.preserveSpaces {
      PlainRender(plainText, opts, lim, spans);
      UnescapeEscapeHtml(plainText);
    }
  }

  /** The address branch of convertToHtml as written: the output so far is
      cut by the length of the address's local part (what precedes its
      first '@'), and by four more characters for each '&' in it, which was
      emitted as "&amp;"; then the "mailto:" anchor follows. */
  function AddressBranchAsWritten(result: seq<char>, address: seq<char>): (r: seq<char>)
    ensures var anchor := MailAnchor(address);
      |anchor| <= |r| && r[|r| - |anchor|..] == anchor && r[..|r| - |anchor|] <= result
  {
    var len := IndexOf(address, '@');
    var localPart := if len < 0 then address else address[..len];
    Truncate(result, |result| - len - Count(localPart, '&') * 4) + MailAnchor(address)
  }

  /** For an address text[s..e] around the '@' at p, the branch as written
      takes back the escapes of exactly text[s..p], which is what the
      model's converter takes back once those characters were emitted one
      by one. */
  lemma AddressBranchAgrees(text: seq<char>, s: int, p: int, e: int, maxLen: int, result: seq<char>)
    requires EmailAt(text, s, p, e, maxLen)
    ensures var local := text[s..p];
      AddressBranchAsWritten(result, text[s..e])
        == Truncate(result, |result| - |local| - Count(local, '&') * 4) + MailAnchor(text[s..e])
  {
    AtIsFirst(text, s, p, e, maxLen);
    assert text[s..e][..p - s] == text[s..p];
  }

  /** As written, convertToHtml takes an address's local part back out of
      the output by length alone, whatever it was emitted as. In
      "0123456789.a@b.com" with ConvertPhoneNumbers the text has what
      NumberThenTwo asks for with n = 10: the loop reaches the '@' having
      emitted the number at the start as a "tel:" anchor and ".a" as
      escaped characters. The address around the '@' starts at index 0,
      and the branch as written cuts that output inside the number's
      anchor. The model refuses the address: nothing is recognised at the
      '@'. */
  lemma LocalPartOverPhone()
    ensures var text, opts, lim := "0123456789.a@b.com", Options(false, false, false, true), Limits(4096, 255);
      var emitted := TelAnchor(text[0..10]) + HtmlChar(text[10]) + HtmlChar(text[11]);
      && PhoneAt(text, 0, text[0..10])
      && !AtUrl(text, 0) && !AtUrl(text, 10) && !AtUrl(text, 11)
      && emitted == TelAnchor("0123456789") + ".a"
      && EmailAround(text, 12, lim.maxAddressLen) == Address(0, 18)
      && AddressBranchAsWritten(emitted, text) == ("<a href=\"tel:" + "0123456789" + "\">" + "0123") + MailAnchor(text)
      && RecogniseAt(text, opts, lim, 0, 10, 12) == NoToken
  {
    var text, opts, lim := "0123456789.a@b.com", Options(false, false, false, true), Limits(4096, 255);
    LocalPartFacts();
    EmailAroundAtStart();
    NothingAtRefusedAddress(text, opts, lim, 10, 12);
    LocalPartAsWritten();
  }

  /** The branch as written on the output "0123456789.a@b.com" has when
      the loop reaches the '@'. */
  lemma LocalPartAsWritten()
    ensures var text := "0123456789.a@b.com";
      var emitted := TelAnchor(text[0..10]) + HtmlChar(text[10]) + HtmlChar(text[11]);
      && emitted == TelAnchor("0123456789") + ".a"
      && AddressBranchAsWritten(emitted, text) == ("<a href=\"tel:" + "0123456789" + "\">" + "0123") + MailAnchor(text)
  {
    EmittedBeforeAt();
    SpliceOverNumber();
  }

  /** What the loop has emitted for "0123456789.a@b.com" when it reaches
      the '@': the number's anchor, then ".a". */
  lemma EmittedBeforeAt()
    ensures var text := "0123456789.a@b.com";
      TelAnchor(text[0..10]) + HtmlChar(text[10]) + HtmlChar(text[11]) == TelAnchor("0123456789") + ".a"
  {
    var text := "0123456789.a@b.com";
    assert text[0..10] == "0123456789" && HtmlChar(text[10]) == "." && HtmlChar(text[11]) == "a";
  }

  /** The splice as written on the number's anchor followed by ".a". */
  lemma SpliceOverNumber()
    ensures var text := "0123456789.a@b.com";
      AddressBranchAsWritten(TelAnchor("0123456789") + ".a", text) == ("<a href=\"tel:" + "0123456789" + "\">" + "0123") + MailAnchor(text)
  {
    var text := "0123456789.a@b.com";
    AddressAtStart();
    AtIsFirst(text, 0, 12, 18, 255);
    assert text[0..18] == text;
    LocalPartHasNoAmpersand();
    AnchorCut();
    SpliceCut(TelAnchor("0123456789") + ".a", text, 12, ("<a href=\"tel:" + "0123456789" + "\">" + "0123"));
  }

  /** When an address's first '@' is n characters in and its local part has
      no '&', the branch as written cuts exactly n characters. */
  lemma SpliceCut(result: seq<char>, address: seq<char>, n: int, kept: seq<char>)
    requires 0 <= n <= |address| && IndexOf(address, '@') == n && Count(address[..n], '&') == 0
    requires Truncate(result, |result| - n) == kept
    ensures AddressBranchAsWritten(result, address) == kept + MailAnchor(address)
  {
  }

  /** What "0123456789.a@b.com" holds: the number at its start, and no URL
      at the indexes the converter reaches before the '@'. */
  lemma LocalPartFacts()
    ensures var text := "0123456789.a@b.com";
      && PhoneAt(text, 0, text[0..10])
      && !AtUrl(text, 0) && !AtUrl(text, 10) && !AtUrl(text, 11) && !AtUrl(text, 12)
  {
    NumberAtStart();
    assert "0123456789.a@b.com"[0..10] == "0123456789";
    NoUrlBeforeAt();
  }

  lemma NoUrlBeforeAt()
    ensures var text := "0123456789.a@b.com";
      !AtUrl(text, 0) && !AtUrl(text, 10) && !AtUrl(text, 11) && !AtUrl(text, 12)
  {
    var text := "0123456789.a@b.com";
    assert text[0] == '0' && text[10] == '.' && text[11] == 'a' && text[12] == '@';
    assert InsideWord(text, 11) && InsideWord(text, 12);
  }

  /** After a number the recognisers take at index 0 and two characters
      where they take nothing, the converter's loop has emitted the
      number's anchor and the two characters escaped, and the last token
      ends where the number does. */
  lemma NumberThenTwo(text: seq<char>, opts: Options, lim: Limits, telMatches: seq<int>, n: int)
    requires 0 < n && n + 2 <= |text| && |telMatches| == |text|
    requires telMatches[0] == n && telMatches[n] == 0 && telMatches[n + 1] == 0
    requires PhoneAt(text, 0, text[0..n])
    requires !opts.ignoreUrls && opts.convertPhoneNumbers && !opts.highlightText && !opts.preserveSpaces
    requires !AtUrl(text, 0) && !AtUrl(text, n) && !AtUrl(text, n + 1)
    requires Tried(opts, text[0]) && Tried(opts, text[n]) && Tried(opts, text[n + 1])
    requires text[0] != '@' && text[n] != '@' && text[n + 1] != '@'
    ensures var number := Span(Phone, 0, n, TelAnchor(text[0..n]));
      var first, second := Span(Char, n, n + 1, HtmlChar(text[n])), Span(Char, n + 1, n + 2, HtmlChar(text[n + 1]));
      Converted(text, opts, lim, telMatches, [number, first, second],
        TelAnchor(text[0..n]) + HtmlChar(text[n]) + HtmlChar(text[n + 1]), n, n + 2)
  {
    var number := Span(Phone, 0, n, TelAnchor(text[0..n]));
    var first, second := Span(Char, n, n + 1, HtmlChar(text[n])), Span(Char, n + 1, n + 2, HtmlChar(text[n + 1]));
    NumberThenOne(text, opts, lim, telMatches, n);
    EmitPlain(text, opts, lim, telMatches, [number, first], number.out + first.out, n, n + 1);
    assert [number, first] + [second] == [number, first, second];
  }

  /** The first half of NumberThenTwo: the number, then one character. */
  lemma NumberThenOne(text: seq<char>, opts: Options, lim: Limits, telMatches: seq<int>, n: int)
    requires 0 < n && n + 1 < |text| && |telMatches| == |text|
    requires telMatches[0] == n && telMatches[n] == 0
    requires PhoneAt(text, 0, text[0..n])
    requires !opts.ignoreUrls && opts.convertPhoneNumbers && !opts.highlightText && !opts.preserveSpaces
    requires !AtUrl(text, 0) && !AtUrl(text, n)
    requires Tried(opts, text[0]) && Tried(opts, text[n])
    requires text[0] != '@' && text[n] != '@'
    ensures var number := Span(Phone, 0, n, TelAnchor(text[0..n]));
      Converted(text, opts, lim, telMatches, [number, Span(Char, n, n + 1, HtmlChar(text[n]))],
        TelAnchor(text[0..n]) + HtmlChar(text[n]), n, n + 1)
  {
    var number := Span(Phone, 0, n, TelAnchor(text[0..n]));
    EmitNumber(text, opts, lim, telMatches, n);
    EmitPlain(text, opts, lim, telMatches, [number], number.out, n, n);
    assert [number] + [Span(Char, n, n + 1, HtmlChar(text[n]))] == [number, Span(Char, n, n + 1, HtmlChar(text[n]))];
  }

  /** Emitting a number the filters accept whole at index 0, where no URL
      starts. */
  lemma EmitNumber(text: seq<char>, opts: Options, lim: Limits, telMatches: seq<int>, n: int)
    requires 0 < n <= |text| && |telMatches| == |text| && telMatches[0] == n
    requires PhoneAt(text, 0, text[0..n]) && !AtUrl(text, 0) && Tried(opts, text[0]) && text[0] != '@'
    requires !opts.ignoreUrls && opts.convertPhoneNumbers
    ensures Converted(text, opts, lim, telMatches, [Span(Phone, 0, n, TelAnchor(text[0..n]))], TelAnchor(text[0..n]), n, n)
  {
    var number := Span(Phone, 0, n, TelAnchor(text[0..n]));
    ConvertedStart(text, opts, lim, telMatches);
    NumberFirst(text, opts, lim, 0, 0, n);
    assert Picked(text, opts, lim, telMatches, 0, number);
    EmitPicked(text, opts, lim, telMatches, [], [], 0, 0, number);
    assert [] + [number] == [number];
  }

  /** Emitting, escaped, a character where no URL starts, that is not an
      '@' and where the telephone pattern does not match, without markup. */
  lemma EmitPlain(text: seq<char>, opts: Options, lim: Limits, telMatches: seq<int>,
                  spans: seq<Span>, result: seq<char>, mark: int, pos: int)
    requires Converted(text, opts, lim, telMatches, spans, result, mark, pos)
    requires pos < |text| && pos < |telMatches| && telMatches[pos] == 0
    requires !AtUrl(text, pos) && text[pos] != '@' && !opts.highlightText && !Preserved(opts, text[pos])
    ensures Converted(text, opts, lim, telMatches, spans + [Span(Char, pos, pos + 1, HtmlChar(text[pos]))],
      result + HtmlChar(text[pos]), mark, pos + 1)
  {
    var s := Span(Char, pos, pos + 1, HtmlChar(text[pos]));
    NothingPlain(text, opts, lim, mark, pos);
    assert Picked(text, opts, lim, telMatches, mark, s);
    EmitPicked(text, opts, lim, telMatches, spans, result, mark, pos, s);
  }

  /** A number the filters accept whole, where no URL starts, is what the
      recognisers take (with ConvertPhoneNumbers). */
  lemma NumberFirst(text: seq<char>, opts: Options, lim: Limits, mark: int, p: int, n: int)
    requires 0 <= p && 0 < n && p + n <= |text| && PhoneAt(text, p, text[p..p + n])
    requires !opts.ignoreUrls && opts.convertPhoneNumbers && !AtUrl(text, p) && text[p] != '@'
    ensures RecogniseAt(text, opts, lim, n, mark, p) == Taken(Span(Phone, p, p + n, TelAnchor(text[p..p + n])))
  {
    WholeMatch(text, p, n);
    NoUrlAt(text, p, lim.maxUrlLen);
  }

  /** Where no URL starts and there is no '@', and without markup, the
      recognisers take nothing when the telephone pattern does not match. */
  lemma NothingPlain(text: seq<char>, opts: Options, lim: Limits, mark: int, p: int)
    requires 0 <= p < |text| && !AtUrl(text, p) && text[p] != '@' && !opts.highlightText
    ensures RecogniseAt(text, opts, lim, 0, mark, p) == NoToken
  {
    NoUrlAt(text, p, lim.maxUrlLen);
  }

  /** At an '@' where no URL starts, without markup, the recognisers take
      nothing when the address around it reaches back before `mark`. */
  lemma NothingAtRefusedAddress(text: seq<char>, opts: Options, lim: Limits, mark: int, p: int)
    requires 0 <= p < |text| && !AtUrl(text, p) && !opts.highlightText
    requires EmailAround(text, p, lim.maxAddressLen).Address? && EmailAround(text, p, lim.maxAddressLen).start < mark
    requires text[p] == '@'
    ensures RecogniseAt(text, opts, lim, 0, mark, p) == NoToken
  {
    NoUrlAt(text, p, lim.maxUrlLen);
  }

  /** Where no URL starts, getUrl finds none and leaves the cursor. */
  lemma NoUrlAt(text: seq<char>, p: int, maxUrlLen: int)
    requires 0 <= p < |text| && !AtUrl(text, p)
    ensures UrlAt(text, p, maxUrlLen) == UrlResult([], false, p)
  {
  }

  /** The address around the '@' of "0123456789.a@b.com" is the whole
      text. */
  lemma EmailAroundAtStart()
    ensures EmailAround("0123456789.a@b.com", 12, 255) == Address(0, 18)
  {
    var text := "0123456789.a@b.com";
    assert LocalWalk(text, -1) == StopsAt(0);
    assert LocalWalk(text, 0) == StopsAt(0);
    assert LocalWalk(text, 1) == StopsAt(0);
    assert LocalWalk(text, 2) == StopsAt(0);
    assert LocalWalk(text, 3) == StopsAt(0);
    assert LocalWalk(text, 4) == StopsAt(0);
    assert LocalWalk(text, 5) == StopsAt(0);
    assert LocalWalk(text, 6) == StopsAt(0);
    assert LocalWalk(text, 7) == StopsAt(0);
    assert LocalWalk(text, 8) == StopsAt(0);
    assert LocalWalk(text, 9) == StopsAt(0);
    assert LocalWalk(text, 10) == StopsAt(0);
    assert LocalWalk(text, 11) == StopsAt(0);
    assert DomainWalk(text, 18) == StopsAt(18);
    assert DomainWalk(text, 17) == StopsAt(18);
    assert DomainWalk(text, 16) == StopsAt(18);
    assert DomainWalk(text, 15) == StopsAt(18);
    assert DomainWalk(text, 14) == StopsAt(18);
    assert DomainWalk(text, 13) == StopsAt(18);
    assert FirstDot(text, 13, 13) == 18;
    assert FirstDot(text, 13, 14) == 18;
    assert FirstDot(text, 13, 15) == 14;
    assert FirstDot(text, 13, 16) == 14;
    assert FirstDot(text, 13, 17) == 14;
    assert FirstDot(text, 13, 18) == 14;
  }

  lemma LocalPartHasNoAmpersand()
    ensures Count("0123456789.a@b.com"[..12], '&') == 0
  {
    var local := "0123456789.a@b.com"[..12];
    assert local == "0123456789.a";
    assert forall k :: 0 <= k < |local| ==> local[k] != '&';
    CountZero(local, '&');
  }

  /** Cutting twelve characters off the number's anchor followed by ".a". */
  lemma AnchorCut()
    ensures var emitted := TelAnchor("0123456789") + ".a";
      Truncate(emitted, |emitted| - 12) == "<a href=\"tel:" + "0123456789" + "\">" + "0123"
  {
    var number := "0123456789";
    assert forall k :: 0 <= k < |number| ==> IsPhoneChar(number[k]);
    PhoneCharsKeep(number);
    var open := "<a href=\"tel:" + number + "\">";
    assert number == "0123" + number[4..];
    var kept, cut := open + "0123", number[4..] + "</a>" + ".a";
    assert TelAnchor(number) + ".a" == kept + cut;
    TruncateAppend(kept, cut);
  }

  lemma NumberAtStart()
    ensures PhoneAt("0123456789.a@b.com", 0, "0123456789")
  {
    var number, rest := "0123456789", ".a@b.com";
    var text := number + rest;
    assert text == "0123456789.a@b.com";
    assert text[0..0 + |number|] == number;
    assert forall k :: 0 <= k < |number| ==> IsDigit(number[k]);
    CountDigitsAll(number);
    ParensIgnoreOthers(number, 0);
    assert number[..0] == [];
    assert '/' !in number;
    CountZero(number, '/');
    assert text[10] == rest[0] == '.';
  }

  lemma AddressAtStart()
    ensures EmailAt("0123456789.a@b.com", 0, 12, 18, 255)
  {
    var text := "0123456789.a@b.com";
    assert text[14] == '.';
  }

  /** One round of the loop of convertToHtml at the cursor: the span for
      the piece of the text starting there (an address reaches back to its
      local part, whose characters are `local`), with the cursor left on its
      last character, the new column and start-of-line flag; or a malformed
      URL. The span is the one Picked after the token that ended at `mark`:
      an escaped character where no recogniser accepts, kept white space,
      or the token the recognisers find. */
  method Step(h: Helper, opts: Options, telMatches: seq<int>, mark: int, x: int, startOfLine: bool)
    returns (span: Span, bad: bool, local: seq<char>, x': int, startOfLine': bool)
    requires 0 <= mark <= h.pos < |h.text| && |telMatches| == |h.text|
    requires TelMatch(h.text, h.pos, telMatches[h.pos])
    modifies h
    ensures bad ==> var p := old(h.pos);
      Tried(opts, h.text[p])
      && RecogniseAt(h.text, opts, Limits(h.maxUrlLen, h.maxAddressLen), telMatches[p], mark, p) == MalformedUrl
    ensures !bad ==> (ValidSpan(h.text, opts, Limits(h.maxUrlLen, h.maxAddressLen), span)
      && Picked(h.text, opts, Limits(h.maxUrlLen, h.maxAddressLen), telMatches, mark, span)
      && Anchor(span) == old(h.pos) && span.end == h.pos + 1 && mark <= span.start <= old(h.pos) < span.end
      && (span.token.Mail? <==> span.start < old(h.pos))
      && (span.token.Mail? ==> local == h.text[span.start..old(h.pos)]))
    ensures !bad ==> (x' + 1 == ColumnAfter(h.text, x - (old(h.pos) - span.start), span)
      && (startOfLine' <==> EndsLine(h.text, span))
      && (span.token == Blank ==> span == KeptBlank(h.text, old(h.pos), x, startOfLine)))
  {
    var pos := h.pos;
    var ch := h.text[pos];
    bad, local, startOfLine' := false, [], false;
    if Preserved(opts, ch) {
      span, x' := KeepWhiteSpace(h, opts, x, startOfLine);
    } else if Tried(opts, ch) {
      span, bad, local, x' := Pick(h, opts, telMatches, mark, x);
    } else {
      // a line feed or one of the four escaped characters
      span, x' := Span(Char, pos, pos + 1, HtmlChar(ch)), x;
      if ch == '\n' {
        startOfLine' := true;
        x' := -1;
      }
    }
  }

  /** The white-space branches of convertToHtml with PreserveSpaces: a space
      (or a run of them) or a tab, rendered as a Blank span, and the new
      column. */
  method KeepWhiteSpace(h: Helper, opts: Options, x: int, startOfLine: bool) returns (span: Span, x': int)
    requires 0 <= h.pos < |h.text| && Preserved(opts, h.text[h.pos])
    modifies h
    ensures ValidSpan(h.text, opts, Limits(h.maxUrlLen, h.maxAddressLen), span)
    ensures span.token == Blank && span.start == old(h.pos) && span.end == h.pos + 1
    ensures span == KeptBlank(h.text, old(h.pos), x, startOfLine)
    ensures x' + 1 == ColumnAfter(h.text, x, span)
  {
    var pos := h.pos;
    ghost var lim := Limits(h.maxUrlLen, h.maxAddressLen);
    if h.text[pos] == ' ' {
      var out, last := PreservedSpace(h.text, pos, startOfLine);
      BlankSpan(h.text, opts, lim, pos, last, out, last - pos + 1);
      span := Span(Blank, pos, last + 1, out);
      h.pos := last;
      x' := x + last - pos;
    } else {
      var out, last := TabStop(x);
      BlankSpan(h.text, opts, lim, pos, pos, out, |out| / 6);
      span := Span(Blank, pos, pos + 1, out);
      x' := last;
    }
  }

  /** The recognisers' branch of convertToHtml: the token they find, or the
      escaped character where they find nothing, and the new column; or a
      malformed URL. */
  method Pick(h: Helper, opts: Options, telMatches: seq<int>, mark: int, x: int)
    returns (span: Span, bad: bool, local: seq<char>, x': int)
    requires 0 <= mark <= h.pos < |h.text| && |telMatches| == |h.text|
    requires TelMatch(h.text, h.pos, telMatches[h.pos]) && Tried(opts, h.text[h.pos])
    modifies h
    ensures var r := RecogniseAt(h.text, opts, Limits(h.maxUrlLen, h.maxAddressLen), telMatches[old(h.pos)], mark, old(h.pos));
      && (bad <==> r.MalformedUrl?)
      && (!bad ==> span == (if r.Taken? then r.span else Span(Char, old(h.pos), old(h.pos) + 1, HtmlChar(h.text[old(h.pos)]))))
    ensures !bad ==> (ValidSpan(h.text, opts, Limits(h.maxUrlLen, h.maxAddressLen), span)
      && span.end == h.pos + 1 && mark <= span.start <= old(h.pos) < span.end
      && (span.token.Mail? <==> span.start < old(h.pos))
      && (span.token.Mail? ==> span.token == Mail(old(h.pos)) && local == h.text[span.start..old(h.pos)]))
    ensures !bad ==> (span.token != Blank && !EndsLine(h.text, span)
      && x' + 1 == ColumnAfter(h.text, x - (old(h.pos) - span.start), span))
  {
    var pos := h.pos;
    var found, s;
    found, bad, s, local := Recognise(h, opts, telMatches[pos], mark);
    RecognitionOrder(h.text, opts, Limits(h.maxUrlLen, h.maxAddressLen), telMatches[pos], mark, pos);
    span, x' := Span(Char, pos, pos + 1, HtmlChar(h.text[pos])), x;
    if found {
      span := s;
      // the column moves back over the local part of an address
      x' := x - |local| + (h.pos + 1 - s.start) - 1;
    }
  }

  /** The recognisers of convertToHtml tried in order at the cursor, for a
      character that is not one of the four escaped ones: a URL, an address,
      a phone number (with ConvertPhoneNumbers) and inline markup (with
      HighlightText). What they find is what RecogniseAt yields: a malformed
      URL, nothing, or a token returned as a span, with the cursor on its
      last character; for an address, `local` is its local part, which lies
      before the cursor. An address whose local part reaches back before
      `mark` is refused: LocalPartOverPhone and AddressBranchAsWritten show
      what the code as written does there. */
  method Recognise(h: Helper, opts: Options, telMatch: int, mark: int)
    returns (found: bool, bad: bool, span: Span, local: seq<char>)
    requires 0 <= mark <= h.pos < |h.text|
    requires TelMatch(h.text, h.pos, telMatch)
    modifies h
    ensures var r := RecogniseAt(h.text, opts, Limits(h.maxUrlLen, h.maxAddressLen), telMatch, mark, old(h.pos));
      && (bad <==> r.MalformedUrl?) && (found <==> r.Taken?) && (found ==> span == r.span)
    ensures !found && !bad ==> h.pos == old(h.pos)
    ensures found ==>
      && ValidSpan(h.text, opts, Limits(h.maxUrlLen, h.maxAddressLen), span)
      && span.end == h.pos + 1 && mark <= span.start <= old(h.pos) < span.end
      && local == h.text[span.start..old(h.pos)]
      && (span.token.Mail? <==> span.start < old(h.pos))
      && (span.token.Mail? ==> span.token == Mail(old(h.pos)))
  {
    var p := h.pos;
    found, bad, span, local := false, false, Span(Char, p, p + 1, []), [];
    if !opts.ignoreUrls {
      found, bad, span := RecogniseUrl(h, opts);
      if bad || found {
        assert h.text[p..p] == [];
        return;
      }
      found, span, local := RecogniseFromAddress(h, opts, telMatch, mark);
    } else if opts.highlightText {
      found, span := RecogniseMarkup(h, opts);
      assert h.text[p..p] == [];
    }
  }

  /** The recognisers of convertToHtml from getEmailAddress on: what
      AddressAt yields. */
  method RecogniseFromAddress(h: Helper, opts: Options, telMatch: int, mark: int)
    returns (found: bool, span: Span, local: seq<char>)
    requires 0 <= mark <= h.pos < |h.text| && !opts.ignoreUrls
    requires TelMatch(h.text, h.pos, telMatch)
    modifies h
    ensures var r := AddressAt(h.text, opts, Limits(h.maxUrlLen, h.maxAddressLen), telMatch, mark, old(h.pos));
      && !r.MalformedUrl? && (found <==> r.Taken?) && (found ==> span == r.span)
    ensures !found ==> h.pos == old(h.pos)
    ensures found ==>
      && ValidSpan(h.text, opts, Limits(h.maxUrlLen, h.maxAddressLen), span)
      && span.end == h.pos + 1 && mark <= span.start <= old(h.pos) < span.end
      && local == h.text[span.start..old(h.pos)]
      && (span.token.Mail? <==> span.start < old(h.pos))
      && (span.token.Mail? ==> span.token == Mail(old(h.pos)))
  {
    var p := h.pos;
    found, span, local := RecogniseAddress(h, opts, mark);
    if !found {
      found, span := RecogniseFromNumber(h, opts, telMatch);
      local := [];
      assert h.text[p..p] == [];
    }
  }

  /** The recognisers of convertToHtml from getPhoneNumber on: what
      NumberAt yields. */
  method RecogniseFromNumber(h: Helper, opts: Options, telMatch: int) returns (found: bool, span: Span)
    requires 0 <= h.pos < |h.text| && !opts.ignoreUrls
    requires TelMatch(h.text, h.pos, telMatch)
    modifies h
    ensures var r := NumberAt(h.text, opts, telMatch, old(h.pos));
      && !r.MalformedUrl? && (found <==> r.Taken?) && (found ==> span == r.span)
    ensures !found ==> h.pos == old(h.pos)
    ensures found ==> (ValidSpan(h.text, opts, Limits(h.maxUrlLen, h.maxAddressLen), span)
      && span.start == old(h.pos) && span.end == h.pos + 1 && !span.token.Mail?)
  {
    found, span := false, Span(Char, h.pos, h.pos + 1, []);
    if opts.convertPhoneNumbers {
      found, span := RecognisePhone(h, opts, telMatch);
      if found {
        return;
      }
    }
    if opts.highlightText {
      found, span := RecogniseMarkup(h, opts);
    }
  }

  /** getUrl and the anchor convertToHtml makes of its result: the URL
      UrlAt finds at the cursor, as a span ending where the cursor is left. */
  method RecogniseUrl(h: Helper, opts: Options) returns (found: bool, bad: bool, span: Span)
    requires 0 <= h.pos < |h.text| && !opts.ignoreUrls
    modifies h
    ensures var u := UrlAt(h.text, old(h.pos), h.maxUrlLen);
      && bad == u.bad && (found <==> u.url != [])
      && (found ==> span == Span(Link(u.url), old(h.pos), u.pos + 1, UrlAnchor(u.url)))
    ensures !found && !bad ==> h.pos == old(h.pos)
    ensures found ==> (ValidSpan(h.text, opts, Limits(h.maxUrlLen, h.maxAddressLen), span)
      && span.start == old(h.pos) && span.end == h.pos + 1)
  {
    var p := h.pos;
    found, span := false, Span(Char, p, p + 1, []);
    var url;
    ghost var raw, end;
    url, bad, raw, end := h.GetUrl();
    if !bad && url != [] {
      found := true;
      span := Span(Link(url), p, h.pos + 1, UrlAnchor(url));
    }
  }

  /** getEmailAddress and the anchor convertToHtml makes of its result:
      the address EmailAround finds around the cursor, refused when its
      local part starts before `mark`. */
  method RecogniseAddress(h: Helper, opts: Options, mark: int) returns (found: bool, span: Span, local: seq<char>)
    requires 0 <= mark <= h.pos < |h.text| && !opts.ignoreUrls
    modifies h
    ensures var a := EmailAround(h.text, old(h.pos), h.maxAddressLen);
      && (found <==> a.Address? && mark <= a.start)
      && (found ==> span == Span(Mail(old(h.pos)), a.start, a.end, MailAnchor(h.text[a.start..a.end])))
    ensures !found ==> h.pos == old(h.pos)
    ensures found ==> (ValidSpan(h.text, opts, Limits(h.maxUrlLen, h.maxAddressLen), span)
      && span.token == Mail(old(h.pos)) && mark <= span.start < old(h.pos) && span.end == h.pos + 1
      && local == h.text[span.start..old(h.pos)])
  {
    var p := h.pos;
    found, span, local := false, Span(Char, p, p + 1, []), [];
    var address, start := h.GetEmailAddress();
    if address != [] {
      found, span, local := MailToken(h.text, opts, Limits(h.maxUrlLen, h.maxAddressLen), start, p, h.pos + 1, address, mark);
      if !found {
        h.pos := p;
      }
    }
  }

  /** The "mailto:" anchor made of an address text[s..e] whose '@' is at
      index p, and its local part (what precedes the first '@'); refused when
      the local part starts before `mark`. */
  method MailToken(text: seq<char>, opts: Options, lim: Limits, ghost s: int, p: int, e: int, address: seq<char>, mark: int)
    returns (found: bool, span: Span, local: seq<char>)
    requires EmailAt(text, s, p, e, lim.maxAddressLen) && address == text[s..e] && !opts.ignoreUrls
    ensures found <==> mark <= s
    ensures found ==> (ValidSpan(text, opts, lim, span)
      && span == Span(Mail(p), s, e, MailAnchor(address)) && local == text[s..p])
  {
    // the length of the local part
    var len := IndexOf(address, '@');
    MailSpan(text, opts, lim, s, p, e, address);
    found, span, local := false, Span(Char, p, p + 1, []), [];
    if p - len >= mark {
      found := true;
      local := address[..len];
      span := Span(Mail(p), p - len, e, MailAnchor(address));
    }
  }

  /** An address found around the '@' at index p, rendered as a "mailto:"
      anchor, is a valid span, and its local part is what precedes the
      first '@'. */
  lemma MailSpan(text: seq<char>, opts: Options, lim: Limits, s: int, p: int, e: int, address: seq<char>)
    requires EmailAt(text, s, p, e, lim.maxAddressLen) && address == text[s..e] && !opts.ignoreUrls
    ensures IndexOf(address, '@') == p - s
    ensures address[..p - s] == text[s..p]
    ensures ValidSpan(text, opts, lim, Span(Mail(p), p - IndexOf(address, '@'), e, MailAnchor(address)))
  {
    AtIsFirst(text, s, p, e, lim.maxAddressLen);
  }

  /** getPhoneNumber and the "tel:" anchor convertToHtml makes of its
      result: the number PhoneNumber finds at the cursor. */
  method RecognisePhone(h: Helper, opts: Options, telMatch: int) returns (found: bool, span: Span)
    requires 0 <= h.pos < |h.text| && !opts.ignoreUrls && opts.convertPhoneNumbers
    requires TelMatch(h.text, h.pos, telMatch)
    modifies h
    ensures var n := PhoneNumber(h.text, old(h.pos), telMatch);
      && (found <==> n != [])
      && (found ==> span == Span(Phone, old(h.pos), old(h.pos) + |n|, TelAnchor(n)))
    ensures !found ==> h.pos == old(h.pos)
    ensures found ==> (ValidSpan(h.text, opts, Limits(h.maxUrlLen, h.maxAddressLen), span)
      && span.start == old(h.pos) && span.end == h.pos + 1)
  {
    var p := h.pos;
    found, span := false, Span(Char, p, p + 1, []);
    var number := h.GetPhoneNumber(telMatch);
    if number != [] {
      var normalized := NormalizePhoneNumber(number);
      found := true;
      span := Span(Phone, p, h.pos + 1, "<a href=\"tel:" + normalized + "\">" + number + "</a>");
      assert h.text[span.start..span.end] == number;
      assert span.out == TelAnchor(number);
    }
  }

  /** highlightedText, whose result convertToHtml emits as it is: the
      markup MarkupClose closes, as a span from the cursor. */
  method RecogniseMarkup(h: Helper, opts: Options) returns (found: bool, span: Span)
    requires 0 <= h.pos < |h.text| && opts.highlightText
    modifies h
    ensures var q := MarkupClose(h.text, old(h.pos));
      && (found <==> q >= 0)
      && (found ==> span == Span(Mark, old(h.pos), q + 1, Markup(h.text[old(h.pos)], h.text[old(h.pos) + 1..q])))
    ensures !found ==> h.pos == old(h.pos)
    ensures found ==> (ValidSpan(h.text, opts, Limits(h.maxUrlLen, h.maxAddressLen), span)
      && span.start == old(h.pos) && span.end == h.pos + 1)
  {
    var p := h.pos;
    found, span := false, Span(Char, p, p + 1, []);
    var markup := h.HighlightedText();
    if markup != [] {
      found := true;
      span := Span(Mark, p, h.pos + 1, markup);
    }
  }
}

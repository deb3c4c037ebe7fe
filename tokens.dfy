// Which piece of the text convertToHtml takes at each index.
//
// The converter escapes '&', '"', '<' and '>', turns a line feed into a
// line break, and with PreserveSpaces keeps spaces and tabs itself; every
// other character is handed to the recognisers, in a fixed order: a URL, an
// address, a phone number (with ConvertPhoneNumbers) and inline markup
// (with HighlightText). RecogniseAt states what that order yields at one
// index; Decided states that every span of an output was taken that way.
module TokenRules {
  import opened CharClass
  import opened HtmlEscape
  import opened UrlRules
  import opened EmailRules
  import opened PhoneRules
  import opened HighlightRules
  import opened HtmlOutput
  import opened TextToHtmlHelper

  /** What the recognisers make of the text at an index: nothing, a
      malformed URL (the converter then escapes the whole text instead), or
      a token, as the span the converter emits for it. */
  datatype Recognition = NoToken | MalformedUrl | Taken(span: Span)

  /** White space the converter renders itself with PreserveSpaces. */
  predicate Preserved(opts: Options, c: char) {
    opts.preserveSpaces && (c == ' ' || c == '\t')
  }

  /** A character the converter hands to its recognisers. */
  predicate Tried(opts: Options, c: char) {
    c != '&' && c != '"' && c != '<' && c != '>' && c != '\n' && !Preserved(opts, c)
  }

  /** n can be the length of an anchored match at index q (0: none). */
  predicate TelFits(text: seq<char>, q: int, n: int) {
    n == 0 || (0 < n && 0 <= q && q + n <= |text|)
  }

  /** n is the length of the anchored match of the telephone pattern at
      index q (0: no match). */
  ghost predicate TelMatch(text: seq<char>, q: int, n: int) {
    n == 0 || (0 < n && 0 <= q && q + n <= |text| && TelShape(text[q..q + n]))
  }

  /** The recognisers of convertToHtml tried in order at index p, for a
      character handed to them. telMatch is the length of the telephone
      pattern's match at p; an address whose local part starts before
      `mark`, the end of the last token emitted, is refused; the code as
      written cuts the output there anyway, which TextToHtml.LocalPartOverPhone
      and TextToHtml.AddressBranchAsWritten exhibit. */
  function RecogniseAt(text: seq<char>, opts: Options, lim: Limits, telMatch: int, mark: int, p: int): Recognition
    requires 0 <= p < |text| && TelFits(text, p, telMatch)
  {
    if opts.ignoreUrls then MarkupAt(text, opts, p)
    else
      var u := UrlAt(text, p, lim.maxUrlLen);
      if u.bad then MalformedUrl
      else if u.url != [] then Taken(Span(Link(u.url), p, u.pos + 1, UrlAnchor(u.url)))
      else AddressAt(text, opts, lim, telMatch, mark, p)
  }

  /** The recognisers from getEmailAddress on. */
  function AddressAt(text: seq<char>, opts: Options, lim: Limits, telMatch: int, mark: int, p: int): Recognition
    requires 0 <= p < |text| && TelFits(text, p, telMatch)
  {
    match EmailAround(text, p, lim.maxAddressLen)
    case Address(s, e) =>
      if mark <= s then Taken(Span(Mail(p), s, e, MailAnchor(text[s..e])))
      else NumberAt(text, opts, telMatch, p)
    case NoAddress => NumberAt(text, opts, telMatch, p)
  }

  /** The recognisers from getPhoneNumber on. */
  function NumberAt(text: seq<char>, opts: Options, telMatch: int, p: int): Recognition
    requires 0 <= p < |text| && TelFits(text, p, telMatch)
  {
    var n := if opts.convertPhoneNumbers then PhoneNumber(text, p, telMatch) else [];
    if n != [] then Taken(Span(Phone, p, p + |n|, TelAnchor(n))) else MarkupAt(text, opts, p)
  }

  /** highlightedText, with HighlightText. */
  function MarkupAt(text: seq<char>, opts: Options, p: int): Recognition
    requires 0 <= p < |text|
  {
    var q := if opts.highlightText then MarkupClose(text, p) else -1;
    if q >= 0 then Taken(Span(Mark, p, q + 1, Markup(text[p], text[p + 1..q]))) else NoToken
  }

  /** A malformed URL is only reported where a URL starts. */
  lemma MalformedAtUrl(text: seq<char>, opts: Options, lim: Limits, telMatch: int, mark: int, p: int)
    requires 0 <= p < |text| && TelFits(text, p, telMatch)
    ensures RecogniseAt(text, opts, lim, telMatch, mark, p) == MalformedUrl ==> !opts.ignoreUrls && AtUrl(text, p)
  {
    if !opts.ignoreUrls {
      UrlAtMeaning(text, p, lim.maxUrlLen);
    }
  }

  /** NoToken is found at p exactly when no recogniser that is switched on
      accepts there: no URL starts (and none is malformed), no address
      reaching back no further than `mark` is around an '@' at p, no phone
      number starts, and no markup opens. */
  lemma NothingRecognised(text: seq<char>, opts: Options, lim: Limits, telMatch: int, mark: int, p: int)
    requires 0 <= p < |text| && TelFits(text, p, telMatch)
    ensures RecogniseAt(text, opts, lim, telMatch, mark, p) == NoToken <==>
      && (!opts.ignoreUrls ==>
            && UrlAt(text, p, lim.maxUrlLen).url == [] && !UrlAt(text, p, lim.maxUrlLen).bad
            && !(EmailAround(text, p, lim.maxAddressLen).Address? && mark <= EmailAround(text, p, lim.maxAddressLen).start)
            && (opts.convertPhoneNumbers ==> PhoneNumber(text, p, telMatch) == []))
      && (opts.highlightText ==> MarkupClose(text, p) < 0)
  {
  }

  /** The recognisers' order: a token is only taken where every recogniser
      before it has found nothing. */
  lemma RecognitionOrder(text: seq<char>, opts: Options, lim: Limits, telMatch: int, mark: int, p: int)
    requires 0 <= p < |text| && TelMatch(text, p, telMatch)
    ensures var r := RecogniseAt(text, opts, lim, telMatch, mark, p);
      var u := UrlAt(text, p, lim.maxUrlLen);
      var a := EmailAround(text, p, lim.maxAddressLen);
      && (r.Taken? && r.span.token.Link? ==> !opts.ignoreUrls && r.span.token.url == u.url != [] && r.span.end == u.pos + 1)
      && (r.Taken? && r.span.token.Mail? ==>
            && !opts.ignoreUrls && u.url == [] && !u.bad
            && a == Address(r.span.start, r.span.end) && mark <= a.start)
      && (r.Taken? && r.span.token == Phone ==>
            && !opts.ignoreUrls && u.url == [] && !u.bad
            && !(a.Address? && mark <= a.start) && opts.convertPhoneNumbers
            && text[p..r.span.end] == PhoneNumber(text, p, telMatch))
      && (r.Taken? && r.span.token == Mark ==>
            && opts.highlightText && r.span.end == MarkupClose(text, p) + 1
            && (!opts.ignoreUrls ==>
                  && u.url == [] && !u.bad && !(a.Address? && mark <= a.start)
                  && (opts.convertPhoneNumbers ==> PhoneNumber(text, p, telMatch) == [])))
      && (r.Taken? ==> !r.span.token.Char? && !r.span.token.Blank?)
  {
    if opts.ignoreUrls {
      MarkupOrder(text, opts, p);
    } else {
      var u := UrlAt(text, p, lim.maxUrlLen);
      if !u.bad && u.url == [] {
        AddressOrder(text, opts, lim, telMatch, mark, p);
      }
    }
  }

  /** The recognisers from getEmailAddress on take an address, a number
      only where no address is taken, and markup only where neither is. */
  lemma AddressOrder(text: seq<char>, opts: Options, lim: Limits, telMatch: int, mark: int, p: int)
    requires 0 <= p < |text| && TelMatch(text, p, telMatch)
    ensures var r := AddressAt(text, opts, lim, telMatch, mark, p);
      var a := EmailAround(text, p, lim.maxAddressLen);
      && (r.Taken? && r.span.token.Mail? ==> a == Address(r.span.start, r.span.end) && mark <= a.start)
      && (r.Taken? && r.span.token == Phone ==>
            && !(a.Address? && mark <= a.start) && opts.convertPhoneNumbers
            && text[p..r.span.end] == PhoneNumber(text, p, telMatch))
      && (r.Taken? && r.span.token == Mark ==>
            && opts.highlightText && r.span.end == MarkupClose(text, p) + 1
            && !(a.Address? && mark <= a.start)
            && (opts.convertPhoneNumbers ==> PhoneNumber(text, p, telMatch) == []))
      && (r.Taken? ==> r.span.token.Mail? || r.span.token == Phone || r.span.token == Mark)
  {
    var a := EmailAround(text, p, lim.maxAddressLen);
    if !(a.Address? && mark <= a.start) {
      NumberOrder(text, opts, telMatch, p);
    }
  }

  /** getPhoneNumber's number is the text from p on, and markup is only
      taken where no number is. */
  lemma NumberOrder(text: seq<char>, opts: Options, telMatch: int, p: int)
    requires 0 <= p < |text| && TelMatch(text, p, telMatch)
    ensures var r := NumberAt(text, opts, telMatch, p);
      && (r.Taken? && r.span.token == Phone ==>
            opts.convertPhoneNumbers && text[p..r.span.end] == PhoneNumber(text, p, telMatch))
      && (r.Taken? && r.span.token == Mark ==>
            && opts.highlightText && r.span.end == MarkupClose(text, p) + 1
            && (opts.convertPhoneNumbers ==> PhoneNumber(text, p, telMatch) == []))
      && (r.Taken? ==> r.span.token == Phone || r.span.token == Mark)
  {
    var n := PhoneNumber(text, p, telMatch);
    if opts.convertPhoneNumbers && n != [] {
      PhoneNumberSound(text, p, telMatch);
    } else {
      MarkupOrder(text, opts, p);
    }
  }

  /** highlightedText takes markup only when HighlightText is set, up to
      the closing character it finds. */
  lemma MarkupOrder(text: seq<char>, opts: Options, p: int)
    requires 0 <= p < |text|
    ensures var r := MarkupAt(text, opts, p);
      r.Taken? ==> r.span.token == Mark && opts.highlightText && r.span.end == MarkupClose(text, p) + 1
  {
  }

  /** The end of the last span that is not an escaped character (0 when
      there is none): from there on the converter emitted characters one
      by one. */
  function MarkOf(spans: seq<Span>): int {
    if spans == [] then 0
    else if spans[|spans| - 1].token != Char then spans[|spans| - 1].end
    else MarkOf(spans[..|spans| - 1])
  }

  /** The index at which the converter took the span: an address is found
      around its '@'. */
  function Anchor(s: Span): int {
    if s.token.Mail? then s.token.at else s.start
  }

  /** At index k, after the token that ended at `mark`, the converter
      emits the character itself: it is not kept white space, and if it is
      handed to the recognisers none of them accepts. */
  ghost predicate Passed(text: seq<char>, opts: Options, lim: Limits, telMatches: seq<int>, mark: int, k: int) {
    && 0 <= k < |text| && k < |telMatches| && TelFits(text, k, telMatches[k])
    && !Preserved(opts, text[k])
    && (Tried(opts, text[k]) ==> RecogniseAt(text, opts, lim, telMatches[k], mark, k) == NoToken)
  }

  /** Every index of text[from..to] is Passed. */
  ghost predicate AllPassed(text: seq<char>, opts: Options, lim: Limits, telMatches: seq<int>, mark: int, from: int, to: int) {
    forall k :: from <= k < to ==> Passed(text, opts, lim, telMatches, mark, k)
  }

  /** The span is what the converter takes at its anchor, after the token
      that ended at `mark`: an escaped character where nothing is
      recognised, kept white space, or the token the recognisers find. */
  ghost predicate Picked(text: seq<char>, opts: Options, lim: Limits, telMatches: seq<int>, mark: int, s: Span) {
    var a := Anchor(s);
    && 0 <= a < |text| && a < |telMatches| && TelFits(text, a, telMatches[a])
    && match s.token
       case Char => Passed(text, opts, lim, telMatches, mark, a)
       case Blank => Preserved(opts, text[a])
       case _ => Tried(opts, text[a]) && RecogniseAt(text, opts, lim, telMatches[a], mark, a) == Taken(s)
  }

  /** Picked, and an address's local part was emitted character by
      character before the '@' was reached. */
  ghost predicate Chosen(text: seq<char>, opts: Options, lim: Limits, telMatches: seq<int>, mark: int, s: Span) {
    && Picked(text, opts, lim, telMatches, mark, s)
    && (s.token.Mail? ==> AllPassed(text, opts, lim, telMatches, mark, s.start, s.token.at))
  }

  /** Every span is Chosen after the spans before it, and kept white space
      is rendered as the column and line they leave ask (Kept). */
  ghost predicate Decided(text: seq<char>, opts: Options, lim: Limits, telMatches: seq<int>, spans: seq<Span>) {
    spans == [] ||
      (Decided(text, opts, lim, telMatches, spans[..|spans| - 1])
       && Chosen(text, opts, lim, telMatches, MarkOf(spans[..|spans| - 1]), spans[|spans| - 1])
       && Kept(text, spans[..|spans| - 1], spans[|spans| - 1]))
  }

  /** A span of kept white space is the one KeptBlank gives at the column
      and line state the spans before it leave. */
  ghost predicate Kept(text: seq<char>, before: seq<Span>, s: Span) {
    s.token == Blank ==>
      0 <= s.start < |text| && s == KeptBlank(text, s.start, Column(text, before), StartOfLine(text, before))
  }

  /** The span is a line feed. */
  predicate EndsLine(text: seq<char>, s: Span) {
    s.token == Char && 0 <= s.start < |text| && text[s.start] == '\n'
  }

  /** The column x of convertToHtml after a span emitted at column x: a
      line feed starts a new line, a tab moves to its tab stop, and any
      other span moves on by the characters it covers (the loop adds one for
      the cursor's character, and each branch the rest). */
  function ColumnAfter(text: seq<char>, x: int, s: Span): int {
    if EndsLine(text, s) then 0
    else if s.token == Blank && 0 <= s.start < |text| && text[s.start] == '\t' then x + |s.out| / 6
    else x + (s.end - s.start)
  }

  /** The column the loop of convertToHtml is at after emitting spans. */
  function Column(text: seq<char>, spans: seq<Span>): int {
    if spans == [] then 0 else ColumnAfter(text, Column(text, spans[..|spans| - 1]), spans[|spans| - 1])
  }

  /** startOfLine in convertToHtml after emitting spans: at the start of the
      text, and right after a line feed; every other character clears it. */
  predicate StartOfLine(text: seq<char>, spans: seq<Span>) {
    spans == [] || EndsLine(text, spans[|spans| - 1])
  }

  /** Column x + k is a multiple of 8. */
  predicate TabStopAt(x: int, k: int) {
    (x + k) % 8 == 0
  }

  /** The number of non-breaking spaces a tab at column x becomes. */
  function TabWidth(x: int): (n: int)
    ensures 1 <= n <= 8
  {
    8 - x % 8
  }

  /** The end of the run of spaces starting at index p. */
  function SpaceRunEnd(text: seq<char>, p: int): (e: int)
    requires 0 <= p <= |text|
    ensures p <= e <= |text|
    decreases |text| - p
  {
    if p < |text| && text[p] == ' ' then SpaceRunEnd(text, p + 1) else p
  }

  /** The white-space branches of convertToHtml with PreserveSpaces, at
      index p, column x and with startOfLine: a tab becomes non-breaking
      spaces up to its tab stop, a space is kept as KeptSpace says. */
  function KeptBlank(text: seq<char>, p: int, x: int, startOfLine: bool): Span
    requires 0 <= p < |text|
  {
    if text[p] == '\t' then Span(Blank, p, p + 1, Nbsps(TabWidth(x)))
    else KeptSpace(text, p, startOfLine)
  }

  /** The space branch: a run of two or more spaces becomes one
      non-breaking space each; a single space stays breaking unless it
      starts or ends a line or ends the text. */
  function KeptSpace(text: seq<char>, p: int, startOfLine: bool): Span
    requires 0 <= p < |text|
  {
    if p + 1 < |text| && text[p + 1] == ' ' then
      var e := SpaceRunEnd(text, p);
      Span(Blank, p, e, Nbsps(e - p))
    else if p + 1 == |text| || startOfLine || text[p + 1] == '\n' then Span(Blank, p, p + 1, Nbsp)
    else Span(Blank, p, p + 1, " ")
  }

  /** Emitting a span moves the column as ColumnAfter says, and leaves the
      loop at the start of a line exactly when the span is a line feed. */
  lemma ColumnSnoc(text: seq<char>, spans: seq<Span>, s: Span)
    ensures Column(text, spans + [s]) == ColumnAfter(text, Column(text, spans), s)
    ensures StartOfLine(text, spans + [s]) <==> EndsLine(text, s)
  {
    assert (spans + [s])[..|spans|] == spans;
  }

  /** Escaped characters of text[from..upto] at the end of the spans, none of
      them a line feed, moved the column on by one each. */
  lemma {:induction false} ColumnOverRun(text: seq<char>, spans: seq<Span>, from: int, upto: int)
    requires CharRun(text, spans, from, upto) && 0 <= from && upto <= |text|
    requires forall k :: from <= k < upto ==> text[k] != '\n'
    ensures upto - from <= |spans|
    ensures Column(text, spans) == Column(text, spans[..|spans| - (upto - from)]) + (upto - from)
    decreases upto - from
  {
    if from < upto {
      var init := spans[..|spans| - 1];
      ColumnOverRun(text, init, from, upto - 1);
      assert !EndsLine(text, spans[|spans| - 1]);
      assert init[..|init| - (upto - 1 - from)] == spans[..|spans| - (upto - from)];
    } else {
      assert spans[..|spans|] == spans;
    }
  }

  /** Taking the escaped local part text[start..pos] of an address back out
      of the spans takes its length off the column. */
  lemma ColumnDropLocal(text: seq<char>, spans: seq<Span>, mark: int, start: int, pos: int, local: seq<char>)
    requires CharRun(text, spans, mark, pos) && 0 <= mark <= start <= pos <= |text|
    requires local == text[start..pos] && forall k :: 0 <= k < |local| ==> IsLocalPartChar(local[k])
    ensures pos - start <= |spans|
    ensures Column(text, spans) == Column(text, spans[..|spans| - (pos - start)]) + (pos - start)
  {
    CharRunFrom(text, spans, mark, start, pos);
    forall k | start <= k < pos ensures text[k] != '\n' {
      assert local[k - start] == text[k];
    }
    ColumnOverRun(text, spans, start, pos);
  }

  /** Taking the local part text[start..pos] of an address back out of the
      spans and emitting the address moves the column from x, where the
      local part ended, on to the end of the address; an address never ends
      a line. */
  lemma ColumnAfterAddress(text: seq<char>, spans: seq<Span>, mark: int, pos: int, s: Span, local: seq<char>, x: int)
    requires CharRun(text, spans, mark, pos) && 0 <= mark <= s.start <= pos <= |text| && s.token.Mail?
    requires local == text[s.start..pos] && forall k :: 0 <= k < |local| ==> IsLocalPartChar(local[k])
    requires x == Column(text, spans)
    ensures |local| <= |spans|
    ensures var t := spans[..|spans| - |local|] + [s];
      && Column(text, t) == x - (pos - s.start) + (s.end - s.start)
      && !StartOfLine(text, t)
  {
    ColumnDropLocal(text, spans, mark, s.start, pos, local);
    ColumnSnoc(text, spans[..|spans| - |local|], s);
  }

  /** A run of spaces ends at the first index from p that is not a space. */
  lemma {:induction false} SpaceRunEndMeaning(text: seq<char>, p: int)
    requires 0 <= p <= |text|
    ensures var e := SpaceRunEnd(text, p);
      && (forall k :: p <= k < e ==> text[k] == ' ')
      && (e == |text| || text[e] != ' ')
    decreases |text| - p
  {
    if p < |text| && text[p] == ' ' {
      SpaceRunEndMeaning(text, p + 1);
    }
  }

  /** Spaces from p up to an index that is not a space are the run
      SpaceRunEnd finds. */
  lemma {:induction false} SpaceRunEndAt(text: seq<char>, p: int, e: int)
    requires 0 <= p <= e <= |text| && forall k :: p <= k < e ==> text[k] == ' '
    requires e == |text| || text[e] != ' '
    ensures SpaceRunEnd(text, p) == e
    decreases e - p
  {
    if p < e {
      SpaceRunEndAt(text, p + 1, e);
    }
  }

  /** The tab stop: TabWidth(x) columns from x reach the first multiple of 8
      after x, and none is passed. */
  lemma TabWidthMeaning(x: int, n: int)
    requires 1 <= n <= 8
    ensures n == TabWidth(x) <==> TabStopAt(x, n) && forall k :: 1 <= k < n ==> !TabStopAt(x, k)
  {
    TabStopOnce(x, n);
    forall k | 1 <= k < n ensures TabStopAt(x, k) <==> k == TabWidth(x) {
      TabStopOnce(x, k);
    }
  }

  /** Within the next eight columns, the tab stop is the only multiple of 8. */
  lemma TabStopOnce(x: int, k: int)
    requires 1 <= k <= 8
    ensures TabStopAt(x, k) <==> k == TabWidth(x)
  {
    var r := x % 8;
    assert x + k == 8 * (x / 8) + (r + k);
    assert (x + k) % 8 == (r + k) % 8;
  }

  /** What kept white space renders as: a tab, as many non-breaking spaces
      as reach the next tab stop; a run of spaces is taken up to its end,
      and when it has two or more, as one non-breaking space each; a single
      space stays breaking exactly when it is not at the start of a line, the
      end of a line or the end of the text. */
  lemma KeptBlankMeaning(text: seq<char>, p: int, x: int, startOfLine: bool)
    requires 0 <= p < |text| && (text[p] == ' ' || text[p] == '\t')
    ensures var s := KeptBlank(text, p, x, startOfLine);
      && s.token == Blank && s.start == p && p < s.end <= |text|
      && (forall k :: p <= k < s.end ==> text[k] == text[p])
      && (text[p] == '\t' ==>
            && s.end == p + 1 && s.out == Nbsps(|s.out| / 6) && 1 <= |s.out| / 6 <= 8
            && TabStopAt(x, |s.out| / 6) && (forall k :: 1 <= k < |s.out| / 6 ==> !TabStopAt(x, k)))
      && (text[p] == ' ' ==> (s.end == |text| || text[s.end] != ' '))
      && (text[p] == ' ' && s.end - p >= 2 ==> s.out == Nbsps(s.end - p))
      && (text[p] == ' ' && s.end == p + 1 ==>
            (s.out == " " <==> !startOfLine && p + 1 < |text| && text[p + 1] != '\n')
            && (s.out == " " || s.out == Nbsp))
  {
    if text[p] == '\t' {
      TabWidthMeaning(x, TabWidth(x));
    } else {
      SpaceRunEndMeaning(text, p);
    }
  }

  /** The state of the converter's loop after text[..pos]: Emitted, every
      span Decided, `mark` the end of the last token, and every index since
      then Passed. */
  ghost predicate Converted(text: seq<char>, opts: Options, lim: Limits, telMatches: seq<int>,
                            spans: seq<Span>, result: seq<char>, mark: int, pos: int) {
    && Emitted(text, opts, lim, spans, result, mark, pos)
    && Decided(text, opts, lim, telMatches, spans)
    && mark == MarkOf(spans)
    && AllPassed(text, opts, lim, telMatches, mark, mark, pos)
  }

  lemma ConvertedStart(text: seq<char>, opts: Options, lim: Limits, telMatches: seq<int>)
    ensures Converted(text, opts, lim, telMatches, [], [], 0, 0)
  {
    assert CharRun(text, [], 0, 0);
  }

  /** Emitting the span the converter picks at the cursor, other than an
      address, keeps the loop's state. */
  lemma EmitPicked(text: seq<char>, opts: Options, lim: Limits, telMatches: seq<int>,
                   spans: seq<Span>, result: seq<char>, mark: int, pos: int, s: Span)
    requires Converted(text, opts, lim, telMatches, spans, result, mark, pos)
    requires ValidSpan(text, opts, lim, s) && s.start == pos && !s.token.Mail?
    requires Picked(text, opts, lim, telMatches, mark, s) && Kept(text, spans, s)
    ensures Converted(text, opts, lim, telMatches, spans + [s], result + s.out,
      if s.token == Char then mark else s.end, s.end)
  {
    EmitSpan(text, opts, lim, spans, result, mark, pos, s);
    var t := spans + [s];
    assert t[..|t| - 1] == spans;
    if s.token != Char {
      assert AllPassed(text, opts, lim, telMatches, s.end, s.end, s.end);
    }
  }

  /** The converter's loop state: Converted, with column x and startOfLine
      as convertToHtml tracks them. */
  ghost predicate Tracked(text: seq<char>, opts: Options, lim: Limits, telMatches: seq<int>,
                          spans: seq<Span>, result: seq<char>, mark: int, pos: int, x: int, startOfLine: bool) {
    && Converted(text, opts, lim, telMatches, spans, result, mark, pos)
    && x == Column(text, spans) && startOfLine == StartOfLine(text, spans)
  }

  /** One step of the loop on a span other than an address: the column the
      step reports, plus one, and the startOfLine it reports are those of
      the spans after it, and kept white space is rendered as KeptBlank says. */
  lemma StepPicked(text: seq<char>, opts: Options, lim: Limits, telMatches: seq<int>,
                   spans: seq<Span>, result: seq<char>, mark: int, pos: int, x: int, startOfLine: bool,
                   s: Span, x': int, startOfLine': bool)
    requires Tracked(text, opts, lim, telMatches, spans, result, mark, pos, x, startOfLine)
    requires ValidSpan(text, opts, lim, s) && s.start == pos && !s.token.Mail?
    requires Picked(text, opts, lim, telMatches, mark, s)
    requires s.token == Blank ==> s == KeptBlank(text, pos, x, startOfLine)
    requires x' + 1 == ColumnAfter(text, x, s) && (startOfLine' <==> EndsLine(text, s))
    ensures Converted(text, opts, lim, telMatches, spans + [s], result + s.out,
      if s.token == Char then mark else s.end, s.end)
    ensures Column(text, spans + [s]) == x' + 1 && StartOfLine(text, spans + [s]) == startOfLine'
  {
    EmitPicked(text, opts, lim, telMatches, spans, result, mark, pos, s);
    ColumnSnoc(text, spans, s);
  }

  /** One step of the loop on an address, whose local part text[s.start..pos]
      is taken back out of the spans. */
  lemma StepAddress(text: seq<char>, opts: Options, lim: Limits, telMatches: seq<int>,
                    spans: seq<Span>, result: seq<char>, mark: int, pos: int, x: int, startOfLine: bool,
                    s: Span, local: seq<char>, x': int, startOfLine': bool)
    requires Tracked(text, opts, lim, telMatches, spans, result, mark, pos, x, startOfLine)
    requires ValidSpan(text, opts, lim, s) && s.token == Mail(pos) && mark <= s.start < pos
    requires Picked(text, opts, lim, telMatches, mark, s) && local == text[s.start..pos]
    requires x' + 1 == ColumnAfter(text, x - (pos - s.start), s) && (startOfLine' <==> EndsLine(text, s))
    ensures |local| <= |spans|
    ensures Converted(text, opts, lim, telMatches, spans[..|spans| - |local|] + [s],
      Truncate(result, |result| - |local| - Count(local, '&') * 4) + s.out, s.end, s.end)
    ensures Column(text, spans[..|spans| - |local|] + [s]) == x' + 1
    ensures StartOfLine(text, spans[..|spans| - |local|] + [s]) == startOfLine'
  {
    MailLocal(text, opts, lim, s, local);
    EmitAddress(text, opts, lim, telMatches, spans, result, mark, pos, s, local);
    ColumnAfterAddress(text, spans, mark, pos, s, local, x);
    assert ColumnAfter(text, x - (pos - s.start), s) == x - (pos - s.start) + (s.end - s.start);
  }

  /** Emitting an address the converter picks at the cursor, after taking
      its local part, text[s.start..pos], back out of the output, keeps the
      loop's state. */
  lemma EmitAddress(text: seq<char>, opts: Options, lim: Limits, telMatches: seq<int>,
                    spans: seq<Span>, result: seq<char>, mark: int, pos: int, s: Span, local: seq<char>)
    requires Converted(text, opts, lim, telMatches, spans, result, mark, pos)
    requires ValidSpan(text, opts, lim, s) && s.token == Mail(pos) && mark <= s.start < pos
    requires Picked(text, opts, lim, telMatches, mark, s) && local == text[s.start..pos]
    requires forall k :: 0 <= k < |local| ==> IsLocalPartChar(local[k])
    ensures |local| <= |spans|
    ensures var t := spans[..|spans| - |local|] + [s];
      Emitted(text, opts, lim, t, Truncate(result, |result| - |local| - Count(local, '&') * 4) + s.out, s.end, s.end)
    ensures var t := spans[..|spans| - |local|] + [s];
      && Decided(text, opts, lim, telMatches, t) && MarkOf(t) == s.end
      && AllPassed(text, opts, lim, telMatches, s.end, s.end, s.end)
  {
    DropMail(text, opts, lim, spans, result, mark, pos, s.start, local);
    var kept := spans[..|spans| - |local|];
    var truncated := Truncate(result, |result| - |local| - Count(local, '&') * 4);
    EmitSpan(text, opts, lim, kept, truncated, s.start, s.start, s);
    AddressDecided(text, opts, lim, telMatches, spans, mark, pos, s);
    assert |local| == pos - s.start;
    assert Emitted(text, opts, lim, kept + [s], truncated + s.out, s.end, s.end);
    assert Decided(text, opts, lim, telMatches, kept + [s]) && MarkOf(kept + [s]) == s.end;
  }

  /** The address the converter picks keeps the spans Decided once the
      escaped characters of its local part are dropped, and becomes the
      last token. */
  lemma AddressDecided(text: seq<char>, opts: Options, lim: Limits, telMatches: seq<int>,
                       spans: seq<Span>, mark: int, pos: int, s: Span)
    requires Decided(text, opts, lim, telMatches, spans) && mark == MarkOf(spans)
    requires CharRun(text, spans, mark, pos) && 0 <= mark && pos <= |text| && AllPassed(text, opts, lim, telMatches, mark, mark, pos)
    requires s.token == Mail(pos) && mark <= s.start < pos < s.end
    requires Picked(text, opts, lim, telMatches, mark, s)
    ensures pos - s.start <= |spans|
    ensures var t := spans[..|spans| - (pos - s.start)] + [s];
      && Decided(text, opts, lim, telMatches, t) && MarkOf(t) == s.end
      && AllPassed(text, opts, lim, telMatches, s.end, s.end, s.end)
  {
    DecidedPrefix(text, opts, lim, telMatches, spans, mark, pos, s.start);
    var kept := spans[..|spans| - (pos - s.start)];
    var t := kept + [s];
    assert t[..|t| - 1] == kept;
    assert Chosen(text, opts, lim, telMatches, mark, s);
  }

  /** Dropping the escaped characters of text[start..pos] from the end of
      the spans keeps them Decided, after the same token. */
  lemma {:induction false} DecidedPrefix(text: seq<char>, opts: Options, lim: Limits, telMatches: seq<int>,
                                         spans: seq<Span>, mark: int, pos: int, start: int)
    requires Decided(text, opts, lim, telMatches, spans) && mark == MarkOf(spans)
    requires CharRun(text, spans, mark, pos) && 0 <= mark <= start <= pos <= |text|
    ensures pos - start <= |spans|
    ensures Decided(text, opts, lim, telMatches, spans[..|spans| - (pos - start)])
    ensures MarkOf(spans[..|spans| - (pos - start)]) == mark
    decreases pos - start
  {
    if start < pos {
      var init := spans[..|spans| - 1];
      assert spans[|spans| - 1].token == Char;
      DecidedPrefix(text, opts, lim, telMatches, init, mark, pos - 1, start);
      assert init[..|init| - (pos - 1 - start)] == spans[..|spans| - (pos - start)];
    } else {
      assert spans[..|spans|] == spans;
    }
  }

  /** Each span of Decided spans is Chosen after the spans before it. */
  lemma {:induction false} DecidedAt(text: seq<char>, opts: Options, lim: Limits, telMatches: seq<int>,
                                     spans: seq<Span>, i: int)
    requires Decided(text, opts, lim, telMatches, spans) && 0 <= i < |spans|
    ensures Chosen(text, opts, lim, telMatches, MarkOf(spans[..i]), spans[i])
    decreases |spans|
  {
    var init := spans[..|spans| - 1];
    if i < |spans| - 1 {
      DecidedAt(text, opts, lim, telMatches, init, i);
      assert init[..i] == spans[..i] && init[i] == spans[i];
    } else {
      assert spans[..i] == init;
    }
  }

  /** Where a Decided output has an escaped character that was handed to
      the recognisers, none of them that is switched on accepts there: no
      URL starts (and none is malformed), no address whose local part
      starts at or after the end of the previous token is around it, no
      phone number starts and no markup opens. */
  lemma CharMeansNothing(text: seq<char>, opts: Options, lim: Limits, telMatches: seq<int>,
                         spans: seq<Span>, i: int)
    requires Decided(text, opts, lim, telMatches, spans) && 0 <= i < |spans|
    requires spans[i].token == Char && 0 <= spans[i].start < |text| && Tried(opts, text[spans[i].start])
    ensures var p, mark := spans[i].start, MarkOf(spans[..i]);
      && p < |telMatches| && TelFits(text, p, telMatches[p])
      && (!opts.ignoreUrls ==>
            && UrlAt(text, p, lim.maxUrlLen).url == [] && !UrlAt(text, p, lim.maxUrlLen).bad
            && !(EmailAround(text, p, lim.maxAddressLen).Address? && mark <= EmailAround(text, p, lim.maxAddressLen).start)
            && (opts.convertPhoneNumbers ==> PhoneNumber(text, p, telMatches[p]) == []))
      && (opts.highlightText ==> MarkupClose(text, p) < 0)
  {
    var p, mark := spans[i].start, MarkOf(spans[..i]);
    DecidedAt(text, opts, lim, telMatches, spans, i);
    assert Passed(text, opts, lim, telMatches, mark, p);
    NothingRecognised(text, opts, lim, telMatches[p], mark, p);
  }

  /** Where a Decided output keeps white space, it is a space or a tab kept
      with PreserveSpaces, rendered as KeptBlank says at the column and with
      the startOfLine that the spans before it leave. */
  lemma BlankMeansKept(text: seq<char>, opts: Options, lim: Limits, telMatches: seq<int>,
                       spans: seq<Span>, i: int)
    requires Decided(text, opts, lim, telMatches, spans) && 0 <= i < |spans| && spans[i].token == Blank
    ensures var p := spans[i].start;
      && 0 <= p < |text| && opts.preserveSpaces && (text[p] == ' ' || text[p] == '\t')
      && spans[i] == KeptBlank(text, p, Column(text, spans[..i]), StartOfLine(text, spans[..i]))
  {
    KeptAt(text, opts, lim, telMatches, spans, i);
  }

  /** Every span of a Decided output is Kept after the spans before it. */
  lemma {:induction false} KeptAt(text: seq<char>, opts: Options, lim: Limits, telMatches: seq<int>,
                                  spans: seq<Span>, i: int)
    requires Decided(text, opts, lim, telMatches, spans) && 0 <= i < |spans|
    ensures Kept(text, spans[..i], spans[i])
    decreases |spans|
  {
    var init := spans[..|spans| - 1];
    if i < |spans| - 1 {
      KeptAt(text, opts, lim, telMatches, init, i);
      assert init[..i] == spans[..i] && init[i] == spans[i];
    } else {
      assert spans[..i] == init;
    }
  }

  /** An output whose spans tile the text and are Decided starts with what
      the recognisers find at index 0; where they find nothing it starts
      with the escaped character, or with an address whose local part
      begins there. */
  lemma FirstSpan(text: seq<char>, opts: Options, lim: Limits, telMatches: seq<int>, spans: seq<Span>)
    requires Tiles(spans, |text|) && |text| > 0 && Decided(text, opts, lim, telMatches, spans)
    requires |telMatches| == |text| && TelFits(text, 0, telMatches[0]) && Tried(opts, text[0])
    ensures spans != []
    ensures var r := RecogniseAt(text, opts, lim, telMatches[0], 0, 0);
      && !r.MalformedUrl?
      && (r.Taken? ==> spans[0] == r.span)
      && (r == NoToken ==> spans[0].token == Char || (spans[0].token.Mail? && 0 < spans[0].token.at))
  {
    assert spans != [];
    TilesFront(spans, |text|);
    DecidedFront(text, opts, lim, telMatches, spans);
    var s := spans[0];
    if s.token.Char? || (s.token.Mail? && 0 < s.token.at) {
      assert Passed(text, opts, lim, telMatches, 0, 0);
    } else {
      assert Anchor(s) == 0;
    }
  }

  /** The first span of a tiling starts at index 0, and the tiling ends
      after it. */
  lemma {:induction false} TilesFront(spans: seq<Span>, to: int)
    requires Tiles(spans, to) && spans != []
    ensures spans[0].start == 0 && spans[0].start < spans[0].end <= to
    decreases |spans|
  {
    var init := spans[..|spans| - 1];
    if init != [] {
      TilesFront(init, spans[|spans| - 1].start);
      assert spans[0] == init[0];
    }
  }

  /** The first span of Decided spans is Chosen after no token. */
  lemma {:induction false} DecidedFront(text: seq<char>, opts: Options, lim: Limits, telMatches: seq<int>, spans: seq<Span>)
    requires Decided(text, opts, lim, telMatches, spans) && spans != []
    ensures Chosen(text, opts, lim, telMatches, 0, spans[0])
    decreases |spans|
  {
    var init := spans[..|spans| - 1];
    if init != [] {
      DecidedFront(text, opts, lim, telMatches, init);
      assert spans[0] == init[0];
    }
  }

}

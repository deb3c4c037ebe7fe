// What convertToHtml emits, described piece by piece.
//
// The converter walks the text once and emits, for each piece of the input
// it consumes, one rendering: an escaped character, preserved white space,
// or an anchor or markup for a recognised token. A Span records one such
// piece (where it starts and ends in the input) together with its rendering;
// the output is the concatenation of the renderings of spans that tile the
// input from left to right.
module HtmlOutput {
  import opened CharClass
  import opened HtmlEscape
  import opened UrlRules
  import opened EmailRules
  import opened PhoneRules
  import opened HighlightRules

  /** The flags of KTextToHTML::Options that the model follows. */
  datatype Options = Options(
    preserveSpaces: bool,
    ignoreUrls: bool,
    highlightText: bool,
    convertPhoneNumbers: bool)

  /** The limits the converter passes to its recognisers. */
  datatype Limits = Limits(maxUrlLen: int, maxAddressLen: int)

  /** What a piece of the input was recognised as. */
  datatype Token =
    | Char                 // one character, escaped
    | Blank                // white space kept with PreserveSpaces
    | Link(url: seq<char>) // a URL, as getUrl returned it
    | Mail(at: int)        // an address whose '@' is at index `at`
    | Phone                // a phone number
    | Mark                 // *bold*, _underline_, /italic/ or -strike-

  datatype Span = Span(token: Token, start: int, end: int, out: seq<char>)

  const Nbsp: seq<char> := "&nbsp;"

  /** `n` non-breaking spaces. */
  function Nbsps(n: nat): (r: seq<char>)
    ensures |r| == 6 * n
  {
    if n == 0 then [] else Nbsps(n - 1) + Nbsp
  }

  /** The target of a URL's anchor: a scheme is added to a "www." or
      "ftp." host. */
  function Hyperlink(url: seq<char>): (r: seq<char>)
    ensures r == url || r == "http://" + url || r == "ftp://" + url
    ensures StartsWith(url, "www.") ==> r == "http://" + url
    ensures !StartsWith(url, "www.") && StartsWith(url, "ftp.") ==> r == "ftp://" + url
    ensures !StartsWith(url, "www.") && !StartsWith(url, "ftp.") ==> r == url
  {
    if StartsWith(url, "www.") then "http://" + url
    else if StartsWith(url, "ftp.") then "ftp://" + url
    else url
  }

  function UrlAnchor(url: seq<char>): seq<char> {
    "<a href=\"" + Hyperlink(url) + "\">" + EscapeEntities(url) + "</a>"
  }

  function MailAnchor(address: seq<char>): seq<char> {
    "<a href=\"mailto:" + address + "\">" + address + "</a>"
  }

  function TelAnchor(number: seq<char>): seq<char> {
    "<a href=\"tel:" + PhoneChars(number) + "\">" + number + "</a>"
  }

  /** A span is a faithful rendering of its piece of `text`: the piece is
      what the recogniser of its kind accepts, the flag that enables that
      recogniser is set, and `out` is the rendering the converter emits. */
  ghost predicate ValidSpan(text: seq<char>, opts: Options, lim: Limits, s: Span) {
    && 0 <= s.start < s.end <= |text|
    && match s.token
       case Char =>
         s.end == s.start + 1 && s.out == HtmlChar(text[s.start])
       case Blank =>
         && opts.preserveSpaces
         && (forall k :: s.start <= k < s.end ==> text[k] == ' ' || text[k] == '\t')
         && (s.out == " " || (|s.out| >= 6 && s.out == Nbsps(|s.out| / 6)))
       case Link(url) =>
         && !opts.ignoreUrls
         && AtUrl(text, s.start)
         && !IsEmptyUrl(url) && |url| <= lim.maxUrlLen
         && (Closer(text, s.start) == '\0' ==> url == text[s.start..s.end])
         && s.out == UrlAnchor(url)
       case Mail(at) =>
         && !opts.ignoreUrls
         && EmailAt(text, s.start, at, s.end, lim.maxAddressLen)
         && s.out == MailAnchor(text[s.start..s.end])
       case Phone =>
         && !opts.ignoreUrls && opts.convertPhoneNumbers
         && PhoneAt(text, s.start, text[s.start..s.end])
         && s.out == TelAnchor(text[s.start..s.end])
       case Mark =>
         && opts.highlightText
         && (s.start == 0 || IsSpace(text[s.start - 1]))
         && IsMarkupSymbol(text[s.start])
         && MatchEndsAt(text, s.start, s.end - 1)
         && (s.end == |text| || IsSpace(text[s.end]))
         && s.out == Markup(text[s.start], text[s.start + 1..s.end - 1])
  }

  /** Every span is valid. */
  ghost predicate AllValid(text: seq<char>, opts: Options, lim: Limits, spans: seq<Span>) {
    spans == [] ||
      (AllValid(text, opts, lim, spans[..|spans| - 1]) && ValidSpan(text, opts, lim, spans[|spans| - 1]))
  }

  /** The spans follow each other without gap or overlap from index 0 up to
      index `to`. */
  ghost predicate Tiles(spans: seq<Span>, to: int) {
    if spans == [] then to == 0
    else
      var last := spans[|spans| - 1];
      last.end == to && last.start < last.end && Tiles(spans[..|spans| - 1], last.start)
  }

  /** The output: the renderings of the spans, in order. */
  function Render(spans: seq<Span>): seq<char> {
    if spans == [] then [] else Render(spans[..|spans| - 1]) + spans[|spans| - 1].out
  }

  /** The last spans, up to index `to`, are single escaped characters that
      cover text[from..to]. */
  ghost predicate CharRun(text: seq<char>, spans: seq<Span>, from: int, to: int)
    decreases to - from
  {
    from <= to &&
    (from == to ||
      (spans != [] &&
       var last := spans[|spans| - 1];
       && last.token == Char && last.start == to - 1 && last.end == to
       && 0 <= last.start < |text| && last.out == HtmlChar(text[last.start])
       && CharRun(text, spans[..|spans| - 1], from, to - 1)))
  }

  /** Appending a valid span that starts where the tiling ends extends the
      tiling and the output. */
  lemma Push(text: seq<char>, opts: Options, lim: Limits, spans: seq<Span>, s: Span, to: int)
    requires Tiles(spans, to) && AllValid(text, opts, lim, spans)
    requires ValidSpan(text, opts, lim, s) && s.start == to
    ensures Tiles(spans + [s], s.end) && AllValid(text, opts, lim, spans + [s])
    ensures Render(spans + [s]) == Render(spans) + s.out
  {
    var t := spans + [s];
    assert t[..|t| - 1] == spans;
  }

  /** Appending the escape of text[to] extends the tiling, the output and
      the run of escaped characters that ends at `to`. */
  lemma PushChar(text: seq<char>, opts: Options, lim: Limits, spans: seq<Span>, s: Span, from: int, to: int)
    requires Tiles(spans, to) && AllValid(text, opts, lim, spans) && CharRun(text, spans, from, to)
    requires ValidSpan(text, opts, lim, s) && s.token == Char && s.start == to
    ensures Tiles(spans + [s], to + 1) && AllValid(text, opts, lim, spans + [s])
    ensures CharRun(text, spans + [s], from, to + 1)
    ensures Render(spans + [s]) == Render(spans) + HtmlChar(text[to])
  {
    var t := spans + [s];
    assert t[..|t| - 1] == spans;
  }

  /** A run of escaped characters up to `to` is also one from any later
      index. */
  lemma {:induction false} CharRunFrom(text: seq<char>, spans: seq<Span>, from: int, mid: int, to: int)
    requires CharRun(text, spans, from, to) && from <= mid <= to
    ensures CharRun(text, spans, mid, to)
  {
    if mid < to {
      CharRunFrom(text, spans[..|spans| - 1], from, mid, to - 1);
    }
  }

  /** White space kept with PreserveSpaces, rendered as one breaking space
      or as n non-breaking ones, is a valid span. */
  lemma BlankSpan(text: seq<char>, opts: Options, lim: Limits, pos: int, last: int, out: seq<char>, n: nat)
    requires opts.preserveSpaces && 0 <= pos <= last < |text|
    requires forall k :: pos <= k <= last ==> text[k] == ' ' || text[k] == '\t'
    requires out == " " || (n >= 1 && out == Nbsps(n))
    ensures ValidSpan(text, opts, lim, Span(Blank, pos, last + 1, out))
  {
  }

  /** Dropping the run of escaped characters covering text[from..to] from
      the end of the spans removes the escape of text[from..to] from the end
      of the output. */
  lemma PopRun(text: seq<char>, spans: seq<Span>, from: int, to: int, k: int)
    requires CharRun(text, spans, from, to) && 0 <= from && to <= |text| && k == to - from
    ensures k <= |spans|
    ensures Render(spans) == Render(spans[..|spans| - k]) + EscapeHtml(text[from..to])
  {
    RunSplit(text, spans, from, to);
    var n := |spans| - k;
    RenderAppend(spans[..n], CharSpans(text, from, to));
    RenderChars(text, from, to);
  }

  /** The spans of the escaped characters of text[from..to], in order. */
  ghost function CharSpans(text: seq<char>, from: int, to: int): (r: seq<Span>)
    requires 0 <= from <= to <= |text|
    ensures |r| == to - from
  {
    if from == to then [] else CharSpans(text, from, to - 1) + [Span(Char, to - 1, to, HtmlChar(text[to - 1]))]
  }

  /** A run of escaped characters is CharSpans at the end of the spans. */
  lemma {:induction false} RunSplit(text: seq<char>, spans: seq<Span>, from: int, to: int)
    requires CharRun(text, spans, from, to) && 0 <= from && to <= |text|
    ensures to - from <= |spans|
    ensures spans == spans[..|spans| - (to - from)] + CharSpans(text, from, to)
  {
    if from == to {
      assert spans[..|spans|] == spans;
    } else {
      var init := spans[..|spans| - 1];
      RunSplit(text, init, from, to - 1);
      var n := |spans| - (to - from);
      var last := spans[|spans| - 1];
      assert last == Span(Char, to - 1, to, HtmlChar(text[to - 1]));
      assert CharSpans(text, from, to) == CharSpans(text, from, to - 1) + [last];
      assert init[..n] == spans[..n];
      assert spans == init + [last];
    }
  }

  /** The rendering of concatenated spans is the concatenation of their
      renderings. */
  lemma {:induction false} RenderAppend(a: seq<Span>, b: seq<Span>)
    ensures Render(a + b) == Render(a) + Render(b)
  {
    if b != [] {
      var init := b[..|b| - 1];
      RenderAppend(a, init);
      assert (a + b)[..|a + b| - 1] == a + init;
    } else {
      assert a + b == a;
    }
  }

  /** The escaped characters of text[from..to] render as its escape. */
  lemma {:induction false} RenderChars(text: seq<char>, from: int, to: int)
    requires 0 <= from <= to <= |text|
    ensures Render(CharSpans(text, from, to)) == EscapeHtml(text[from..to])
  {
    if from == to {
      assert text[from..to] == [];
    } else {
      var cs := CharSpans(text, from, to);
      RenderChars(text, from, to - 1);
      assert cs[..|cs| - 1] == CharSpans(text, from, to - 1);
      EscapeHtmlSnoc(text, from, to);
    }
  }

  lemma EscapeHtmlSnoc(text: seq<char>, from: int, to: int)
    requires 0 <= from < to <= |text|
    ensures EscapeHtml(text[from..to]) == EscapeHtml(text[from..to - 1]) + HtmlChar(text[to - 1])
  {
    var w := text[from..to];
    assert w[..|w| - 1] == text[from..to - 1] && w[|w| - 1] == text[to - 1];
  }

  /** Dropping the run of escaped characters covering text[from..to] from
      the end of a tiling leaves a tiling up to `from`. */
  lemma {:induction false} PopTiles(text: seq<char>, spans: seq<Span>, from: int, to: int, k: int)
    requires Tiles(spans, to) && CharRun(text, spans, from, to) && k == to - from
    ensures k <= |spans|
    ensures Tiles(spans[..|spans| - k], from)
  {
    if from == to {
      assert spans[..|spans| - k] == spans;
    } else {
      var init := spans[..|spans| - 1];
      PopTiles(text, init, from, to - 1, k - 1);
      assert init[..|init| - (k - 1)] == spans[..|spans| - k];
    }
  }

  /** The spans of a prefix are valid when all are. */
  lemma {:induction false} ValidPrefix(text: seq<char>, opts: Options, lim: Limits, spans: seq<Span>, n: int)
    requires AllValid(text, opts, lim, spans) && 0 <= n <= |spans|
    ensures AllValid(text, opts, lim, spans[..n])
    decreases |spans|
  {
    if n < |spans| {
      var init := spans[..|spans| - 1];
      assert init[..n] == spans[..n];
      ValidPrefix(text, opts, lim, init, n);
    } else {
      assert spans[..n] == spans;
    }
  }

  /** The entity escape of a local part is longer than it by four characters
      per '&': "&amp;" replaces '&', and a local part holds no '"', '<' or
      '>'. */
  lemma {:induction false} EscapedLength(s: seq<char>)
    requires forall k :: 0 <= k < |s| ==> IsLocalPartChar(s[k])
    ensures |EscapeEntities(s)| == |s| + 4 * Count(s, '&')
  {
    if s != [] {
      ConcatMapCons(s, EscapeChar);
      EscapedLength(s[1..]);
      assert IsLocalPartChar(s[0]);
      NoMarkupInLocalPart(s[0]);
    }
  }

  lemma NoMarkupInLocalPart(c: char)
    requires IsLocalPartChar(c)
    ensures |EscapeChar(c)| == if c == '&' then 5 else 1
  {
  }

  /** With only escaped characters, the output is the character-wise escape
      of the text. */
  lemma {:induction false} CharsRender(text: seq<char>, opts: Options, lim: Limits, spans: seq<Span>, to: int)
    requires Tiles(spans, to) && AllValid(text, opts, lim, spans) && to <= |text|
    requires forall i :: 0 <= i < |spans| ==> spans[i].token == Char
    ensures Render(spans) == EscapeHtml(text[..to])
  {
    if spans != [] {
      var init, last := spans[..|spans| - 1], spans[|spans| - 1];
      assert ValidSpan(text, opts, lim, last);
      CharsRender(text, opts, lim, init, last.start);
      assert text[..to][..|text[..to]| - 1] == text[..last.start];
    } else {
      assert text[..to] == [];
    }
  }

  /** The local part of an address span is made of dot-atom characters. */
  lemma MailLocal(text: seq<char>, opts: Options, lim: Limits, s: Span, local: seq<char>)
    requires ValidSpan(text, opts, lim, s) && s.token.Mail?
    requires 0 <= s.start <= s.token.at <= |text| && local == text[s.start..s.token.at]
    ensures forall k :: 0 <= k < |local| ==> IsLocalPartChar(local[k])
  {
    forall k | 0 <= k < |local| ensures IsLocalPartChar(local[k]) {
      assert local[k] == text[s.start + k];
    }
  }

  /** The state of convertToHtml after consuming text[..pos]: `result` is
      the rendering of spans tiling text[..pos], and the characters from
      index `mark` on were emitted escaped, one span each. */
  ghost predicate Emitted(text: seq<char>, opts: Options, lim: Limits, spans: seq<Span>, result: seq<char>, mark: int, pos: int) {
    && 0 <= mark <= pos <= |text|
    && Tiles(spans, pos) && AllValid(text, opts, lim, spans) && result == Render(spans)
    && CharRun(text, spans, mark, pos)
  }

  /** Emitting a valid span that starts at the cursor; any span but an
      escaped character ends the run of them. */
  lemma EmitSpan(text: seq<char>, opts: Options, lim: Limits, spans: seq<Span>, result: seq<char>, mark: int, pos: int, s: Span)
    requires Emitted(text, opts, lim, spans, result, mark, pos)
    requires ValidSpan(text, opts, lim, s) && s.start == pos
    ensures Emitted(text, opts, lim, spans + [s], result + s.out, if s.token == Char then mark else s.end, s.end)
  {
    if s.token == Char {
      PushChar(text, opts, lim, spans, s, mark, pos);
    } else {
      Push(text, opts, lim, spans, s, pos);
      assert CharRun(text, spans + [s], s.end, s.end);
    }
  }

  /** Taking back the local part of an address, text[start..pos], which
      was emitted as a run of escaped characters: truncating the output by
      the length of the escaped local part (one character per character of
      it, four more per '&') leaves the output of the spans before it. */
  lemma DropMail(text: seq<char>, opts: Options, lim: Limits, spans: seq<Span>, result: seq<char>, mark: int, pos: int,
                 start: int, local: seq<char>)
    requires Emitted(text, opts, lim, spans, result, mark, pos)
    requires mark <= start <= pos && local == text[start..pos]
    requires forall k :: 0 <= k < |local| ==> IsLocalPartChar(local[k])
    ensures |local| <= |spans|
    ensures Emitted(text, opts, lim, spans[..|spans| - |local|],
      Truncate(result, |result| - |local| - Count(local, '&') * 4), start, start)
  {
    CharRunFrom(text, spans, mark, start, pos);
    DropLocalPart(text, spans, result, start, pos, local);
    ValidPrefix(text, opts, lim, spans, |spans| - |local|);
  }

  /** Without URL recognition, markup and preserved spaces every span is an
      escaped character, and the output is the character-wise escape of the
      text. */
  lemma PlainRender(text: seq<char>, opts: Options, lim: Limits, spans: seq<Span>)
    requires opts.ignoreUrls && !opts.highlightText && !opts.preserveSpaces
    requires Tiles(spans, |text|) && AllValid(text, opts, lim, spans)
    ensures Render(spans) == EscapeHtml(text)
  {
    forall i | 0 <= i < |spans| ensures spans[i].token == Char {
      ValidPrefix(text, opts, lim, spans, i + 1);
      var p := spans[..i + 1];
      assert p[|p| - 1] == spans[i];
    }
    CharsRender(text, opts, lim, spans, |text|);
    assert text[..|text|] == text;
  }

  /** QString::truncate: keep the first n characters; a negative n keeps
      none and an n past the end keeps all. */
  function Truncate(s: seq<char>, n: int): (r: seq<char>)
    ensures 0 <= n <= |s| ==> r == s[..n]
    ensures n < 0 ==> r == []
    ensures n > |s| ==> r == s
  {
    if n < 0 then [] else if n < |s| then s[..n] else s
  }

  /** Removing from the output as many characters as the escape of an
      address's local part takes (one per character, four more per '&')
      removes exactly the escaped local part, provided the local part was
      emitted as a run of escaped characters. */
  lemma DropLocalPart(text: seq<char>, spans: seq<Span>, result: seq<char>, start: int, at: int, local: seq<char>)
    requires Tiles(spans, at) && CharRun(text, spans, start, at) && result == Render(spans)
    requires 0 <= start <= at <= |text| && local == text[start..at]
    requires forall k :: 0 <= k < |local| ==> IsLocalPartChar(local[k])
    ensures |local| <= |spans|
    ensures Tiles(spans[..|spans| - |local|], start)
    ensures Truncate(result, |result| - |local| - Count(local, '&') * 4) == Render(spans[..|spans| - |local|])
  {
    PopTiles(text, spans, start, at, |local|);
    TruncateRun(text, spans, result, start, at, local);
  }

  lemma TruncateRun(text: seq<char>, spans: seq<Span>, result: seq<char>, start: int, at: int, local: seq<char>)
    requires CharRun(text, spans, start, at) && result == Render(spans)
    requires 0 <= start <= at <= |text| && local == text[start..at]
    requires forall k :: 0 <= k < |local| ==> IsLocalPartChar(local[k])
    ensures |local| <= |spans|
    ensures Truncate(result, |result| - |local| - Count(local, '&') * 4) == Render(spans[..|spans| - |local|])
  {
    PopRun(text, spans, start, at, |local|);
    var head := Render(spans[..|spans| - |local|]);
    assert result == head + EscapeHtml(local);
    LocalPartEscape(local);
    TruncateAppend(head, EscapeEntities(local));
  }

  /** A local part escapes without line breaks, four extra characters for
      each '&'. */
  lemma LocalPartEscape(local: seq<char>)
    requires forall k :: 0 <= k < |local| ==> IsLocalPartChar(local[k])
    ensures EscapeHtml(local) == EscapeEntities(local)
    ensures |EscapeEntities(local)| == |local| + 4 * Count(local, '&')
  {
    assert '\n' !in local by {
      forall k | 0 <= k < |local| ensures local[k] != '\n' {
        assert IsLocalPartChar(local[k]);
      }
    }
    EscapeHtmlWithoutNewline(local);
    EscapedLength(local);
  }

  /** Truncating a concatenation to the length of its first part leaves
      that part. */
  lemma TruncateAppend(a: seq<char>, b: seq<char>)
    ensures Truncate(a + b, |a|) == a
  {
    assert (a + b)[..|a|] == a;
  }
}

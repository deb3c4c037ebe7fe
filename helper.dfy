// KTextToHTMLHelper: a cursor over an immutable text. Each recogniser looks
// for one kind of token at the cursor; when it finds one it returns the
// token and leaves the cursor on the token's last character, otherwise it
// returns the empty string and leaves the cursor where it was.
module TextToHtmlHelper {
  import opened CharClass
  import opened UrlRules
  import opened EmailRules
  import opened PhoneRules
  import opened HighlightRules

  class Helper {
    const text: seq<char>
    const maxUrlLen: int
    const maxAddressLen: int
    var pos: int

    constructor (plainText: seq<char>, start: int, maxUrlLen: int, maxAddressLen: int)
      ensures text == plainText && pos == start
      ensures this.maxUrlLen == maxUrlLen && this.maxAddressLen == maxAddressLen
    {
      text := plainText;
      this.maxUrlLen := maxUrlLen;
      this.maxAddressLen := maxAddressLen;
      pos := start;
    }

    /** getEmailAddress: an address around the '@' at the cursor; see
        FindEmail. */
    method GetEmailAddress() returns (address: seq<char>, ghost start: int)
      requires 0 <= pos < |text|
      modifies this
      ensures EmailAround(text, old(pos), maxAddressLen) == if address == [] then NoAddress else Address(start, pos + 1)
      ensures address == [] ==> pos == old(pos)
      ensures address != [] ==>
        EmailAt(text, start, old(pos), pos + 1, maxAddressLen) && address == text[start..pos + 1]
    {
      var end;
      address, start, end := FindEmail(text, pos, maxAddressLen);
      EmailAroundSound(text, pos, maxAddressLen);
      if address != [] {
        pos := end - 1;
      }
    }

    /** getPhoneNumber, given the length of the anchored match of the
        telephone pattern at the cursor (0: no match). */
    method GetPhoneNumber(telMatch: int) returns (r: seq<char>)
      requires 0 <= pos < |text|
      requires telMatch == 0 || (0 < telMatch && pos + telMatch <= |text| && TelShape(text[pos..pos + telMatch]))
      modifies this
      ensures r == PhoneNumber(text, old(pos), telMatch)
      ensures r == [] ==> pos == old(pos)
      ensures r != [] ==> PhoneAt(text, old(pos), r) && pos == old(pos) + |r| - 1
    {
      r := FindPhone(text, pos, telMatch);
      if r != [] {
        pos := pos + |r| - 1;
      }
    }

    /** getUrl: the URL at the cursor, with the cursor left on its last
        character; see FindUrl. */
    method GetUrl() returns (url: seq<char>, bad: bool, ghost raw: seq<char>, ghost end: int)
      requires 0 <= pos < |text|
      modifies this
      ensures UrlResult(url, bad, pos) == UrlAt(text, old(pos), maxUrlLen)
      ensures UrlFound(text, old(pos), maxUrlLen, url, bad, pos, raw, end)
    {
      var p;
      url, bad, p := FindUrl(text, pos, maxUrlLen);
      UrlAtMeaning(text, pos, maxUrlLen);
      raw, end := ScanFrom(text, pos, maxUrlLen).url, ScanFrom(text, pos, maxUrlLen).end;
      pos := p;
    }

    /** highlightedText: *bold*, _underline_, /italic/ or -strike- markup
        opening at the cursor. */
    method HighlightedText() returns (r: seq<char>)
      requires 0 <= pos < |text|
      modifies this
      ensures r != [] <==> MarkupClose(text, old(pos)) >= 0
      ensures r != [] ==> pos == MarkupClose(text, old(pos))
      ensures r == [] ==> pos == old(pos)
      ensures r != [] ==> var p := old(pos);
        && (p == 0 || IsSpace(text[p - 1]))
        && IsMarkupSymbol(text[p])
        && MatchEndsAt(text, p, pos)
        && (forall q :: p + 3 <= q < pos ==> !MatchEndsAt(text, p, q))
        && (pos + 1 == |text| || IsSpace(text[pos + 1]))
        && r == Markup(text[p], text[p + 1..pos])
    {
      r := [];
      // the symbol must follow white space
      if pos > 0 && !IsSpace(text[pos - 1]) {
        return;
      }
      var ch := text[pos];
      if !IsMarkupSymbol(ch) {
        return;
      }
      var q := FindClose(text, pos, pos + 3);
      if q < 0 {
        return;
      }
      var length := q - pos + 1;
      // white space must follow the closing symbol
      if pos + length < |text| && !IsSpace(text[pos + length]) {
        return;
      }
      var inner := text[pos + 1..q];
      pos := pos + length - 1;
      r := Markup(ch, inner);
    }
  }

  /** What a URL recogniser reports: the URL (empty when there is none),
      whether the text is malformed, and where the cursor is left. */
  datatype UrlResult = UrlResult(url: seq<char>, bad: bool, pos: int)

  /** getUrl as written, run at index start: scan a URL, refuse a bare
      scheme or an overlong candidate, then drop trailing word boundaries,
      moving the cursor back with each. The cursor is left on the last
      character of the URL, back at start when there is none, or on the
      offending '>' of a malformed URL. The emptiness test comes before the
      dropping, so the result can be a bare scheme ("http://." gives
      "http://"). */
  function UrlAsWritten(text: seq<char>, start: int, maxUrlLen: int): UrlResult
    requires 0 <= start < |text|
  {
    if !AtUrl(text, start) then UrlResult([], false, start)
    else UrlFromScan(start, ScanFrom(text, start, maxUrlLen), maxUrlLen)
  }

  /** The part of getUrl that follows the scan: report a malformed URL,
      refuse a bare scheme or an overlong candidate, drop trailing word
      boundaries. */
  function UrlFromScan(start: int, s: Scanned, maxUrlLen: int): UrlResult {
    if s.bad then UrlResult([], true, s.end)
    else if IsEmptyUrl(s.url) || |s.url| > maxUrlLen then UrlResult([], false, start)
    else
      var u := StripBoundaries(s.url);
      UrlResult(u, false, s.end - 1 - (|s.url| - |u|))
  }

  /** getUrl with the emptiness test also applied to the result: a
      candidate that dropping word boundaries reduces to a bare scheme is
      refused, and the cursor goes back to start. */
  function UrlAt(text: seq<char>, start: int, maxUrlLen: int): UrlResult
    requires 0 <= start < |text|
  {
    var w := UrlAsWritten(text, start, maxUrlLen);
    if w.url != [] && IsEmptyUrl(w.url) then UrlResult([], false, start) else w
  }

  /** What getUrl as written makes of a proper scan outcome `s`. */
  ghost predicate UrlFromScanned(text: seq<char>, start: int, maxUrlLen: int, r: UrlResult, s: Scanned)
    requires 0 <= start < |text|
  {
    && (r.bad ==> r.url == [] && start < r.pos < |text| && text[r.pos] == '>' && QuoteIn(text, start, r.pos))
    && (!r.bad && r.url == [] ==> r.pos == start)
    && (r.url != [] ==> !r.bad && !IsEmptyUrl(s.url) && UrlTaken(text, start, maxUrlLen, r, s))
  }

  /** A URL taken from the scanned candidate `s`: at most maxUrlLen long,
      less its trailing word boundaries, with the cursor on its last
      character; taken verbatim from the text when not enclosed. */
  ghost predicate UrlTaken(text: seq<char>, start: int, maxUrlLen: int, r: UrlResult, s: Scanned)
    requires 0 <= start < |text|
  {
    && start <= r.pos < |text|
    && start < s.end <= |text| && ScannedUrl(text, start, s.end, s.url, maxUrlLen)
    && |s.url| <= maxUrlLen
    && r.url == StripBoundaries(s.url) && r.pos == s.end - 1 - (|s.url| - |r.url|)
    && (Closer(text, start) == '\0' ==> r.url == text[start..r.pos + 1])
  }

  lemma ScanResultMeaning(text: seq<char>, start: int, maxUrlLen: int, s: Scanned)
    requires 0 <= start < |text| && ScanOutcome(text, start, maxUrlLen, s)
    ensures UrlFromScanned(text, start, maxUrlLen, UrlFromScan(start, s, maxUrlLen), s)
  {
    if s.bad {
      assert UrlFromScan(start, s, maxUrlLen) == UrlResult([], true, s.end);
    } else if IsEmptyUrl(s.url) || |s.url| > maxUrlLen {
      assert UrlFromScan(start, s, maxUrlLen) == UrlResult([], false, start);
    } else {
      ScanResultUrl(text, start, maxUrlLen, s);
      var u := StripBoundaries(s.url);
      assert UrlFromScan(start, s, maxUrlLen) == UrlResult(u, false, s.end - 1 - (|s.url| - |u|));
    }
  }

  lemma ScanResultUrl(text: seq<char>, start: int, maxUrlLen: int, s: Scanned)
    requires 0 <= start < |text| && ScanOutcome(text, start, maxUrlLen, s)
    requires !s.bad && s.url != [] && |s.url| <= maxUrlLen
    ensures var u := StripBoundaries(s.url);
      UrlTaken(text, start, maxUrlLen, UrlResult(u, false, s.end - 1 - (|s.url| - |u|)), s)
  {
    var u := StripBoundaries(s.url);
    var r := UrlResult(u, false, s.end - 1 - (|s.url| - |u|));
    assert ScannedUrl(text, start, s.end, s.url, maxUrlLen);
    assert |s.url| <= s.end - start;
    if Closer(text, start) == '\0' {
      UnenclosedIsVerbatim(text, start, s.end, s.url, maxUrlLen);
      assert r.pos + 1 == start + |u|;
    }
  }

  /** What getUrl as written finds at index start: nothing where no URL
      starts (cursor unmoved); a malformed URL (cursor on the '>' that
      follows a '"'); nothing when the candidate is refused (cursor
      unmoved); or the scanned candidate, at most maxUrlLen long and not a
      bare scheme, less its trailing word boundaries, with the cursor on its
      last character. A URL that is not enclosed is taken from the text
      verbatim. */
  lemma UrlAsWrittenMeaning(text: seq<char>, start: int, maxUrlLen: int)
    requires 0 <= start < |text|
    ensures !AtUrl(text, start) ==> UrlAsWritten(text, start, maxUrlLen) == UrlResult([], false, start)
    ensures AtUrl(text, start) ==>
      UrlFromScanned(text, start, maxUrlLen, UrlAsWritten(text, start, maxUrlLen), ScanFrom(text, start, maxUrlLen))
  {
    if AtUrl(text, start) {
      ScanFromMeaning(text, start, maxUrlLen);
      ScanResultMeaning(text, start, maxUrlLen, ScanFrom(text, start, maxUrlLen));
    }
  }

  /** What getUrl finds at index start: as UrlAsWrittenMeaning states, and
      the URL is never a bare scheme. */
  lemma UrlAtMeaning(text: seq<char>, start: int, maxUrlLen: int)
    requires 0 <= start < |text|
    ensures var r := UrlAt(text, start, maxUrlLen);
      var s := ScanFrom(text, start, maxUrlLen);
      UrlFound(text, start, maxUrlLen, r.url, r.bad, r.pos, s.url, s.end)
  {
    if AtUrl(text, start) {
      var s := ScanFrom(text, start, maxUrlLen);
      ScanFromMeaning(text, start, maxUrlLen);
      RefusedFound(text, start, maxUrlLen, s);
    }
  }

  /** Refusing a bare scheme after the scan leaves a URL that is not one. */
  lemma RefusedFound(text: seq<char>, start: int, maxUrlLen: int, s: Scanned)
    requires 0 <= start < |text| && AtUrl(text, start) && ScanOutcome(text, start, maxUrlLen, s)
    ensures var w := UrlFromScan(start, s, maxUrlLen);
      var r := if w.url != [] && IsEmptyUrl(w.url) then UrlResult([], false, start) else w;
      UrlFound(text, start, maxUrlLen, r.url, r.bad, r.pos, s.url, s.end)
  {
    ScanResultMeaning(text, start, maxUrlLen, s);
  }

  /** In the running text "http://." getUrl as written links the bare
      scheme "http://", which its own emptiness test is meant to refuse;
      the corrected getUrl finds no URL there. */
  lemma BareSchemeAsWritten()
    ensures UrlAsWritten("http://.", 0, 4096) == UrlResult("http://", false, 6)
    ensures UrlAt("http://.", 0, 4096) == UrlResult([], false, 0)
  {
    var text := "http://.";
    HttpDotText();
    WholeTextScanned(text, 4096);
    StripHttpDot();
  }

  /** "http://." starts with a scheme, and every character of it is
      printable and none a space, a quote, a bracket or a '<'. */
  lemma HttpDotText()
    ensures At("http://.", 0, "http://")
    ensures forall k :: 0 <= k < |"http://."| ==> ' ' < "http://."[k] <= '~' && "http://."[k] !in "[]<\""
  {
    var text := "http://.";
    assert At(text, 0, "http://");
  }

  /** A text of printable characters, none of them white space, a quote, a
      bracket or a '<', and no longer than maxUrlLen, is scanned whole from
      its start. */
  lemma WholeTextScanned(text: seq<char>, maxUrlLen: int)
    requires |text| <= maxUrlLen
    requires forall k :: 0 <= k < |text| ==> ' ' < text[k] <= '~' && text[k] !in "[]<\""
    ensures ScanFrom(text, 0, maxUrlLen) == Scanned(text, false, |text|)
  {
    var r := ScanFrom(text, 0, maxUrlLen);
    ScanFromMeaning(text, 0, maxUrlLen);
    assert !r.bad;
    assert forall k :: 0 <= k < |text| ==> Consumable(text[k], '\0');
    assert r.end == |text|;
    CollectedVerbatim(text, 0, |text|);
  }

  /** getUrl as written, run at index start; see UrlAsWritten. */
  method FindUrlAsWritten(text: seq<char>, start: int, maxUrlLen: int) returns (url: seq<char>, bad: bool, pos: int)
    requires 0 <= start < |text|
    ensures UrlResult(url, bad, pos) == UrlAsWritten(text, start, maxUrlLen)
  {
    url, bad, pos := [], false, start;
    if !AtUrl(text, start) {
      return;
    }
    var scanned, scanEnd;
    scanned, bad, scanEnd := ScanUrl(text, start, maxUrlLen);
    if bad {
      pos := scanEnd;
      return;
    }
    if IsEmptyUrl(scanned) || |scanned| > maxUrlLen {
      return;
    }
    url, pos := ChopBoundaries(scanned, scanEnd - 1);
  }

  /** The trailing-punctuation loop of getUrl: drop characters of
      ".,:!?)>" from the end while more than one character is left, moving
      the cursor back with each. */
  method ChopBoundaries(url: seq<char>, pos: int) returns (kept: seq<char>, newPos: int)
    ensures kept == StripBoundaries(url)
    ensures newPos == pos - (|url| - |kept|)
  {
    kept, newPos := url, pos;
    while |kept| > 1 && kept[|kept| - 1] in WordBoundaries
      invariant |kept| <= |url|
      invariant StripBoundaries(kept) == StripBoundaries(url)
      invariant newPos == pos - (|url| - |kept|)
    {
      kept := kept[..|kept| - 1];
      newPos := newPos - 1;
    }
  }

  /** What getUrl, run at index start, finds: nothing where no URL starts
      (cursor unmoved); a malformed URL (cursor on the '>' that follows a
      '"'); nothing when the candidate is refused (cursor unmoved); or a URL
      that is not a bare scheme, at most maxUrlLen long, obtained from the
      scanned candidate `raw` by dropping trailing word boundaries, with the
      cursor on its last character. A URL that is not enclosed is taken from
      the text verbatim. */
  ghost predicate UrlFound(text: seq<char>, start: int, maxUrlLen: int,
                           url: seq<char>, bad: bool, pos: int, raw: seq<char>, end: int)
    requires 0 <= start < |text|
  {
    && (!AtUrl(text, start) ==> url == [] && !bad && pos == start)
    && (bad ==> (AtUrl(text, start) && url == [] && start < pos < |text| && text[pos] == '>'
          && QuoteIn(text, start, pos)))
    && (!bad && url == [] ==> pos == start)
    && (url != [] ==> (!IsEmptyUrl(url) && |url| <= maxUrlLen
          && AtUrl(text, start) && start <= pos < |text| && !bad
          && start < end <= |text| && ScannedUrl(text, start, end, raw, maxUrlLen)
          && url == StripBoundaries(raw) && pos == end - 1 - (|raw| - |url|)))
    && (url != [] && Closer(text, start) == '\0' ==> url == text[start..pos + 1])
  }

  /** getUrl, run at index start; see UrlAt. */
  method FindUrl(text: seq<char>, start: int, maxUrlLen: int) returns (url: seq<char>, bad: bool, pos: int)
    requires 0 <= start < |text|
    ensures UrlResult(url, bad, pos) == UrlAt(text, start, maxUrlLen)
  {
    url, bad, pos := FindUrlAsWritten(text, start, maxUrlLen);
    if url != [] && IsEmptyUrl(url) {
      url, pos := [], start;
    }
  }

  /** The address around the '@' at index at: back over dot-atom
      characters (an '@' there means no address) and forward to the first
      letter or digit, then forward over domain characters (an '@' there
      means no address) and back to the last letter or digit; the domain
      must hold a dot and the whole be at most maxAddressLen long. `end` is
      the index just past the address. */
  method FindEmail(text: seq<char>, at: int, maxAddressLen: int)
    returns (address: seq<char>, ghost start: int, end: int)
    requires 0 <= at < |text|
    ensures EmailAround(text, at, maxAddressLen) == if address == [] then NoAddress else Address(start, end)
    ensures address != [] ==> address == text[start..end]
  {
    address, start, end := [], 0, 0;
    if text[at] != '@' {
      return;
    }
    var local := BackOverLocal(text, at - 1);
    if local.MetAt? {
      return;
    }
    var s := ForwardToAlnum(text, local.index, at);
    if s == at {
      return;
    }
    var domain, dotPos := ForwardOverDomain(text, at + 1);
    if domain.MetAt? {
      return;
    }
    var e := BackToLetterOrDigit(text, at, domain.index);
    if e == at || dotPos >= e || e - s > maxAddressLen {
      return;
    }
    address, start, end := text[s..e], s, e;
  }

  /** The first loop of getEmailAddress: back from index s over dot-atom
      characters; an '@' there means this is no address. */
  method BackOverLocal(text: seq<char>, s: int) returns (r: Reach)
    requires -1 <= s < |text|
    ensures r == LocalWalk(text, s)
  {
    var i := s;
    while i >= 0 && IsAscii(text[i]) && (IsLetterOrNumber(text[i]) || text[i] == '@' || IsDotAtomSpecial(text[i]))
      invariant -1 <= i <= s
      invariant LocalWalk(text, i) == LocalWalk(text, s)
    {
      if text[i] == '@' {
        return MetAt;
      }
      i := i - 1;
    }
    r := StopsAt(i + 1);
  }

  /** The second loop of getEmailAddress: an address starts with a letter
      or a digit. */
  method ForwardToAlnum(text: seq<char>, s: int, hi: int) returns (r: int)
    requires 0 <= s <= hi <= |text|
    ensures r == SkipToAlnum(text, s, hi)
  {
    r := s;
    while r < hi && !IsLetterOrNumber(text[r])
      invariant s <= r <= hi
      invariant SkipToAlnum(text, r, hi) == SkipToAlnum(text, s, hi)
    {
      r := r + 1;
    }
  }

  /** The third loop of getEmailAddress: forward from index e over the
      domain, noting the first dot; an '@' there means this is no address.
      dotPos == |text| stands for "no dot seen" (the source starts from
      INT_MAX, and no end index reaches either value). */
  method ForwardOverDomain(text: seq<char>, e: int) returns (r: Reach, dotPos: int)
    requires 0 <= e <= |text|
    ensures r == DomainWalk(text, e)
    ensures r.StopsAt? ==> dotPos == FirstDot(text, e, r.index)
  {
    var i := e;
    dotPos := |text|;
    while i < |text| && (IsLetterOrNumber(text[i]) || text[i] == '@' || text[i] == '.' || text[i] == '-')
      invariant e <= i <= |text|
      invariant DomainWalk(text, i) == DomainWalk(text, e)
      invariant dotPos == FirstDot(text, e, i)
    {
      if text[i] == '@' {
        return MetAt, dotPos;
      }
      if text[i] == '.' && i < dotPos {
        dotPos := i;
      }
      i := i + 1;
    }
    r := StopsAt(i);
  }

  /** The last loop of getEmailAddress: an address ends with a letter or a
      digit. */
  method BackToLetterOrDigit(text: seq<char>, at: int, e: int) returns (r: int)
    requires 0 <= at <= e <= |text|
    ensures r == BackToAlnum(text, at, e)
  {
    r := e;
    while r > at && !IsLetterOrNumber(text[r - 1])
      invariant at <= r <= e
      invariant BackToAlnum(text, at, r) == BackToAlnum(text, at, e)
    {
      r := r - 1;
    }
  }

  /** What the scanning loop of getUrl does with one consumable character. */
  datatype ScanAction =
    | Stop           // end the URL before this character
    | StopWithSpace  // end the URL with a single space in place of the white space
    | Malformed      // the text holds a malformed URL
    | Skip           // white space inside an enclosed URL: drop it
    | Take           // append the character to the URL

  /** One turn of the scanning loop of getUrl at index pos: stop before a
      '<' or a space that another URL follows; drop white space; stop at a
      '[' or ']' unless a '#' came before; after white space, stop at a '<';
      refuse a '>' right after a '"'; take anything else. */
  function ScanAct(text: seq<char>, pos: int, prevSpace: bool, prevQuote: bool, prevAnchor: bool): (act: ScanAction)
    requires 0 <= pos < |text|
    ensures act == Stop ==> text[pos] in "[]< "
    ensures act == StopWithSpace ==> prevSpace && text[pos] == '<'
    ensures act == Malformed ==> prevQuote && text[pos] == '>'
    ensures act == Skip <==> IsSpace(text[pos]) && act != Stop
    ensures act == Take ==> (!IsSpace(text[pos]) && !(prevQuote && text[pos] == '>')
      && (prevAnchor || (text[pos] != '[' && text[pos] != ']')))
  {
    var c := text[pos];
    if !prevSpace && (c == '<' || c == ' ') && pos + 1 < |text| && AtUrl(text, pos + 1) then Stop
    else if IsSpace(c) then Skip
    else if !prevAnchor && (c == '[' || c == ']') then Stop
    else if prevSpace && c == '<' then StopWithSpace
    else if c == '>' && prevQuote then Malformed
    else Take
  }

  /** Where the scanning loop of getUrl stops: the candidate collected, a
      malformed URL, and the index the cursor stops at. */
  datatype Scanned = Scanned(url: seq<char>, bad: bool, end: int)

  /** The scanning loop of getUrl from index pos on, with the candidate
      collected so far and the loop's three flags. */
  function Scan(text: seq<char>, start: int, maxUrlLen: int, pos: int, url: seq<char>,
                prevSpace: bool, prevQuote: bool, prevAnchor: bool): (r: Scanned)
    requires 0 <= start <= pos <= |text|
    requires |url| <= pos - start && (prevSpace ==> |url| < pos - start)
    ensures r.bad ==> r.url == [] && pos <= r.end < |text|
    ensures !r.bad ==> pos <= r.end <= |text| && (|r.url| <= r.end - start || |r.url| > maxUrlLen)
    decreases |text| - pos
  {
    if pos == |text| || !Consumable(text[pos], Closer(text, start)) then Scanned(url, false, pos)
    else
      match ScanAct(text, pos, prevSpace, prevQuote, prevAnchor)
      case Stop => Scanned(url, false, pos)
      case StopWithSpace => Scanned(url + [' '], false, pos)
      case Malformed => Scanned([], true, pos)
      case Skip => Scan(text, start, maxUrlLen, pos + 1, url, true, prevQuote, prevAnchor)
      case Take =>
        var u := url + [text[pos]];
        if |u| > maxUrlLen then Scanned(u, false, pos)
        else Scan(text, start, maxUrlLen, pos + 1, u, false, text[pos] == '"', prevAnchor || text[pos] == '#')
  }

  /** One turn of the scanning loop: what each action does to the rest
      of the scan. */
  lemma ScanOn(text: seq<char>, start: int, maxUrlLen: int, pos: int, url: seq<char>,
               prevSpace: bool, prevQuote: bool, prevAnchor: bool)
    requires 0 <= start <= pos < |text|
    requires |url| <= pos - start && (prevSpace ==> |url| < pos - start)
    requires Consumable(text[pos], Closer(text, start))
    ensures var act := ScanAct(text, pos, prevSpace, prevQuote, prevAnchor);
      var r := Scan(text, start, maxUrlLen, pos, url, prevSpace, prevQuote, prevAnchor);
      && (act == Stop ==> r == Scanned(url, false, pos))
      && (act == StopWithSpace ==> r == Scanned(url + [' '], false, pos))
      && (act == Malformed ==> r == Scanned([], true, pos))
      && (act == Skip ==> r == Scan(text, start, maxUrlLen, pos + 1, url, true, prevQuote, prevAnchor))
      && (act == Take && |url| + 1 > maxUrlLen ==> r == Scanned(url + [text[pos]], false, pos))
      && (act == Take && |url| + 1 <= maxUrlLen ==>
            r == Scan(text, start, maxUrlLen, pos + 1, url + [text[pos]], false, text[pos] == '"', prevAnchor || text[pos] == '#'))
  {
  }

  /** What the scanning loop keeps while it runs: it consumed
      text[start..pos], all of it allowed by the enclosure, and collected it
      without white space; white space was just skipped only inside an
      enclosed URL, and a '"' was just taken only if there is one. */
  ghost predicate ScanInvariant(text: seq<char>, start: int, pos: int, url: seq<char>, prevSpace: bool, prevQuote: bool) {
    && 0 <= start <= pos <= |text|
    && AllConsumable(text, start, pos)
    && url == Collected(text, start, pos)
    && (prevSpace ==> Closer(text, start) != '\0' && |url| < pos - start)
    && (prevQuote ==> QuoteIn(text, start, pos))
  }

  /** What the scanning loop finds: a malformed URL is a '>' after a '"';
      otherwise the candidate is described by ScannedUrl, and the scan
      stopped only at a character it may not consume, at a bracket, a '<' or
      a space, or with a candidate that grew too long. */
  ghost predicate ScanOutcome(text: seq<char>, start: int, maxUrlLen: int, r: Scanned)
    requires 0 <= start <= |text|
  {
    && (r.bad ==> start < r.end < |text| && text[r.end] == '>' && QuoteIn(text, start, r.end))
    && (!r.bad ==> start <= r.end <= |text| && ScannedUrl(text, start, r.end, r.url, maxUrlLen))
    && (!r.bad && r.end < |text| ==>
          !Consumable(text[r.end], Closer(text, start)) || text[r.end] in "[]< " || |r.url| > maxUrlLen)
  }

  /** Whatever the scan finds from a state that keeps the invariant is a
      proper outcome. */
  lemma {:induction false} ScanMeaning(text: seq<char>, start: int, maxUrlLen: int, pos: int, url: seq<char>,
                                       prevSpace: bool, prevQuote: bool, prevAnchor: bool)
    requires ScanInvariant(text, start, pos, url, prevSpace, prevQuote)
    ensures ScanOutcome(text, start, maxUrlLen, Scan(text, start, maxUrlLen, pos, url, prevSpace, prevQuote, prevAnchor))
    decreases |text| - pos, 2
  {
    if pos == |text| || !Consumable(text[pos], Closer(text, start)) {
      StopOutcome(text, start, maxUrlLen, pos, url, prevSpace, prevQuote);
    } else {
      var act := ScanAct(text, pos, prevSpace, prevQuote, prevAnchor);
      if act == Skip {
        ScanMeaningSkip(text, start, maxUrlLen, pos, url, prevSpace, prevQuote, prevAnchor);
      } else if act == Take {
        ScanMeaningTake(text, start, maxUrlLen, pos, url, prevSpace, prevQuote, prevAnchor);
      } else {
        ScanMeaningStop(text, start, maxUrlLen, pos, url, prevSpace, prevQuote, prevAnchor);
      }
    }
  }

  lemma {:induction false} ScanMeaningSkip(text: seq<char>, start: int, maxUrlLen: int, pos: int, url: seq<char>,
                                           prevSpace: bool, prevQuote: bool, prevAnchor: bool)
    requires ScanInvariant(text, start, pos, url, prevSpace, prevQuote)
    requires pos < |text| && Consumable(text[pos], Closer(text, start))
    requires ScanAct(text, pos, prevSpace, prevQuote, prevAnchor) == Skip
    ensures ScanOutcome(text, start, maxUrlLen, Scan(text, start, maxUrlLen, pos, url, prevSpace, prevQuote, prevAnchor))
    decreases |text| - pos, 0
  {
    var r := Scan(text, start, maxUrlLen, pos, url, prevSpace, prevQuote, prevAnchor);
    var next := Scan(text, start, maxUrlLen, pos + 1, url, true, prevQuote, prevAnchor);
    assert r == next;
    SkipKeeps(text, start, pos, url, prevSpace, prevQuote);
    ScanMeaning(text, start, maxUrlLen, pos + 1, url, true, prevQuote, prevAnchor);
  }

  lemma {:induction false} ScanMeaningTake(text: seq<char>, start: int, maxUrlLen: int, pos: int, url: seq<char>,
                                           prevSpace: bool, prevQuote: bool, prevAnchor: bool)
    requires ScanInvariant(text, start, pos, url, prevSpace, prevQuote)
    requires pos < |text| && Consumable(text[pos], Closer(text, start))
    requires ScanAct(text, pos, prevSpace, prevQuote, prevAnchor) == Take
    ensures ScanOutcome(text, start, maxUrlLen, Scan(text, start, maxUrlLen, pos, url, prevSpace, prevQuote, prevAnchor))
    decreases |text| - pos, 1
  {
    if |url| + 1 > maxUrlLen {
      ScanOn(text, start, maxUrlLen, pos, url, prevSpace, prevQuote, prevAnchor);
      OverOutcome(text, start, maxUrlLen, pos, url, prevSpace, prevQuote);
    } else {
      ScanMeaningTakeOn(text, start, maxUrlLen, pos, url, prevSpace, prevQuote, prevAnchor);
    }
  }

  lemma {:induction false} ScanMeaningTakeOn(text: seq<char>, start: int, maxUrlLen: int, pos: int, url: seq<char>,
                                             prevSpace: bool, prevQuote: bool, prevAnchor: bool)
    requires ScanInvariant(text, start, pos, url, prevSpace, prevQuote)
    requires pos < |text| && Consumable(text[pos], Closer(text, start))
    requires ScanAct(text, pos, prevSpace, prevQuote, prevAnchor) == Take && |url| + 1 <= maxUrlLen
    ensures ScanOutcome(text, start, maxUrlLen, Scan(text, start, maxUrlLen, pos, url, prevSpace, prevQuote, prevAnchor))
    decreases |text| - pos, 0
  {
    var u := url + [text[pos]];
    assert Scan(text, start, maxUrlLen, pos, url, prevSpace, prevQuote, prevAnchor)
        == Scan(text, start, maxUrlLen, pos + 1, u, false, text[pos] == '"', prevAnchor || text[pos] == '#');
    TakeKeeps(text, start, pos, url, prevSpace, prevQuote);
    ScanMeaning(text, start, maxUrlLen, pos + 1, u, false, text[pos] == '"', prevAnchor || text[pos] == '#');
  }

  lemma ScanMeaningStop(text: seq<char>, start: int, maxUrlLen: int, pos: int, url: seq<char>,
                        prevSpace: bool, prevQuote: bool, prevAnchor: bool)
    requires ScanInvariant(text, start, pos, url, prevSpace, prevQuote)
    requires pos < |text| && Consumable(text[pos], Closer(text, start))
    requires ScanAct(text, pos, prevSpace, prevQuote, prevAnchor) !in {Skip, Take}
    ensures ScanOutcome(text, start, maxUrlLen, Scan(text, start, maxUrlLen, pos, url, prevSpace, prevQuote, prevAnchor))
  {
    var act := ScanAct(text, pos, prevSpace, prevQuote, prevAnchor);
    ScanOn(text, start, maxUrlLen, pos, url, prevSpace, prevQuote, prevAnchor);
    if act == Stop {
      StopOutcome(text, start, maxUrlLen, pos, url, prevSpace, prevQuote);
    } else if act == StopWithSpace {
      SpaceOutcome(text, start, maxUrlLen, pos, url, prevQuote);
    } else {
      MalformedOutcome(text, start, maxUrlLen, pos, url, prevSpace);
    }
  }

  lemma StopOutcome(text: seq<char>, start: int, maxUrlLen: int, pos: int, url: seq<char>, prevSpace: bool, prevQuote: bool)
    requires ScanInvariant(text, start, pos, url, prevSpace, prevQuote)
    requires pos == |text| || !Consumable(text[pos], Closer(text, start)) || text[pos] in "[]< "
    ensures ScanOutcome(text, start, maxUrlLen, Scanned(url, false, pos))
  {
  }

  lemma SpaceOutcome(text: seq<char>, start: int, maxUrlLen: int, pos: int, url: seq<char>, prevQuote: bool)
    requires ScanInvariant(text, start, pos, url, true, prevQuote)
    requires pos < |text| && text[pos] == '<'
    ensures ScanOutcome(text, start, maxUrlLen, Scanned(url + [' '], false, pos))
  {
    assert ScannedUrl(text, start, pos, url + [' '], maxUrlLen);
  }

  lemma MalformedOutcome(text: seq<char>, start: int, maxUrlLen: int, pos: int, url: seq<char>, prevSpace: bool)
    requires ScanInvariant(text, start, pos, url, prevSpace, true)
    requires pos < |text| && text[pos] == '>'
    ensures ScanOutcome(text, start, maxUrlLen, Scanned([], true, pos))
  {
  }

  lemma OverOutcome(text: seq<char>, start: int, maxUrlLen: int, pos: int, url: seq<char>, prevSpace: bool, prevQuote: bool)
    requires ScanInvariant(text, start, pos, url, prevSpace, prevQuote)
    requires pos < |text| && Consumable(text[pos], Closer(text, start)) && !IsSpace(text[pos])
    requires |url| + 1 > maxUrlLen
    ensures ScanOutcome(text, start, maxUrlLen, Scanned(url + [text[pos]], false, pos))
  {
    assert ScannedUrl(text, start, pos, url + [text[pos]], maxUrlLen);
  }

  lemma SkipKeeps(text: seq<char>, start: int, pos: int, url: seq<char>, prevSpace: bool, prevQuote: bool)
    requires ScanInvariant(text, start, pos, url, prevSpace, prevQuote)
    requires pos < |text| && Consumable(text[pos], Closer(text, start)) && IsSpace(text[pos])
    ensures ScanInvariant(text, start, pos + 1, url, true, prevQuote)
  {
  }

  lemma TakeKeeps(text: seq<char>, start: int, pos: int, url: seq<char>, prevSpace: bool, prevQuote: bool)
    requires ScanInvariant(text, start, pos, url, prevSpace, prevQuote)
    requires pos < |text| && Consumable(text[pos], Closer(text, start)) && !IsSpace(text[pos])
    ensures ScanInvariant(text, start, pos + 1, url + [text[pos]], false, text[pos] == '"')
  {
  }

  /** The scan from index start, where nothing has been consumed yet. */
  lemma ScanFromMeaning(text: seq<char>, start: int, maxUrlLen: int)
    requires 0 <= start <= |text|
    ensures ScanOutcome(text, start, maxUrlLen, ScanFrom(text, start, maxUrlLen))
  {
    ScanMeaning(text, start, maxUrlLen, start, [], false, false, false);
  }

  /** The scanning loop of getUrl run from index start. */
  function ScanFrom(text: seq<char>, start: int, maxUrlLen: int): Scanned
    requires 0 <= start <= |text|
  {
    Scan(text, start, maxUrlLen, start, [], false, false, false)
  }

  /** The scanning loop of getUrl, run from index start: consume the URL
      up to white space (or, for an enclosed URL, its closing character), a
      '[' or ']' outside an anchor, a '<' or ' ' before another URL, or one
      character past the longest allowed length. `bad` reports a '>' right
      after a '"', which marks the whole text as malformed; `end` is where
      the cursor stops. */
  method ScanUrl(text: seq<char>, start: int, maxUrlLen: int) returns (url: seq<char>, bad: bool, end: int)
    requires 0 <= start <= |text|
    ensures Scanned(url, bad, end) == ScanFrom(text, start, maxUrlLen)
  {
    var closer := Closer(text, start);
    var pos := start;
    url, bad := [], false;
    var prevSpace, prevQuote, prevAnchor := false, false, false;
    while pos < |text| && Consumable(text[pos], closer)
      invariant start <= pos <= |text|
      invariant |url| <= pos - start && (prevSpace ==> |url| < pos - start)
      invariant Scan(text, start, maxUrlLen, pos, url, prevSpace, prevQuote, prevAnchor) == ScanFrom(text, start, maxUrlLen)
    {
      var act := ScanAct(text, pos, prevSpace, prevQuote, prevAnchor);
      ScanOn(text, start, maxUrlLen, pos, url, prevSpace, prevQuote, prevAnchor);
      if act == Stop {
        break;
      } else if act == StopWithSpace {
        url := url + [' '];
        break;
      } else if act == Malformed {
        url, bad, end := [], true, pos;
        return;
      } else if act == Skip {
        prevSpace := true;
      } else {
        prevSpace := false;
        prevQuote := text[pos] == '"';
        if text[pos] == '#' {
          prevAnchor := true;
        }
        url := url + [text[pos]];
        if |url| > maxUrlLen {
          break;
        }
      }
      pos := pos + 1;
    }
    end := pos;
  }

  /** The number getPhoneNumber accepts at index p of the text, or the
      empty string. */
  method FindPhone(text: seq<char>, p: int, telMatch: int) returns (r: seq<char>)
    requires 0 <= p < |text|
    requires telMatch == 0 || (0 < telMatch && p + telMatch <= |text| && TelShape(text[p..p + telMatch]))
    ensures r == PhoneNumber(text, p, telMatch)
    ensures r != [] ==> PhoneAt(text, p, r) && |r| <= telMatch
  {
    r := [];
    if !IsPhoneChar(text[p]) || !StartsNumber(text, p) || telMatch == 0 {
      return;
    }
    var ok, cut := CutMatch(text[p..p + telMatch]);
    if !ok {
      return;
    }
    // a plausible separator must follow
    if !EndsNumber(text, p + |cut|) {
      return;
    }
    r := cut;
    PhoneNumberSound(text, p, telMatch);
  }

  /** The filters getPhoneNumber applies to the match itself: at most 15
      digits, at most one '/', no nested '(' and no ')' without '('. A match
      that ends inside parentheses is cut before its last '(' and the
      character before that, then trimmed. */
  method CutMatch(m: seq<char>) returns (ok: bool, cut: seq<char>)
    ensures ok == Filter(m).Kept?
    ensures ok ==> cut == Filter(m).cut
  {
    cut := [];
    ok := false;
    if CountDigits(m) > MaxDigits || Count(m, '/') > 1 {
      return;
    }
    var nestedOrUnopened, openIdx := ScanParens(m);
    if nestedOrUnopened {
      return;
    }
    ok := true;
    cut := m;
    if openIdx > 0 {
      cut := Trimmed(m[..openIdx - 1]);
    }
  }

  /** The parenthesis loop of getPhoneNumber: fails on a nested '(' or a ')'
      without '('; otherwise gives the index of the last unclosed '(', or -1
      when every '(' is closed. */
  method ScanParens(m: seq<char>) returns (fails: bool, openIdx: int)
    ensures fails <==> Parens(m) == Broken
    ensures !fails ==> openIdx == OpenIndex(m)
  {
    fails := false;
    openIdx := -1;
    var i := 0;
    while i < |m|
      invariant 0 <= i <= |m|
      invariant -1 <= openIdx < i
      invariant openIdx < 0 ==> Parens(m[..i]) == Closed
      invariant openIdx >= 0 ==> Parens(m[..i]) == Open && openIdx == LastOpen(m[..i])
    {
      assert m[..i + 1][..i] == m[..i];
      if (m[i] == '(' && openIdx >= 0) || (m[i] == ')' && openIdx < 0) {
        BrokenStaysBroken(m, i + 1);
        fails := true;
        return;
      }
      if m[i] == '(' {
        openIdx := i;
      } else if m[i] == ')' {
        openIdx := -1;
      }
      i := i + 1;
    }
    assert m[..|m|] == m;
  }
}

// The pure rules behind URL recognition in plain text: where a URL may
// start, which candidate strings count as empty, which closing character an
// enclosed URL ends at, and which trailing punctuation is dropped.
//
// URL delimiting follows Appendix C of RFC 3986: a URL written in running
// text may be enclosed in brackets or quotes, and inside the enclosure white
// space is allowed and removed.
module UrlRules {
  import opened CharClass

  /** `p` occurs in `text` at index `pos`, compared character by character. */
  predicate At(text: seq<char>, pos: int, p: seq<char>)
    decreases |p|
  {
    0 <= pos && (p == [] || (pos < |text| && text[pos] == p[0] && At(text, pos + 1, p[1..])))
  }

  /** The character before `pos` is a letter, a digit or a dot-atom special,
      so `pos` is inside a word and no URL may start there. */
  predicate InsideWord(text: seq<char>, pos: int)
    requires 0 <= pos <= |text|
  {
    pos > 0 && (IsLetterOrNumber(text[pos - 1]) || IsDotAtomSpecial(text[pos - 1]))
  }

  /** The number of prefixes a URL in running text may start with. */
  const PrefixCount: int := 15

  /** The prefixes, numbered 0 to 14. */
  function UrlPrefix(i: int): seq<char>
    requires 0 <= i < PrefixCount
  {
    if i == 0 then "http://"
    else if i == 1 then "https://"
    else if i == 2 then "vnc://"
    else if i == 3 then "fish://"
    else if i == 4 then "ftp://"
    else if i == 5 then "ftps://"
    else if i == 6 then "sftp://"
    else if i == 7 then "smb://"
    else if i == 8 then "mailto:"
    else if i == 9 then "www."
    else if i == 10 then "ftp."
    else if i == 11 then "file://"
    else if i == 12 then "news:"
    else if i == 13 then "tel:"
    else "xmpp:"
  }

  /** KTextToHTMLHelper::atUrl: dispatch on the first character, then compare
      the prefixes that start with it. */
  predicate AtUrl(text: seq<char>, pos: int)
    requires 0 <= pos < |text|
  {
    if InsideWord(text, pos) then false
    else
      var ch := text[pos];
      (ch == 'h' && (At(text, pos, "http://") || At(text, pos, "https://"))) ||
      (ch == 'v' && At(text, pos, "vnc://")) ||
      (ch == 'f' && (At(text, pos, "fish://") || At(text, pos, "ftp://") || At(text, pos, "ftps://"))) ||
      (ch == 's' && (At(text, pos, "sftp://") || At(text, pos, "smb://"))) ||
      (ch == 'm' && At(text, pos, "mailto:")) ||
      (ch == 'w' && At(text, pos, "www.")) ||
      (ch == 'f' && (At(text, pos, "ftp.") || At(text, pos, "file://"))) ||
      (ch == 'n' && At(text, pos, "news:")) ||
      (ch == 't' && At(text, pos, "tel:")) ||
      (ch == 'x' && At(text, pos, "xmpp:"))
  }

  /** A URL starts at `pos` exactly when `pos` is not inside a word and one of
      the prefixes occurs there. */
  lemma AtUrlIff(text: seq<char>, pos: int)
    requires 0 <= pos < |text|
    ensures AtUrl(text, pos) <==>
            !InsideWord(text, pos) && exists i :: 0 <= i < PrefixCount && At(text, pos, UrlPrefix(i))
  {
    if !exists i :: 0 <= i < PrefixCount && At(text, pos, UrlPrefix(i)) {
      NoPrefixNoUrl(text, pos);
    }
    if !InsideWord(text, pos) && exists i :: 0 <= i < PrefixCount && At(text, pos, UrlPrefix(i)) {
      var i :| 0 <= i < PrefixCount && At(text, pos, UrlPrefix(i));
      PrefixStartsUrl(text, pos, i);
    }
  }

  /** Where none of the prefixes occurs, no URL starts. */
  lemma NoPrefixNoUrl(text: seq<char>, pos: int)
    requires 0 <= pos < |text|
    requires forall i :: 0 <= i < PrefixCount ==> !At(text, pos, UrlPrefix(i))
    ensures !AtUrl(text, pos)
  {
    assert !At(text, pos, UrlPrefix(0)) && UrlPrefix(0) == "http://";
    assert !At(text, pos, UrlPrefix(1)) && UrlPrefix(1) == "https://";
    assert !At(text, pos, UrlPrefix(2)) && UrlPrefix(2) == "vnc://";
    assert !At(text, pos, UrlPrefix(3)) && UrlPrefix(3) == "fish://";
    assert !At(text, pos, UrlPrefix(4)) && UrlPrefix(4) == "ftp://";
    assert !At(text, pos, UrlPrefix(5)) && UrlPrefix(5) == "ftps://";
    assert !At(text, pos, UrlPrefix(6)) && UrlPrefix(6) == "sftp://";
    assert !At(text, pos, UrlPrefix(7)) && UrlPrefix(7) == "smb://";
    assert !At(text, pos, UrlPrefix(8)) && UrlPrefix(8) == "mailto:";
    assert !At(text, pos, UrlPrefix(9)) && UrlPrefix(9) == "www.";
    assert !At(text, pos, UrlPrefix(10)) && UrlPrefix(10) == "ftp.";
    assert !At(text, pos, UrlPrefix(11)) && UrlPrefix(11) == "file://";
    assert !At(text, pos, UrlPrefix(12)) && UrlPrefix(12) == "news:";
    assert !At(text, pos, UrlPrefix(13)) && UrlPrefix(13) == "tel:";
    assert !At(text, pos, UrlPrefix(14)) && UrlPrefix(14) == "xmpp:";
  }

  /** Each prefix, outside a word, starts a URL. */
  lemma PrefixStartsUrl(text: seq<char>, pos: int, i: int)
    requires 0 <= pos < |text| && 0 <= i < PrefixCount
    requires !InsideWord(text, pos) && At(text, pos, UrlPrefix(i))
    ensures AtUrl(text, pos)
  {
    var p := UrlPrefix(i);
    if i == 0 { assert p == "http://"; }
    else if i == 1 { assert p == "https://"; }
    else if i == 2 { assert p == "vnc://"; }
    else if i == 3 { assert p == "fish://"; }
    else if i == 4 { assert p == "ftp://"; }
    else if i == 5 { assert p == "ftps://"; }
    else if i == 6 { assert p == "sftp://"; }
    else if i == 7 { assert p == "smb://"; }
    else if i == 8 { assert p == "mailto:"; }
    else if i == 9 { assert p == "www."; }
    else if i == 10 { assert p == "ftp."; }
    else if i == 11 { assert p == "file://"; }
    else if i == 12 { assert p == "news:"; }
    else if i == 13 { assert p == "tel:"; }
    else { assert p == "xmpp:"; }
  }

  /** Candidates that consist of nothing but a scheme or a bare prefix. */
  predicate IsEmptyUrl(url: seq<char>) {
    url == [] ||
    url == "http://" || url == "https://" || url == "fish://" || url == "ftp://" ||
    url == "ftps://" || url == "sftp://" || url == "smb://" || url == "vnc://" ||
    url == "mailto" || url == "mailto:" || url == "www" || url == "ftp" ||
    url == "news:" || url == "news://" || url == "tel" || url == "tel:" || url == "xmpp:"
  }

  /** Of the prefixes that open a URL, all but three count as empty on their
      own: "www.", "ftp." and "file://" do not. */
  lemma BarePrefixes(i: int)
    requires 0 <= i < PrefixCount
    ensures IsEmptyUrl(UrlPrefix(i)) <==> UrlPrefix(i) != "www." && UrlPrefix(i) != "ftp." && UrlPrefix(i) != "file://"
  {
  }

  /** The character that ends a URL enclosed by the character before
      `start`, or '\0' (a null QChar) when the URL is not enclosed. */
  function Closer(text: seq<char>, start: int): (c: char)
    requires 0 <= start <= |text|
    ensures c != '\0' ==> start > 0 && text[start - 1] in "[<>\""
    ensures c == '\0' ==> start == 0 || text[start - 1] !in "[<>\""
  {
    if start == 0 then '\0'
    else
      var before := text[start - 1];
      if before == '[' then ']'
      else if before == '<' then '>'
      else if before == '>' then '<'
      else if before == '"' then '"'
      else '\0'
  }

  /** Trailing characters taken to end the sentence rather than the URL. */
  const WordBoundaries: seq<char> := ".,:!?)>"

  /** The candidate with trailing word boundaries removed one at a time while
      it is longer than one character. */
  function StripBoundaries(url: seq<char>): (r: seq<char>)
    ensures |r| <= |url| && r == url[..|r|]
    ensures url != [] ==> r != []
    ensures forall k :: |r| <= k < |url| ==> url[k] in WordBoundaries
    ensures |r| <= 1 || r[|r| - 1] !in WordBoundaries
  {
    if |url| > 1 && url[|url| - 1] in WordBoundaries then StripBoundaries(url[..|url| - 1])
    else url
  }

  /** The characters of text[start..end] that are not white space, in
      order: what the scanning loop collects from an enclosed URL. */
  function Collected(text: seq<char>, start: int, end: int): (r: seq<char>)
    requires 0 <= start <= end <= |text|
    ensures |r| <= end - start
    ensures forall k :: 0 <= k < |r| ==> !IsSpace(r[k])
    decreases end - start
  {
    if end == start then []
    else Collected(text, start, end - 1) + (if IsSpace(text[end - 1]) then [] else [text[end - 1]])
  }

  /** From text without white space nothing is removed. */
  lemma {:induction false} CollectedVerbatim(text: seq<char>, start: int, end: int)
    requires 0 <= start <= end <= |text|
    requires forall k :: start <= k < end ==> !IsSpace(text[k])
    ensures Collected(text, start, end) == text[start..end]
    decreases end - start
  {
    if end > start {
      CollectedVerbatim(text, start, end - 1);
      assert text[start..end] == text[start..end - 1] + [text[end - 1]];
    }
  }

  /** A character the scanning loop of getUrl may consume: printable or
      white space, and, for an enclosed URL, not the closing character, for a
      URL that is not enclosed, not white space. */
  predicate Consumable(c: char, closer: char) {
    (IsPrint(c) || IsSpace(c)) && (if closer == '\0' then !IsSpace(c) else c != closer)
  }

  /** Every character of text[start..end] may be consumed. */
  predicate AllConsumable(text: seq<char>, start: int, end: int)
    requires 0 <= start <= end <= |text|
  {
    forall k :: start <= k < end ==> Consumable(text[k], Closer(text, start))
  }

  /** A '"' occurs in text[start..end]. */
  predicate QuoteIn(text: seq<char>, start: int, end: int)
    requires 0 <= start <= end <= |text|
  {
    exists k :: start <= k < end && text[k] == '"'
  }

  /** What the scanning loop of getUrl leaves behind when it does not meet a
      malformed URL: it consumed text[start..end], every character of which
      is printable or white space and, for an enclosed URL, not the closing
      character, for a URL that is not enclosed, not white space; the
      candidate is what it consumed with white space removed, possibly
      followed by one space (a '<' after white space in an enclosed URL),
      or, when the candidate grew too long, what it consumed up to and
      including text[end]. */
  ghost predicate ScannedUrl(text: seq<char>, start: int, end: int, url: seq<char>, maxLen: int)
    requires 0 <= start <= end <= |text|
  {
    var closer := Closer(text, start);
    && AllConsumable(text, start, end)
    && (|| (url == Collected(text, start, end) && |url| <= end - start)
        || (closer != '\0' && url == Collected(text, start, end) + [' '] && |url| <= end - start)
        || (end < |text| && url == Collected(text, start, end + 1) && |url| > maxLen))
  }

  /** A URL that is not enclosed is taken from the text as it stands: no
      white space was removed, so the candidate is the consumed text and the
      result a prefix of it. */
  lemma UnenclosedIsVerbatim(text: seq<char>, start: int, end: int, raw: seq<char>, maxLen: int)
    requires 0 <= start <= end <= |text|
    requires ScannedUrl(text, start, end, raw, maxLen) && Closer(text, start) == '\0' && |raw| <= maxLen
    ensures raw == text[start..end]
    ensures StripBoundaries(raw) == text[start..start + |StripBoundaries(raw)|]
  {
    forall k | start <= k < end ensures !IsSpace(text[k]) {
      assert Consumable(text[k], '\0');
    }
    CollectedVerbatim(text, start, end);
    var url := StripBoundaries(raw);
    assert url == raw[..|url|];
  }

  /** The trailing-punctuation rule can turn an accepted candidate into one
      that the emptiness test would have refused. */
  lemma StripCanEmptyUrl()
    ensures !IsEmptyUrl("http://.") && StripBoundaries("http://.") == "http://" && IsEmptyUrl("http://")
    ensures !IsEmptyUrl("www.") && StripBoundaries("www.") == "www" && IsEmptyUrl("www")
  {
    StripHttpDot();
    StripWwwDot();
  }

  lemma StripHttpDot()
    ensures !IsEmptyUrl("http://.") && StripBoundaries("http://.") == "http://"
  {
    var u := "http://.";
    assert u[7] == '.' && u[..7] == "http://";
    assert u[..7][6] == '/';
  }

  lemma StripWwwDot()
    ensures !IsEmptyUrl("www.") && StripBoundaries("www.") == "www"
  {
    var u := "www.";
    assert u[3] == '.' && u[..3] == "www";
    assert u[..3][2] == 'w';
  }
}

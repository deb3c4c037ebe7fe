// The URL and metadata marshalling of drag-and-drop and clipboard data
// (KUrlMimeData).
//
// A list of URLs travels in two formats: the standard text/uri-list, filled
// with the most local form of each URL, and a KDE-specific list in
// text/uri-list syntax (CR LF terminated lines, section 5 of RFC 2483)
// holding the URLs as given. A map of metadata strings travels as keys and
// values each followed by the separator "$@@$".
module UrlMimeData {
  import opened CharClass
  import opened Separated

  const KdeUriListMime: Bytes := "application/x-kde4-urilist"
  const UriListMime: Bytes := "text/uri-list"
  const MetaDataMime: Bytes := "application/x-kio-metadata"
  const Crlf: Bytes := "\r\n"
  const Separator: Bytes := "$@@$"

  /** A URL, represented by its encoded form (QUrl::toEncoded); decoding
      that form (QUrl::fromEncoded) gives the URL back. */
  datatype Url = Url(encoded: Bytes)

  /** What QUrl::toEncoded produces for a valid URL: at least one byte, and
      no white space (it is percent-encoded). */
  predicate Encodable(u: Url) {
    u.encoded != [] && forall k :: 0 <= k < |u.encoded| ==> !IsSpace(u.encoded[k])
  }

  predicate AllEncodable(urls: seq<Url>) {
    forall k :: 0 <= k < |urls| ==> Encodable(urls[k])
  }

  lemma AllEncodableTail(urls: seq<Url>)
    requires urls != [] && AllEncodable(urls)
    ensures AllEncodable(urls[1..])
  {
    forall k | 0 <= k < |urls| - 1
      ensures Encodable(urls[1..][k])
    {
      assert urls[1..][k] == urls[k + 1];
    }
  }

  /** The clipboard object: the text/uri-list slot that QMimeData::setUrls
      fills and QMimeData::urls reads back, and the data of every other
      format by name. */
  class MimeData {
    var urls: seq<Url>
    var data: map<Bytes, Bytes>

    constructor ()
      ensures urls == [] && data == map[]
    {
      urls := [];
      data := map[];
    }
  }

  /** The caller-owned metadata map that urlsFromMimeData fills. */
  class MetaDataMap {
    var entries: map<Bytes, Bytes>

    constructor (entries: map<Bytes, Bytes>)
      ensures this.entries == entries
    {
      this.entries := entries;
    }
  }

  /** QMimeData::data: the bytes stored under `format`, empty when none are. */
  function Data(data: map<Bytes, Bytes>, format: Bytes): Bytes {
    if format in data then data[format] else []
  }

  /** The formats urlsFromMimeData reads URLs from. */
  function MimeDataTypes(): (r: seq<Bytes>)
    ensures |r| == 2 && r[0] != r[1]
    ensures r[0] == KdeUriListMime && r[1] == UriListMime
  {
    [KdeUriListMime, UriListMime]
  }

  // The uri-list encoding.

  /** Each URL's encoded form followed by CR LF, in list order. */
  function UriList(urls: seq<Url>): Bytes {
    if urls == [] then [] else urls[0].encoded + Crlf + UriList(urls[1..])
  }

  lemma {:induction false} UriListSnoc(urls: seq<Url>, u: Url)
    ensures UriList(urls + [u]) == UriList(urls) + u.encoded + Crlf
    decreases |urls|
  {
    if urls == [] {
      assert urls + [u] == [u];
      assert [u][1..] == [];
    } else {
      assert (urls + [u])[1..] == urls[1..] + [u];
      UriListSnoc(urls[1..], u);
    }
  }

  /** uriListData: the uri-list encoding of `urls`. */
  method UriListData(urls: seq<Url>) returns (result: Bytes)
    ensures result == UriList(urls)
  {
    result := [];
    for i := 0 to |urls|
      invariant result == UriList(urls[..i])
    {
      UriListSnoc(urls[..i], urls[i]);
      assert urls[..i + 1] == urls[..i] + [urls[i]];
      result := result + urls[i].encoded;
      result := result + Crlf;
    }
    assert urls[..|urls|] == urls;
  }

  /** The URL of one line of a uri-list: the line trimmed, or none when
      nothing is left. */
  function UrlOf(line: Bytes): (r: seq<Url>)
    ensures |r| <= 1
  {
    var t := Trimmed(line);
    if t == [] then [] else [Url(t)]
  }

  /** The images of the elements of `xs` under `f`, concatenated in order. */
  function FlatMap<A, B>(xs: seq<A>, f: A -> seq<B>): seq<B> {
    if xs == [] then [] else FlatMap(xs[..|xs| - 1], f) + f(xs[|xs| - 1])
  }

  lemma {:induction false} FlatMapAppend<A, B>(a: seq<A>, b: seq<A>, f: A -> seq<B>)
    ensures FlatMap(a + b, f) == FlatMap(a, f) + FlatMap(b, f)
    decreases |b|
  {
    if b == [] {
      assert a + b == a;
    } else {
      assert (a + b)[..|a + b| - 1] == a + b[..|b| - 1];
      FlatMapAppend(a, b[..|b| - 1], f);
    }
  }

  /** The URLs a KDE uri-list payload decodes to: the payload cut at line
      feeds, each piece trimmed, and the empty pieces dropped. */
  function DecodeUriList(ba: Bytes): seq<Url> {
    FlatMap(Split(ba, "\n"), UrlOf)
  }

  /** extractKdeUriList: the URLs of the KDE list format of `m`. */
  method ExtractKdeUriList(m: MimeData) returns (uris: seq<Url>)
    ensures uris == DecodeUriList(Data(m.data, KdeUriListMime))
  {
    var ba := Data(m.data, KdeUriListMime);
    var lines := Split(ba, "\n");
    uris := [];
    for i := 0 to |lines|
      invariant uris == FlatMap(lines[..i], UrlOf)
    {
      assert lines[..i + 1][..i] == lines[..i];
      var line := Trimmed(lines[i]);
      if line != [] {
        uris := uris + [Url(line)];
      }
    }
    assert lines[..|lines|] == lines;
  }

  /** An encoded URL followed by a carriage return trims back to itself. */
  lemma TrimmedLine(e: Bytes)
    requires e != [] && forall k :: 0 <= k < |e| ==> !IsSpace(e[k])
    ensures Trimmed(e + "\r") == e
  {
    var line := e + "\r";
    assert line[..|line| - 1] == e;
    assert TrimEnd(line) == TrimEnd(e);
    TrimEndMeaning(e);
    TrimStartMeaning(e);
    assert e[0] == line[0];
  }

  /** A line without a line feed of its own is cut off whole, its carriage
      return included. */
  lemma SplitLine(e: Bytes, rest: Bytes)
    requires '\n' !in e
    ensures Split(e + Crlf + rest, "\n") == [e + "\r"] + Split(rest, "\n")
  {
    var line := e + "\r";
    assert Delimits(line, "\n") by {
      forall i | 0 <= i < |line|
        ensures !At(line + "\n", i, "\n")
      {
        assert (line + "\n")[i..i + 1] == [line[i]];
      }
    }
    SplitAfter(line, "\n", rest);
    assert e + Crlf + rest == line + "\n" + rest;
  }

  /** The URLs of one encoded line followed by more lines. */
  lemma DecodeLine(e: Bytes, rest: Bytes)
    requires e != [] && forall k :: 0 <= k < |e| ==> !IsSpace(e[k])
    ensures DecodeUriList(e + Crlf + rest) == [Url(e)] + DecodeUriList(rest)
  {
    assert '\n' !in e by {
      assert forall k :: 0 <= k < |e| ==> e[k] != '\n';
    }
    SplitLine(e, rest);
    FlatMapAppend([e + "\r"], Split(rest, "\n"), UrlOf);
    LineUrl(e);
  }

  lemma LineUrl(e: Bytes)
    requires e != [] && forall k :: 0 <= k < |e| ==> !IsSpace(e[k])
    ensures FlatMap([e + "\r"], UrlOf) == [Url(e)]
  {
    assert [e + "\r"][..0] == [];
    TrimmedLine(e);
  }

  lemma DecodeNothing()
    ensures DecodeUriList([]) == []
  {
    var none: Bytes := [];
    assert Split(none, "\n") == [none];
    assert [none][..0] == [];
  }

  /** Decoding the uri-list encoding gives the URLs back, in order. */
  lemma {:induction false} UriListRoundTrip(urls: seq<Url>)
    requires AllEncodable(urls)
    ensures DecodeUriList(UriList(urls)) == urls
    decreases |urls|
  {
    if urls == [] {
      DecodeNothing();
    } else {
      var u, rest := urls[0], urls[1..];
      assert urls == [u] + rest;
      AllEncodableTail(urls);
      UriListRoundTrip(rest);
      DecodeFirst(u, rest);
    }
  }

  /** The first URL decodes from the first line. */
  lemma DecodeFirst(u: Url, rest: seq<Url>)
    requires Encodable(u)
    ensures DecodeUriList(UriList([u] + rest)) == [u] + DecodeUriList(UriList(rest))
  {
    assert ([u] + rest)[1..] == rest;
    assert UriList([u] + rest) == u.encoded + Crlf + UriList(rest);
    DecodeLine(u.encoded, UriList(rest));
  }

  /** A URL list whose encodings are all valid decodes to nothing exactly
      when it is empty. */
  lemma EmptyUriList(urls: seq<Url>)
    requires AllEncodable(urls)
    ensures DecodeUriList(UriList(urls)) == [] <==> urls == []
  {
    UriListRoundTrip(urls);
  }

  /** setUrls: the most local URLs go to the text/uri-list slot, the URLs
      as given to the KDE list format; nothing else changes. */
  method SetUrls(urls: seq<Url>, mostLocalUrls: seq<Url>, m: MimeData)
    modifies m
    ensures m.urls == mostLocalUrls
    ensures m.data == old(m.data)[KdeUriListMime := UriList(urls)]
  {
    m.urls := mostLocalUrls;
    var list := UriListData(urls);
    m.data := m.data[KdeUriListMime := list];
  }

  // The choice between the two URL formats.

  datatype DecodeOptions = PreferKdeUrls | PreferLocalUrls

  /** The URLs urlsFromMimeData returns: those of the preferred format, or
      those of the other one when the preferred format holds none. */
  function SelectUrls(options: DecodeOptions, local: seq<Url>, kde: seq<Url>): (r: seq<Url>)
    ensures r == local || r == kde
    ensures r == [] <==> local == [] && kde == []
  {
    if options == PreferLocalUrls then
      (if local != [] then local else kde)
    else
      (if kde != [] then kde else local)
  }

  /** What a reader of data written by setUrls gets back: the preferred
      list, or the other one when the preferred list is empty. */
  lemma SetUrlsThenRead(options: DecodeOptions, urls: seq<Url>, mostLocalUrls: seq<Url>)
    requires AllEncodable(urls)
    ensures var r := SelectUrls(options, mostLocalUrls, DecodeUriList(UriList(urls)));
      && (options == PreferLocalUrls ==> r == if mostLocalUrls != [] then mostLocalUrls else urls)
      && (options == PreferKdeUrls ==> r == if urls != [] then urls else mostLocalUrls)
  {
    UriListRoundTrip(urls);
  }

  // The metadata encoding.

  /** The keys and values of `entries`, alternating, in order. */
  function Items(entries: seq<(Bytes, Bytes)>): (r: seq<Bytes>)
    ensures |r| == 2 * |entries|
  {
    if entries == [] then [] else [entries[0].0, entries[0].1] + Items(entries[1..])
  }

  lemma {:induction false} ItemsSnoc(entries: seq<(Bytes, Bytes)>, e: (Bytes, Bytes))
    ensures Items(entries + [e]) == Items(entries) + [e.0, e.1]
    decreases |entries|
  {
    if entries == [] {
      assert entries + [e] == [e];
      assert [e][1..] == [];
    } else {
      assert (entries + [e])[1..] == entries[1..] + [e];
      ItemsSnoc(entries[1..], e);
    }
  }

  /** The metadata payload of `entries` (a QMap's entries, in its iteration
      order): each key and each value followed by the separator. */
  function MetaDataPayload(entries: seq<(Bytes, Bytes)>): Bytes {
    Terminated(Items(entries), Separator)
  }

  /** setMetaData: the payload of `entries` is stored under the metadata
      format; nothing else changes. */
  method SetMetaData(entries: seq<(Bytes, Bytes)>, m: MimeData)
    modifies m
    ensures m.urls == old(m.urls)
    ensures m.data == old(m.data)[MetaDataMime := MetaDataPayload(entries)]
  {
    var payload: Bytes := [];
    for i := 0 to |entries|
      invariant payload == MetaDataPayload(entries[..i])
      invariant m.urls == old(m.urls) && m.data == old(m.data)
    {
      var (key, value) := entries[i];
      ItemsSnoc(entries[..i], entries[i]);
      assert entries[..i + 1] == entries[..i] + [entries[i]];
      TerminatedAppend(Items(entries[..i]), [key, value], Separator);
      assert [key, value][1..][1..] == [];
      payload := payload + key;
      payload := payload + Separator;
      payload := payload + value;
      payload := payload + Separator;
    }
    assert entries[..|entries|] == entries;
    m.data := m.data[MetaDataMime := payload];
  }

  /** QString::fromUtf8 of a byte array's constData(): the bytes before the
      first NUL. */
  function CString(b: Bytes): (r: Bytes)
    ensures |r| <= |b| && r == b[..|r|] && '\0' !in r
    ensures '\0' !in b ==> r == b
  {
    if b == [] || b[0] == '\0' then [] else [b[0]] + CString(b[1..])
  }

  /** QString::chop: `s` without its last `n` characters, or empty when it
      is not longer than that. */
  function Chop(s: Bytes, n: nat): (r: Bytes)
    ensures n <= |s| ==> |r| == |s| - n && s == r + s[|r|..]
    ensures |s| < n ==> r == []
  {
    if |s| < n then [] else s[..|s| - n]
  }

  /** The items a non-empty payload splits into. */
  function MetaDataItems(payload: Bytes): seq<Bytes> {
    Split(Chop(CString(payload), |Separator|), Separator)
  }

  /** `m` after inserting the items read alternately as key and value; an
      odd last item is a key without a value and inserts nothing. */
  function InsertItems(m: map<Bytes, Bytes>, items: seq<Bytes>): map<Bytes, Bytes>
    decreases |items|
  {
    if |items| < 2 then m else InsertItems(m[items[0] := items[1]], items[2..])
  }

  /** The metadata map `m` after decoding `payload` into it: unchanged for
      an empty payload. */
  function DecodeMetaData(m: map<Bytes, Bytes>, payload: Bytes): map<Bytes, Bytes> {
    if payload == [] then m else InsertItems(m, MetaDataItems(payload))
  }

  lemma {:induction false} InsertItemsSnoc(m: map<Bytes, Bytes>, items: seq<Bytes>, key: Bytes, value: Bytes)
    requires |items| % 2 == 0
    ensures InsertItems(m, items + [key, value]) == InsertItems(m, items)[key := value]
    decreases |items|
  {
    if items == [] {
      assert [key, value][2..] == [];
    } else {
      assert (items + [key, value])[2..] == items[2..] + [key, value];
      InsertItemsSnoc(m[items[0] := items[1]], items[2..], key, value);
    }
  }

  lemma {:induction false} InsertItemsOdd(m: map<Bytes, Bytes>, items: seq<Bytes>, key: Bytes)
    requires |items| % 2 == 0
    ensures InsertItems(m, items + [key]) == InsertItems(m, items)
    decreases |items|
  {
    if items != [] {
      assert (items + [key])[2..] == items[2..] + [key];
      InsertItemsOdd(m[items[0] := items[1]], items[2..], key);
    }
  }

  /** The entries inserted into `m` in order: a later entry for a key
      replaces an earlier one. */
  function Apply(m: map<Bytes, Bytes>, entries: seq<(Bytes, Bytes)>): map<Bytes, Bytes>
    decreases |entries|
  {
    if entries == [] then m else Apply(m[entries[0].0 := entries[0].1], entries[1..])
  }

  lemma {:induction false} InsertItemsApply(m: map<Bytes, Bytes>, entries: seq<(Bytes, Bytes)>)
    ensures InsertItems(m, Items(entries)) == Apply(m, entries)
    decreases |entries|
  {
    if entries != [] {
      var e := entries[0];
      assert Items(entries)[2..] == Items(entries[1..]);
      InsertItemsApply(m[e.0 := e.1], entries[1..]);
    }
  }

  /** The key-value pairs of alternating items; an odd last item is a key
      without a value and makes no pair. */
  function Pairs(items: seq<Bytes>): (r: seq<(Bytes, Bytes)>)
    ensures |r| == |items| / 2
    decreases |items|
  {
    if |items| < 2 then [] else [(items[0], items[1])] + Pairs(items[2..])
  }

  /** Reading items alternately as key and value inserts their pairs in
      order; so any payload is decoded by inserting the pairs it holds. */
  lemma {:induction false} InsertItemsPairs(m: map<Bytes, Bytes>, items: seq<Bytes>)
    ensures InsertItems(m, items) == Apply(m, Pairs(items))
    decreases |items|
  {
    if |items| >= 2 {
      InsertItemsPairs(m[items[0] := items[1]], items[2..]);
      assert ([(items[0], items[1])] + Pairs(items[2..]))[1..] == Pairs(items[2..]);
    }
  }

  /** The keys the entries give values to. */
  function KeysOf(entries: seq<(Bytes, Bytes)>): set<Bytes> {
    set e | e in entries :: e.0
  }

  /** Inserting the entries adds exactly their keys. */
  lemma {:induction false} ApplyKeys(m: map<Bytes, Bytes>, entries: seq<(Bytes, Bytes)>)
    ensures Apply(m, entries).Keys == m.Keys + KeysOf(entries)
    decreases |entries|
  {
    if entries != [] {
      var e, rest := entries[0], entries[1..];
      ApplyKeys(m[e.0 := e.1], rest);
      assert entries == [e] + rest;
      assert KeysOf(entries) == {e.0} + KeysOf(rest);
    }
  }

  /** A key no entry names keeps its value. */
  lemma {:induction false} ApplyKeeps(m: map<Bytes, Bytes>, entries: seq<(Bytes, Bytes)>, k: Bytes)
    requires k in m && k !in KeysOf(entries)
    ensures k in Apply(m, entries) && Apply(m, entries)[k] == m[k]
    decreases |entries|
  {
    if entries != [] {
      var e, rest := entries[0], entries[1..];
      assert e in entries;
      forall x | x in rest
        ensures x.0 != k
      {
        assert x in entries;
      }
      ApplyKeeps(m[e.0 := e.1], rest, k);
    }
  }

  /** A key maps to the value of the last entry that names it. */
  lemma {:induction false} ApplyLast(m: map<Bytes, Bytes>, entries: seq<(Bytes, Bytes)>, j: int)
    requires 0 <= j < |entries|
    requires forall j' :: j < j' < |entries| ==> entries[j'].0 != entries[j].0
    ensures entries[j].0 in Apply(m, entries) && Apply(m, entries)[entries[j].0] == entries[j].1
    decreases |entries|
  {
    var e, rest := entries[0], entries[1..];
    if j > 0 {
      assert rest[j - 1] == entries[j];
      forall j' | j - 1 < j' < |rest|
        ensures rest[j'].0 != rest[j - 1].0
      {
        assert rest[j'] == entries[j' + 1];
      }
      ApplyLast(m[e.0 := e.1], rest, j - 1);
    } else {
      forall x | x in rest
        ensures x.0 != e.0
      {
        var i :| 0 <= i < |rest| && rest[i] == x;
        assert entries[i + 1] == x;
      }
      ApplyKeeps(m[e.0 := e.1], rest, e.0);
    }
  }

  /** The payload of a non-empty list of entries ends with the separator. */
  lemma PayloadEndsWithSeparator(entries: seq<(Bytes, Bytes)>)
    requires entries != []
    ensures var p := MetaDataPayload(entries);
      |p| >= |Separator| && p[|p| - |Separator|..] == Separator
  {
    TerminatedJoin(Items(entries), Separator);
  }

  /** Every key and value is a piece the separator cuts off whole and holds
      no NUL byte. */
  predicate Transferable(entries: seq<(Bytes, Bytes)>) {
    forall k :: 0 <= k < |entries| ==>
      && Delimits(entries[k].0, Separator) && Delimits(entries[k].1, Separator)
      && '\0' !in entries[k].0 && '\0' !in entries[k].1
  }

  lemma {:induction false} NoNulInPayload(entries: seq<(Bytes, Bytes)>)
    requires Transferable(entries)
    ensures '\0' !in MetaDataPayload(entries)
    decreases |entries|
  {
    if entries != [] {
      var e := entries[0];
      assert Items(entries) == [e.0, e.1] + Items(entries[1..]);
      TerminatedAppend([e.0, e.1], Items(entries[1..]), Separator);
      assert [e.0, e.1][1..][1..] == [];
      NoNulInPayload(entries[1..]);
    }
  }

  /** Decoding the payload of `entries` into `m` inserts exactly those
      entries, in order, and the payload splits into an even number of
      items. */
  lemma MetaDataRoundTrip(m: map<Bytes, Bytes>, entries: seq<(Bytes, Bytes)>)
    requires Transferable(entries)
    ensures DecodeMetaData(m, MetaDataPayload(entries)) == Apply(m, entries)
    ensures entries != [] ==> |MetaDataItems(MetaDataPayload(entries))| == 2 * |entries|
  {
    InsertItemsApply(m, entries);
    var items := Items(entries);
    if entries != [] {
      NoNulInPayload(entries);
      TerminatedJoin(items, Separator);
      var joined := Join(items, Separator);
      assert Chop(joined + Separator, |Separator|) == joined;
      forall k | 0 <= k < |items|
        ensures Delimits(items[k], Separator)
      {
        ItemIsKeyOrValue(entries, k);
      }
      SplitJoin(items, Separator);
    }
  }

  lemma {:induction false} ItemIsKeyOrValue(entries: seq<(Bytes, Bytes)>, k: int)
    requires 0 <= k < 2 * |entries|
    ensures Items(entries)[k] == if k % 2 == 0 then entries[k / 2].0 else entries[k / 2].1
    decreases |entries|
  {
    if k >= 2 {
      ItemIsKeyOrValue(entries[1..], k - 2);
    }
  }

  /** A key or value is cut off whole by the separator exactly when it
      holds no separator and does not end with "$@@", the separator's first
      three bytes. */
  lemma DelimitsSeparator(p: Bytes)
    ensures Delimits(p, Separator) <==> Free(p, Separator) && !(|p| >= 3 && p[|p| - 3..] == "$@@")
  {
    var q := p + Separator;
    forall i | 0 <= i && |p| - 2 <= i < |p|
      ensures !At(q, i, Separator)
    {
      assert q[|p|] == '$';
      assert q[i..i + 4][|p| - i] == q[|p|];
    }
    forall i | 0 <= i && i + 4 <= |p|
      ensures At(q, i, Separator) <==> At(p, i, Separator)
    {
      assert q[i..i + 4] == p[i..i + 4];
    }
    if |p| >= 3 {
      var tail := p[|p| - 3..];
      assert q[|p| - 3..|p| + 1] == tail + "$";
      if At(q, |p| - 3, Separator) {
        assert tail == (tail + "$")[..3] == Separator[..3];
      }
    }
  }

  /** The payload of a single entry. */
  lemma PayloadOfOne(key: Bytes, value: Bytes)
    ensures MetaDataPayload([(key, value)]) == key + Separator + value + Separator
  {
    assert Items([(key, value)]) == [key, value];
    assert [key, value][1..] == [value];
    assert [value][1..] == [];
    assert Terminated([value], Separator) == value + Separator;
    assert (key + Separator) + (value + Separator) == key + Separator + value + Separator;
  }

  /** Chopping the separator off a string that ends with it. */
  lemma ChopSeparator(s: Bytes)
    requires '\0' !in s
    ensures Chop(CString(s + Separator), |Separator|) == s
  {
    assert '\0' !in s + Separator;
  }

  /** A key ending in "$@@" runs into the separator after it: the map
      {"a$@@": "b"} decodes to {"a": "@@$b"}. */
  lemma KeyRunsIntoSeparator()
    ensures DecodeMetaData(map[], MetaDataPayload([("a$@@", "b")])) == map["a" := "@@$b"]
  {
    PayloadOfOne("a$@@", "b");
    var joined := "a" + Separator + "@@$b";
    assert "a$@@" + Separator + "b" == joined;
    assert '\0' !in joined;
    ChopSeparator(joined);
    SplitOfJoined();
    assert MetaDataItems(MetaDataPayload([("a$@@", "b")])) == ["a", "@@$b"];
  }

  lemma SplitOfJoined()
    ensures Split("a" + Separator + "@@$b", Separator) == ["a", "@@$b"]
  {
    assert Delimits("a", Separator) by {
      assert !At("a" + Separator, 0, Separator);
    }
    SplitAfter("a", Separator, "@@$b");
    assert Free("@@$b", Separator) by {
      assert !At("@@$b", 0, Separator);
    }
    SplitFree("@@$b", Separator);
  }

  // Reading the data back.

  /** A drop that reads back what a drag wrote: the URL list the decode
      options choose, and every metadata entry. */
  method DropAfterDrag(urls: seq<Url>, mostLocalUrls: seq<Url>, entries: seq<(Bytes, Bytes)>, options: DecodeOptions)
    returns (received: seq<Url>, metaData: map<Bytes, Bytes>)
    requires AllEncodable(urls) && Transferable(entries)
    ensures received == SelectUrls(options, mostLocalUrls, urls)
    ensures metaData == Apply(map[], entries)
  {
    var m := new MimeData();
    SetUrls(urls, mostLocalUrls, m);
    SetMetaData(entries, m);
    var target := new MetaDataMap(map[]);
    received := UrlsFromMimeData(m, options, target);
    metaData := target.entries;
    assert Data(m.data, KdeUriListMime) == UriList(urls);
    UriListRoundTrip(urls);
    MetaDataRoundTrip(map[], entries);
  }

  /** The metadata loop of urlsFromMimeData: the items are read alternately
      as a key and as the value inserted under it. */
  method InsertMetaData(lst: seq<Bytes>, metaData: MetaDataMap)
    modifies metaData
    ensures metaData.entries == InsertItems(old(metaData.entries), lst)
  {
    var readingKey := true;
    var key: Bytes := [];
    for i := 0 to |lst|
      invariant readingKey <==> i % 2 == 0
      invariant !readingKey ==> key == lst[i - 1]
      invariant metaData.entries == InsertItems(old(metaData.entries), lst[..i - i % 2])
    {
      if readingKey {
        key := lst[i];
      } else {
        InsertItemsSnoc(old(metaData.entries), lst[..i - 1], key, lst[i]);
        assert lst[..i + 1] == lst[..i - 1] + [key, lst[i]];
        metaData.entries := metaData.entries[key := lst[i]];
      }
      readingKey := !readingKey;
    }
    if !readingKey {
      InsertItemsOdd(old(metaData.entries), lst[..|lst| - 1], lst[|lst| - 1]);
      assert lst[..|lst| - 1] + [lst[|lst| - 1]] == lst;
    } else {
      assert lst[..|lst|] == lst;
    }
  }

  /** urlsFromMimeData: the URLs of the preferred format, falling back to
      the other one; when a metadata map is given and a metadata payload
      is present, its items are inserted into the map alternately as key
      and value. */
  method UrlsFromMimeData(m: MimeData, options: DecodeOptions, metaData: MetaDataMap?) returns (uris: seq<Url>)
    modifies metaData
    ensures uris == SelectUrls(options, m.urls, DecodeUriList(Data(m.data, KdeUriListMime)))
    ensures metaData != null ==> metaData.entries == DecodeMetaData(old(metaData.entries), Data(m.data, MetaDataMime))
  {
    if options == PreferLocalUrls {
      uris := m.urls;
      if uris == [] {
        uris := ExtractKdeUriList(m);
      }
    } else {
      uris := ExtractKdeUriList(m);
      if uris == [] {
        uris := m.urls;
      }
    }
    if metaData != null {
      var payload := Data(m.data, MetaDataMime);
      if payload != [] {
        var str := Chop(CString(payload), |Separator|);
        var lst := Split(str, Separator);
        InsertMetaData(lst, metaData);
      }
    }
  }
}

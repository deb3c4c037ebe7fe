# Plain text to HTML, and URLs on the clipboard

This project models two sequential string-processing components of the
KDE Frameworks KCoreAddons library and proves properties of the model.

**KTextToHTML** (`src/lib/text/ktexttohtml.cpp`) turns plain text into
HTML in a single pass. `KTextToHTMLHelper` is a cursor over an immutable
text, and each of its recognisers looks for one kind of token at the
cursor:
- a URL (`atUrl`, `getUrl`, `isEmptyUrl`), delimited as Appendix C of
  RFC 3986 advises;
- an e-mail address (`getEmailAddress`), built from the dot-atom
  characters of section 3.2.4 of RFC 2822;
- a phone number (`getPhoneNumber`);
- inline markup such as `*bold*`, `_underline_`, `/italic/` and
  `-strike-` (`highlightedText`).

When a recogniser succeeds it leaves the cursor on the token's last
character; when it finds nothing, the cursor is where it started. The one
exception is `getUrl` on a malformed URL (a `>` right after a `"`), which
leaves the cursor on that `>`; the converter then abandons the loop.

`KTextToHTML::convertToHtml` drives the recognisers. It escapes `&`, `"`,
`<` and `>`, turns a line feed into `<br />`, and can keep spaces and
expand tabs to the next multiple of 8. It splices in anchors for URLs,
addresses and phone numbers. An address is found at its `@`, after its
local part has already been emitted, so the converter first cuts that
local part back out of the output.

**KUrlMimeData** (`src/lib/io/kurlmimedata.cpp`) puts URLs and a key/value
metadata map onto `QMimeData` for drag and drop, and reads them back.
- URLs are written twice. The most local URLs go to the standard
  text/uri-list slot; the URLs as given go to the KDE format, as lines
  each ended by CRLF.
- The metadata map is written as `key$@@$value$@@$…`.
- On reading, the caller says which of the two URL lists it prefers and
  gets the other one when the preferred list is empty. Metadata pairs are
  inserted into the caller's map.

The model is written in Dafny, one module per concern:

| module (file) | models |
|---|---|
| `CharClass` (chars.dfy) | Qt's character classes (ASCII approximation), trimming, counting |
| `HtmlEscape` (escape.dfy) | the entity escapes, and a reference decoder that inverts them |
| `UrlRules` (url_rules.dfy) | `atUrl`, `isEmptyUrl`, the enclosing character, trailing punctuation |
| `EmailRules` (email_rules.dfy) | what an accepted address looks like |
| `PhoneRules` (phone_rules.dfy) | the phone-number filters, the parenthesis automaton, the normal form |
| `HighlightRules` (highlight_rules.dfy) | the markup pattern and the markup emitted |
| `TextToHtmlHelper` (helper.dfy) | `KTextToHTMLHelper` as a class, with one method per recogniser |
| `HtmlOutput` (output.dfy) | what the converter emits, as spans that tile the input |
| `TokenRules` (tokens.dfy) | what the recognisers take at an index, in their order, and the converter's loop state (which span was taken where) |
| `TextToHtml` (convert.dfy) | `convertToHtml` and `normalizePhoneNumber` |
| `Separated` (split.dfy) | `QByteArray::split` / `QString::split`, joining, terminating |
| `UrlMimeData` (mime_data.dfy) | `KUrlMimeData`, with `QMimeData` as a class holding two slots |

Each state-changing operation is a method. It is proved against a
specification function on values, and the properties are proved about
that function. The main converter loop:
- `TextToHtml.ConvertToHtml` is proved to emit the concatenated renderings
  of spans that tile the input;
- each span is the faithful rendering of its piece of text (an escaped
  character, kept white space, or a token its recogniser accepts);
- each span is the one the recognisers take, in their order, where the
  previous span ends (`TokenRules.Decided`): an escaped character only
  where no recogniser that is switched on accepts, a token only where
  every recogniser before it found nothing;
- kept white space is rendered as `TokenRules.KeptBlank` says, at the
  column and with the start-of-line flag that the spans before it leave
  (`TokenRules.Kept`, `TokenRules.Column`, `TokenRules.StartOfLine`); the
  loop's own `x` and `startOfLine` are proved to be exactly those.

## Model

Paths are relative to the repository root.

| member | source | states |
|---|---|---|
| CharClass.CountAppend | src/lib/text/ktexttohtml.cpp:555-556 | Counting a character in a concatenation adds the counts of the parts (the `&` count of the local part that is cut back out). |
| CharClass.CountZero | src/lib/text/ktexttohtml.cpp:152 | A character is counted no time exactly when it does not occur (one `/` at most, one `@` in an address). |
| CharClass.TrimEndMeaning | src/lib/text/ktexttohtml.cpp:169 | Trimming the end keeps a prefix that does not end in white space, and drops only white space. |
| CharClass.TrimStartMeaning | src/lib/io/kurlmimedata.cpp:79 | Trimming the start keeps a suffix that does not start with white space, drops only white space, and keeps the whole text when it does not start with white space. |
| HtmlEscape.UnescapeEscapeHtml | src/lib/text/ktexttohtml.cpp:494-509 | The per-character rendering of plain text (four entities, line feed as `<br />` plus the line feed) is inverted by the reference decoder, so it loses nothing. |
| HtmlEscape.UnescapeEscapeEntities | src/lib/text/ktexttohtml.cpp:515-533 | The four entity escapes applied to every character are inverted by the reference decoder. |
| HtmlEscape.EscapeEntitiesNoMarkup | src/lib/text/ktexttohtml.cpp:502-509 | Escaped text holds no raw `<`, `>` or `"`. |
| HtmlEscape.EscapeHtmlWithoutNewline | src/lib/text/ktexttohtml.cpp:494-509 | On text without line feeds, the converter's per-character rendering and the bad-URL fallback escape agree. |
| HtmlEscape.ConcatMapAppend | src/lib/text/ktexttohtml.cpp:518-531 | A per-character escape distributes over concatenation. |
| UrlRules.AtUrlIff | src/lib/text/ktexttohtml.cpp:197-228 | A URL starts at a position exactly when the character before is not a letter, digit or dot-atom special and one of the 15 prefixes (http://, https://, vnc://, fish://, ftp://, ftps://, sftp://, smb://, mailto:, www., ftp., file://, news:, tel:, xmpp:) occurs there. |
| UrlRules.NoPrefixNoUrl | src/lib/text/ktexttohtml.cpp:210-226 | Where none of the prefixes occurs, no URL starts. |
| UrlRules.PrefixStartsUrl | src/lib/text/ktexttohtml.cpp:205-226 | Each prefix, outside a word, starts a URL. |
| UrlRules.BarePrefixes | src/lib/text/ktexttohtml.cpp:230-250 | Of the prefixes, all but "www.", "ftp." and "file://" count as an empty URL on their own. |
| UrlRules.Closer | src/lib/text/ktexttohtml.cpp:267-284 | A URL is enclosed (it gets a closing character) exactly when it is preceded by `[`, `<`, `>` or `"`. |
| UrlRules.StripBoundaries | src/lib/text/ktexttohtml.cpp:366-376 | Dropping trailing punctuation keeps a prefix of the candidate. The prefix is non-empty if the candidate was. Every dropped character is one of `.,:!?)>`. What is left is one character long or does not end in one of them. |
| UrlRules.Collected | src/lib/text/ktexttohtml.cpp:316-343 | The candidate collected from consumed text holds no white space and is no longer than that text. |
| UrlRules.CollectedVerbatim | src/lib/text/ktexttohtml.cpp:316-343 | From text without white space the candidate is the text itself. |
| UrlRules.UnenclosedIsVerbatim | src/lib/text/ktexttohtml.cpp:290-293 | A URL that is not enclosed is taken from the text verbatim, up to the first white space. |
| UrlRules.StripCanEmptyUrl | src/lib/text/ktexttohtml.cpp:352-376 | As written, "http://." and "www." pass the emptiness test, and dropping their trailing dot leaves "http://" and "www", which it would have refused. |
| EmailRules.EmailShape | src/lib/text/ktexttohtml.cpp:65-129 | An accepted address holds exactly one `@`, at the position it was found around. Its local part and domain are non-empty. It begins and ends with a letter or digit, its domain holds a dot, and it is at most maxAddressLen long. |
| EmailRules.EmailSplit | src/lib/text/ktexttohtml.cpp:74-109 | An address is its local part, `@` and its domain, and neither part holds an `@`. |
| EmailRules.LocalWalk | src/lib/text/ktexttohtml.cpp:75-85 | The walk back over the local part either meets another `@` or stops at an index no later than where it started. |
| EmailRules.LocalWalkChars | src/lib/text/ktexttohtml.cpp:75-85 | Every character the walk back passed over is ASCII and a letter, a digit or a dot-atom special. |
| EmailRules.SkipToAlnum | src/lib/text/ktexttohtml.cpp:87-89 | The forward skip stops at the first letter or digit, or at the `@`. |
| EmailRules.DomainWalk | src/lib/text/ktexttohtml.cpp:95-108 | The walk over the domain either meets another `@` or stops at an index after the `@`. |
| EmailRules.DomainWalkChars | src/lib/text/ktexttohtml.cpp:95-108 | Every character the domain walk passed over is a letter, a digit, `.` or `-`. |
| EmailRules.FirstDotIsFirst | src/lib/text/ktexttohtml.cpp:104-106 | The remembered dot is the first `.` in the domain walked over, and there is none exactly when no dot was met. |
| EmailRules.BackToAlnum | src/lib/text/ktexttohtml.cpp:110-112 | The walk back stops right after a letter or digit, or at the `@`. |
| EmailRules.EmailAroundSound | src/lib/text/ktexttohtml.cpp:65-129 | An address getEmailAddress finds satisfies the address rules (EmailAt): one `@`, letter or digit at both ends, a dot in the domain, at most maxAddressLen long. |
| PhoneRules.CloseAfterDigit | src/lib/text/ktexttohtml.cpp:143 | In text of the telephone pattern's shape, a `)` follows a digit. |
| PhoneRules.ParensAlternate | src/lib/text/ktexttohtml.cpp:156-167 | The parenthesis loop accepts exactly the texts whose parentheses alternate starting with `(`: balanced when their number is even, one left open when odd. |
| PhoneRules.ParensIgnoreOthers | src/lib/text/ktexttohtml.cpp:158-167 | Characters other than parentheses do not change the loop's verdict. |
| PhoneRules.BrokenStaysBroken | src/lib/text/ktexttohtml.cpp:159-161 | Once the parenthesis loop fails on a prefix, it fails on the whole match. |
| PhoneRules.LastOpen | src/lib/text/ktexttohtml.cpp:162-163 | The index kept is -1 or holds a `(`. |
| PhoneRules.LastOpenIsLast | src/lib/text/ktexttohtml.cpp:162-163 | No `(` follows the index kept. |
| PhoneRules.OpenBeforeLast | src/lib/text/ktexttohtml.cpp:157-167 | When the loop ends inside parentheses, its index is the last `(`, and the parentheses before it are closed. |
| PhoneRules.Filter | src/lib/text/ktexttohtml.cpp:148-170 | What the filters keep is no longer than the match. |
| PhoneRules.FilterRefuses | src/lib/text/ktexttohtml.cpp:148-167 | The filters refuse a match exactly when it has more than 15 digits, more than one `/`, a nested `(` or a `)` without `(`. |
| PhoneRules.FilterMeaning | src/lib/text/ktexttohtml.cpp:156-170 | A kept match is a prefix of the match that is balanced or stops before a `)`. A balanced match is kept whole. |
| PhoneRules.Separated | src/lib/text/ktexttohtml.cpp:172-177 | A number is returned only when the end of the text or an end separator (space, CR, tab, LF, `,`, `.`) follows it. |
| PhoneRules.PhoneNumber | src/lib/text/ktexttohtml.cpp:131-183 | getPhoneNumber never returns more than the match. |
| PhoneRules.PhoneNumberSound | src/lib/text/ktexttohtml.cpp:131-183 | A number getPhoneNumber returns is accepted by every filter (PhoneAt). |
| PhoneRules.PhoneNumberKept | src/lib/text/ktexttohtml.cpp:133-177 | A number returned starts with a digit or `+` after a begin separator, is what the filters keep of the match, and has an end separator after it. |
| PhoneRules.PhoneNumberOfKept | src/lib/text/ktexttohtml.cpp:133-180 | Conversely, a match the filters keep, at a digit or `+` after a begin separator and with an end separator after what is kept, is returned. |
| PhoneRules.PhoneNumberWhole | src/lib/text/ktexttohtml.cpp:131-180 | A match that passes every filter as it stands is returned whole. |
| PhoneRules.WholeMatch | src/lib/text/ktexttohtml.cpp:145-180 | A match the filters accept whole is what getPhoneNumber returns. |
| PhoneRules.UnclosedTruncation | src/lib/text/ktexttohtml.cpp:168-170 | Cutting the match before its unclosed `(` and the character before it, then trimming, leaves a prefix of the match. That prefix is balanced, or stops right before a `)`. |
| PhoneRules.CutIsPhone | src/lib/text/ktexttohtml.cpp:145-180 | A prefix of a filtered match that is followed by an end separator is an accepted phone number. |
| PhoneRules.PhoneChars | src/lib/text/ktexttohtml.cpp:185-195 | The normal form is no longer than the number and holds only digits and `+`. |
| PhoneRules.PhoneCharsCount | src/lib/text/ktexttohtml.cpp:185-195 | Each digit and `+` occurs in the normal form exactly as often as in the number. |
| PhoneRules.PhoneCharsAppend | src/lib/text/ktexttohtml.cpp:189-193 | Normalising a concatenation concatenates the normal forms, so order is kept. |
| PhoneRules.PhoneCharsKeep | src/lib/text/ktexttohtml.cpp:185-195 | A number made only of digits and `+` is its own normal form. |
| PhoneRules.PhoneCharsIdempotent | src/lib/text/ktexttohtml.cpp:185-195 | Normalising twice is normalising once. |
| HighlightRules.FindClose | src/lib/text/ktexttohtml.cpp:392-396 | The closing symbol found is that of the shortest match of the markup pattern, and no shorter match exists. |
| HighlightRules.MarkupClose | src/lib/text/ktexttohtml.cpp:380-417 | Where highlightedText closes markup: -1, or the closing symbol of a match of the pattern. |
| HighlightRules.MarkupCloseMeaning | src/lib/text/ktexttohtml.cpp:380-417 | Markup at p closes at q exactly when p holds a markup symbol after white space or the start of the text, q closes the shortest match, and white space or the end of the text follows q. |
| TextToHtmlHelper.Helper.constructor | src/lib/text/ktexttohtml.cpp:439 | The helper holds the text, the limits and the cursor it was given. |
| TextToHtmlHelper.Helper.GetEmailAddress | src/lib/text/ktexttohtml.cpp:65-129 | Either nothing is found and the cursor is unchanged, or an address is found around the `@` at the old cursor. The address satisfies the address rules, and the cursor ends on its last character. |
| TextToHtmlHelper.FindEmail | src/lib/text/ktexttohtml.cpp:65-129 | The loops find exactly what EmailAround describes. A found address is the text between its bounds. |
| TextToHtmlHelper.BackOverLocal | src/lib/text/ktexttohtml.cpp:75-85 | The loop walks back exactly as LocalWalk does. |
| TextToHtmlHelper.ForwardToAlnum | src/lib/text/ktexttohtml.cpp:87-89 | The loop skips forward exactly as SkipToAlnum does. |
| TextToHtmlHelper.ForwardOverDomain | src/lib/text/ktexttohtml.cpp:94-108 | The loop walks the domain exactly as DomainWalk does, and the dot it remembers is FirstDot. |
| TextToHtmlHelper.BackToLetterOrDigit | src/lib/text/ktexttohtml.cpp:110-112 | The loop walks back exactly as BackToAlnum does. |
| TextToHtmlHelper.Helper.GetPhoneNumber | src/lib/text/ktexttohtml.cpp:131-183 | The result is PhoneNumber at the old cursor. Either nothing is found and the cursor is unchanged, or an accepted phone number starts at the old cursor and the cursor ends on its last character. |
| TextToHtmlHelper.FindPhone | src/lib/text/ktexttohtml.cpp:131-182 | The result is exactly PhoneNumber of the text, the index and the match. A number returned is accepted by the filters and no longer than the match. |
| TextToHtmlHelper.CutMatch | src/lib/text/ktexttohtml.cpp:145-170 | The method passes a match exactly when Filter keeps it, and keeps what Filter keeps. |
| TextToHtmlHelper.ScanParens | src/lib/text/ktexttohtml.cpp:156-167 | The loop fails exactly when the parenthesis automaton breaks. Otherwise it leaves the index of the last `(` when the match ends inside parentheses, and -1 when all are closed. |
| TextToHtmlHelper.Helper.GetUrl | src/lib/text/ktexttohtml.cpp:252-378 | The result equals the corrected getUrl (UrlAt), which also refuses a bare scheme left once trailing punctuation is dropped; getUrl as written is UrlAsWritten (FindUrlAsWritten, BareSchemeAsWritten). The result satisfies UrlFound in each of four cases. No URL starts here: nothing, and the cursor is unchanged. Malformed: the cursor is on a `>` that follows a `"`. Refused: nothing, and the cursor goes back. Found: the URL is not empty (as isEmptyUrl decides) and at most maxUrlLen long; it is the scanned candidate without trailing punctuation; the cursor is on its last character; and an unenclosed URL is verbatim text. |
| TextToHtmlHelper.FindUrl | src/lib/text/ktexttohtml.cpp:252-378 | The result is exactly UrlAt: getUrl with the emptiness test also applied after the trailing punctuation is dropped. |
| TextToHtmlHelper.FindUrlAsWritten | src/lib/text/ktexttohtml.cpp:252-378 | The result is exactly UrlAsWritten: getUrl as written. |
| TextToHtmlHelper.UrlAsWrittenMeaning | src/lib/text/ktexttohtml.cpp:252-378 | As written, getUrl finds nothing where no URL starts. Otherwise it reports a malformed URL at a `>` after a `"`, or refuses a bare scheme or an overlong candidate with the cursor back, or takes the scanned candidate without trailing punctuation, with the cursor on its last character. |
| TextToHtmlHelper.UrlAtMeaning | src/lib/text/ktexttohtml.cpp:252-378 | The corrected getUrl has every property of UrlFound; in particular it never returns a bare scheme. |
| TextToHtmlHelper.RefusedFound | src/lib/text/ktexttohtml.cpp:352-376 | Refusing an empty result after the punctuation is dropped turns any outcome of the scan into one that satisfies UrlFound. |
| TextToHtmlHelper.ScanResultMeaning | src/lib/text/ktexttohtml.cpp:352-376 | What follows the scan (report, refuse, or drop trailing punctuation) meets UrlFromScanned for any outcome the scan can have. |
| TextToHtmlHelper.ScanResultUrl | src/lib/text/ktexttohtml.cpp:352-376 | A candidate taken is at most maxUrlLen long, is the scanned candidate less trailing punctuation, and is verbatim text when not enclosed. |
| TextToHtmlHelper.ChopBoundaries | src/lib/text/ktexttohtml.cpp:366-376 | The loop keeps the candidate without trailing punctuation and moves the cursor back by the number of characters dropped. |
| TextToHtmlHelper.ScanAct | src/lib/text/ktexttohtml.cpp:290-347 | One turn of the scanning loop. It stops on `[` or `]` outside an anchor, and on `<` or space before another URL. It stops after adding one space at a `<` that follows white space. It reports a malformed URL at a `>` right after a `"`. It skips white space, and otherwise takes the character. |
| TextToHtmlHelper.Scan | src/lib/text/ktexttohtml.cpp:290-350 | A malformed scan has no candidate and stops inside the text. Otherwise the candidate is no longer than the text consumed, unless it has grown past maxUrlLen. |
| TextToHtmlHelper.ScanOn | src/lib/text/ktexttohtml.cpp:290-350 | What each action of one turn does to the rest of the scan. |
| TextToHtmlHelper.ScanMeaning | src/lib/text/ktexttohtml.cpp:285-350 | From any state the loop can reach, the scan ends in ScanOutcome: a malformed URL is a `>` after a `"`; otherwise the candidate is the consumed text without white space, and the scan stopped at a character it may not consume, at a bracket, `<` or space, or past maxUrlLen. |
| TextToHtmlHelper.ScanFromMeaning | src/lib/text/ktexttohtml.cpp:285-350 | The scan started at the URL has that outcome. |
| TextToHtmlHelper.ScanUrl | src/lib/text/ktexttohtml.cpp:285-350 | The loop ends exactly where ScanFrom does, with the same candidate and verdict. |
| TextToHtmlHelper.BareSchemeAsWritten | src/lib/text/ktexttohtml.cpp:352-376 | On "http://.", getUrl as written returns the bare scheme "http://" with the cursor on its `/`, while the corrected getUrl finds nothing and leaves the cursor. |
| TextToHtmlHelper.WholeTextScanned | src/lib/text/ktexttohtml.cpp:285-350 | A text of printable characters other than brackets, `<` and `"`, no longer than maxUrlLen, is scanned whole and taken verbatim. |
| TextToHtmlHelper.Helper.HighlightedText | src/lib/text/ktexttohtml.cpp:380-417 | Something is found exactly when MarkupClose finds a closing symbol, and the cursor ends on it. Otherwise the cursor is unchanged. Found markup starts after white space or at the start of the text, with one of `*`, `_`, `/`, `-`, ends at the shortest match of the pattern, and the result is the tagged markup with its symbols. |
| HtmlOutput.Hyperlink | src/lib/text/ktexttohtml.cpp:535-542 | A URL starting "www." links to http://, one starting "ftp." to ftp://, and any other URL to itself. |
| HtmlOutput.Nbsps | src/lib/text/ktexttohtml.cpp:464-469 | n non-breaking spaces are 6·n characters. |
| HtmlOutput.Truncate | src/lib/text/ktexttohtml.cpp:555-556 | QString::truncate keeps the first n characters, nothing for negative n, everything for n past the end. |
| HtmlOutput.Push | src/lib/text/ktexttohtml.cpp:447-582 | Emitting a valid span where the tiling ends extends the tiling and appends its rendering to the output. |
| HtmlOutput.PushChar | src/lib/text/ktexttohtml.cpp:502-509 | Emitting an escaped character extends the run of escaped characters and appends its escape. |
| HtmlOutput.BlankSpan | src/lib/text/ktexttohtml.cpp:451-491 | Spaces and tabs kept with PreserveSpaces, rendered as a breaking space or as non-breaking spaces, form a valid span. |
| HtmlOutput.PopRun | src/lib/text/ktexttohtml.cpp:553-556 | The output ends with the escape of the run of escaped characters it last emitted. |
| HtmlOutput.RenderChars | src/lib/text/ktexttohtml.cpp:502-509 | A run of escaped characters renders as the per-character escape of its text. |
| HtmlOutput.RenderAppend | src/lib/text/ktexttohtml.cpp:441-582 | Rendering distributes over concatenation of spans. |
| HtmlOutput.CharsRender | src/lib/text/ktexttohtml.cpp:494-509 | When every span is an escaped character, the output is the per-character escape of the text consumed. |
| HtmlOutput.PlainRender | src/lib/text/ktexttohtml.cpp:494-580 | With IgnoreUrls set and HighlightText and PreserveSpaces clear, every span is an escaped character. |
| HtmlOutput.EscapedLength | src/lib/text/ktexttohtml.cpp:553-556 | The escape of a local part is longer than it by four characters per `&`, which is the amount the converter cuts. |
| HtmlOutput.DropLocalPart | src/lib/text/ktexttohtml.cpp:549-557 | When the local part was emitted as escaped characters, the truncation removes exactly their renderings and leaves a tiling up to the address's start. |
| HtmlOutput.EmitSpan | src/lib/text/ktexttohtml.cpp:447-582 | The converter's loop state is kept when a valid span is emitted at the cursor. |
| HtmlOutput.DropMail | src/lib/text/ktexttohtml.cpp:547-557 | The converter's loop state is kept when the escaped local part of an address is cut back out of the output. |
| TextToHtml.NormalizePhoneNumber | src/lib/text/ktexttohtml.cpp:185-195 | The loop returns the normal form: the digits and `+` of the number, in order (see the PhoneChars lemmas). |
| TextToHtml.TabStop | src/lib/text/ktexttohtml.cpp:484-491 | A tab at column x emits 1 to 8 non-breaking spaces, up to the first column after x that is a multiple of 8, with no multiple of 8 skipped: TabWidth(x) of them. The column is left on the tab's last space. |
| TextToHtml.WithinEight | src/lib/text/ktexttohtml.cpp:485-488 | The tab loop runs at most eight times. |
| TextToHtml.EscapeEntitiesLoop | src/lib/text/ktexttohtml.cpp:515-533 | The bad-URL loop returns the whole text with only the four entity escapes applied. |
| TextToHtml.PreservedSpace | src/lib/text/ktexttohtml.cpp:451-483 | A single space between words stays breaking. A single space at the start or end of a line, or at the end of the text, becomes `&nbsp;`. A run of spaces becomes one `&nbsp;` per space, and the cursor moves to its last space. The span it covers is the one KeptSpace gives. |
| TextToHtml.IndexOf | src/lib/text/ktexttohtml.cpp:550 | QString::indexOf gives the first index holding the character, or -1 when there is none. |
| TextToHtml.AtIsFirst | src/lib/text/ktexttohtml.cpp:547-551 | In a found address, the first `@` is the one it was found around, so `len` is the length of its local part. |
| TextToHtml.ConvertToHtml | src/lib/text/ktexttohtml.cpp:437-583 | A malformed URL gives the whole text entity-escaped; it is reported at the first index where the recognisers, taken in order after the spans emitted before it, report one (a URL starts there). Otherwise the output is the rendering of spans that tile the text, each a faithful rendering of its piece, and each the span the recognisers take where the previous one ends (Decided); kept white space is the span KeptBlank gives at the column and start-of-line flag that the spans before it leave. With IgnoreUrls set and HighlightText and PreserveSpaces clear, the output is the per-character escape of the text, and the reference decoder gives the text back. |
| TextToHtml.Step | src/lib/text/ktexttohtml.cpp:447-582 | One round of the loop gives either a malformed URL, where the recognisers report one, or a valid span that ends at the new cursor and is the one Picked at the cursor: kept white space, the escaped character where no recogniser accepts, or the token the recognisers take. Only an address's span reaches back, over its local part, which is returned. Kept white space is the span KeptBlank gives at column x and with startOfLine. The new column plus one is the column after the span, counted from where the span starts. The new startOfLine holds exactly when the span is a line feed. |
| TextToHtml.Recognise | src/lib/text/ktexttohtml.cpp:510-580 | What the recognisers report at the cursor is exactly RecogniseAt: URL, then address, then phone number, then markup, each only with its flag, the first that accepts winning. Nothing found leaves the cursor; a token found is a valid span ending at the new cursor. |
| TextToHtml.RecogniseUrl | src/lib/text/ktexttohtml.cpp:512-546 | Found exactly when UrlAt finds a URL, malformed exactly when UrlAt reports one; a URL found becomes an anchor to its hyperlink, labelled with its escaped text, ending at the new cursor. |
| TextToHtml.RecogniseAddress | src/lib/text/ktexttohtml.cpp:547-562 | Found exactly when getEmailAddress finds an address (EmailAround) whose local part starts at or after the end of the last token; it becomes a mailto: anchor spanning the address, and the local part before the cursor is returned. Otherwise the cursor is unchanged. |
| TextToHtml.MailToken | src/lib/text/ktexttohtml.cpp:547-562 | The address's anchor replaces its local part only when that local part lies in the run of escaped characters emitted since the last token. |
| TextToHtml.MailSpan | src/lib/text/ktexttohtml.cpp:547-559 | An address found around an `@` renders as a mailto: anchor spanning it, and its first `@` is that `@`. |
| TextToHtml.RecognisePhone | src/lib/text/ktexttohtml.cpp:563-570 | Found exactly when getPhoneNumber returns a number; it becomes a tel: anchor to its normal form, labelled with the number as written, ending at the new cursor. Otherwise the cursor is unchanged. |
| TextToHtml.RecogniseMarkup | src/lib/text/ktexttohtml.cpp:572-579 | Found exactly when MarkupClose finds a closing symbol; the markup is emitted as highlightedText returns it, up to that symbol. Otherwise the cursor is unchanged. |
| TextToHtml.LocalPartOverPhone | src/lib/text/ktexttohtml.cpp:547-569 | As written, in "0123456789.a@b.com" with ConvertPhoneNumbers: the number at index 0 is a phone number, no URL starts before the `@`, the loop has emitted the number's tel: anchor and `.a`, and the address around the `@` starts at index 0. The address branch as written (AddressBranchAsWritten) then cuts 12 characters and leaves `<a href="tel:0123456789">0123` before the mailto: anchor. The model refuses that address: nothing is recognised at the `@`. |
| TextToHtml.KeepWhiteSpace | src/lib/text/ktexttohtml.cpp:450-492 | A space or a tab kept with PreserveSpaces becomes a valid Blank span from the cursor to the new cursor, equal to the span KeptBlank gives at column x and with startOfLine. The new column plus one is the column after the span. |
| TextToHtml.Pick | src/lib/text/ktexttohtml.cpp:510-580 | For a character handed to the recognisers: malformed exactly when RecogniseAt says so; otherwise the token RecogniseAt takes, or the escaped character when it takes nothing, as a valid span ending at the new cursor. The span is never white space or a line feed. The new column plus one is the column after the span, counted from where the span starts, so an address's column steps back over its local part. |
| TextToHtml.RecogniseFromAddress | src/lib/text/ktexttohtml.cpp:547-579 | The recognisers from getEmailAddress on report exactly AddressAt: an address, else a phone number, else markup. |
| TextToHtml.RecogniseFromNumber | src/lib/text/ktexttohtml.cpp:563-579 | The recognisers from getPhoneNumber on report exactly NumberAt: a phone number, else markup. |
| TextToHtml.AddressBranchAsWritten | src/lib/text/ktexttohtml.cpp:547-559 | As written, the address branch keeps a prefix of the output and ends with the mailto: anchor. |
| TextToHtml.AddressBranchAgrees | src/lib/text/ktexttohtml.cpp:547-559 | For an accepted address, the branch as written cuts exactly the escapes of the local part, which is what the model's converter cuts once those characters were emitted one by one. |
| TextToHtml.LocalPartAsWritten | src/lib/text/ktexttohtml.cpp:547-559 | On the output the loop has when it reaches the `@` of "0123456789.a@b.com", the branch as written leaves `<a href="tel:0123456789">0123` before the mailto: anchor. |
| TextToHtml.SpliceCut | src/lib/text/ktexttohtml.cpp:550-557 | When an address's first `@` is n characters in and its local part has no `&`, the branch as written cuts exactly n characters. |
| TextToHtml.NumberThenTwo | src/lib/text/ktexttohtml.cpp:563-580 | A number taken at index 0 followed by two characters where nothing is recognised leaves the loop state with the number's anchor and the two escapes, the last token ending after the number. |
| TextToHtml.NumberThenOne | src/lib/text/ktexttohtml.cpp:563-580 | The same after the number and one character. |
| TextToHtml.EmitNumber | src/lib/text/ktexttohtml.cpp:563-570 | A number the filters accept whole at index 0, where no URL starts, is the first span of the loop state. |
| TextToHtml.EmitPlain | src/lib/text/ktexttohtml.cpp:580 | Where no URL starts, no `@` is and the telephone pattern does not match, without markup, the loop emits the character escaped and keeps its state. |
| TextToHtml.NumberFirst | src/lib/text/ktexttohtml.cpp:512-570 | A number the filters accept whole, where no URL starts and no `@` is, is what the recognisers take with ConvertPhoneNumbers. |
| TextToHtml.NothingPlain | src/lib/text/ktexttohtml.cpp:512-580 | Where no URL starts, no `@` is and the telephone pattern does not match, without markup, nothing is recognised. |
| TextToHtml.NothingAtRefusedAddress | src/lib/text/ktexttohtml.cpp:547-580 | At an `@` whose address reaches back before the last token, where no URL starts, without markup, nothing is recognised. |
| TextToHtml.NoUrlAt | src/lib/text/ktexttohtml.cpp:512-514 | Where no URL starts, getUrl finds nothing and leaves the cursor. |
| TextToHtml.EmailAroundAtStart | src/lib/text/ktexttohtml.cpp:65-129 | The address getEmailAddress finds around the `@` of "0123456789.a@b.com" is the whole text. |
| TokenRules.MalformedAtUrl | src/lib/text/ktexttohtml.cpp:512-533 | A malformed URL is only reported where URLs are recognised and a URL starts. |
| TokenRules.NothingRecognised | src/lib/text/ktexttohtml.cpp:510-580 | Nothing is recognised at an index exactly when no recogniser that is switched on accepts there: no URL (and no malformed one), no address reaching back no further than the last token, no phone number, no markup. |
| TokenRules.RecognitionOrder | src/lib/text/ktexttohtml.cpp:510-580 | A URL is taken where UrlAt finds one; an address only where no URL is; a number only where no URL and no address is taken; markup only where none of those is; the token is never an escaped character or white space. |
| TokenRules.AddressOrder | src/lib/text/ktexttohtml.cpp:547-579 | From getEmailAddress on: an address is the one EmailAround finds; a number is taken only where no address is, and is getPhoneNumber's result; markup only where neither is. |
| TokenRules.NumberOrder | src/lib/text/ktexttohtml.cpp:563-579 | From getPhoneNumber on: a number is getPhoneNumber's result, taken with ConvertPhoneNumbers; markup only where no number is. |
| TokenRules.MarkupOrder | src/lib/text/ktexttohtml.cpp:572-579 | Markup is taken only with HighlightText, up to the closing symbol MarkupClose finds. |
| TokenRules.ConvertedStart | src/lib/text/ktexttohtml.cpp:441-447 | The loop starts with no spans, no output, and the loop state holding. |
| TokenRules.EmitPicked | src/lib/text/ktexttohtml.cpp:534-580 | Emitting the span picked at the cursor, other than an address, keeps the loop state; a token moves the end of the last token to its end. |
| TokenRules.EmitAddress | src/lib/text/ktexttohtml.cpp:547-562 | Cutting an address's escaped local part back out and emitting its anchor keeps the loop state, with the address as the last token. |
| TokenRules.AddressDecided | src/lib/text/ktexttohtml.cpp:547-562 | Dropping the local part's escaped characters and adding the address keeps every span Decided. |
| TokenRules.DecidedPrefix | src/lib/text/ktexttohtml.cpp:553-556 | Dropping escaped characters emitted since the last token keeps the spans Decided, after the same token. |
| TokenRules.DecidedAt | src/lib/text/ktexttohtml.cpp:447-582 | Each span of a Decided output is Chosen after the spans before it. |
| TokenRules.CharMeansNothing | src/lib/text/ktexttohtml.cpp:510-580 | Where a Decided output has an escaped character handed to the recognisers, none that is switched on accepts there. |
| TokenRules.FirstSpan | src/lib/text/ktexttohtml.cpp:447-582 | A Decided tiling starts with what the recognisers take at index 0; where they take nothing, with the escaped character or an address whose local part begins there; never a malformed URL. |
| TokenRules.KeptBlankMeaning | src/lib/text/ktexttohtml.cpp:450-492 | Kept white space starts at the cursor and covers only the character there, repeated. A tab emits non-breaking spaces up to the next tab stop and no further. A run of spaces is taken to its end; with two or more it gives one `&nbsp;` each. A single space is breaking exactly when it is not at the start or end of a line and not at the end of the text; otherwise it is `&nbsp;`. |
| TokenRules.SpaceRunEndMeaning | src/lib/text/ktexttohtml.cpp:465-473 | The run of spaces starting at p holds only spaces and ends at the end of the text or at a character that is not a space. |
| TokenRules.SpaceRunEndAt | src/lib/text/ktexttohtml.cpp:465-473 | Any index that bounds a maximal run of spaces from p is where the run ends. |
| TokenRules.TabWidthMeaning | src/lib/text/ktexttohtml.cpp:485-489 | n is the tab width at column x exactly when x + n is a multiple of 8 and no column strictly between is. |
| TokenRules.TabStopOnce | src/lib/text/ktexttohtml.cpp:485-489 | Among the eight columns after x, the tab stop is the only multiple of 8. |
| TokenRules.ColumnSnoc | src/lib/text/ktexttohtml.cpp:447-448 | Emitting a span moves the column as ColumnAfter says, and the loop is at the start of a line exactly when that span is a line feed. |
| TokenRules.ColumnOverRun | src/lib/text/ktexttohtml.cpp:447-448 | Escaped characters, none a line feed, move the column on by one each. |
| TokenRules.ColumnDropLocal | src/lib/text/ktexttohtml.cpp:557 | Taking the escaped local part of an address back out of the spans takes its length off the column. |
| TokenRules.ColumnAfterAddress | src/lib/text/ktexttohtml.cpp:557-560 | After the local part is dropped and the address emitted, the column is where the local part started plus the address's length, and the address does not end a line. |
| TokenRules.StepPicked | src/lib/text/ktexttohtml.cpp:447-582 | A step that emits a span other than an address keeps the loop state, and the loop's column and startOfLine, after the step's increment, are those the new spans leave. |
| TokenRules.StepAddress | src/lib/text/ktexttohtml.cpp:547-561 | A step that emits an address keeps the loop state once the local part is dropped, and the loop's column and startOfLine are those the new spans leave. |
| TokenRules.KeptAt | src/lib/text/ktexttohtml.cpp:447-492 | Each span of a Decided output is Kept after the spans before it. |
| TokenRules.BlankMeansKept | src/lib/text/ktexttohtml.cpp:450-492 | Kept white space in a Decided output is a space or a tab kept with PreserveSpaces, and it is the span KeptBlank gives at the column and start-of-line flag that the spans before it leave. |
| TokenRules.TilesFront | src/lib/text/ktexttohtml.cpp:447 | The first span of a tiling starts at index 0. |
| TokenRules.DecidedFront | src/lib/text/ktexttohtml.cpp:447 | The first span of a Decided output is Chosen after no token. |
| Separated.JoinSplit | src/lib/io/kurlmimedata.cpp:76 | Splitting loses nothing: joining the pieces with the separator gives the input back. |
| Separated.SplitJoin | src/lib/io/kurlmimedata.cpp:163 | Joining pieces that the separator delimits, then splitting again, gives the pieces back. |
| Separated.SplitFree | src/lib/io/kurlmimedata.cpp:163 | Text in which the separator does not occur is a single piece. |
| Separated.SplitAfter | src/lib/io/kurlmimedata.cpp:163 | A piece that the separator delimits is cut off whole. |
| Separated.DelimitsFree | src/lib/io/kurlmimedata.cpp:163 | A delimited piece holds no separator. |
| Separated.TerminatedJoin | src/lib/io/kurlmimedata.cpp:57-62 | Ending every item with the separator is joining them and ending with the separator once. |
| Separated.TerminatedAppend | src/lib/io/kurlmimedata.cpp:57-62 | Terminating a concatenation of items concatenates the terminated parts. |
| UrlMimeData.MimeDataTypes | src/lib/io/kurlmimedata.cpp:66-69 | Exactly two formats, application/x-kde4-urilist then text/uri-list. |
| UrlMimeData.UriListSnoc | src/lib/io/kurlmimedata.cpp:38-41 | Each URL adds its encoding followed by CRLF at the end. |
| UrlMimeData.UriListData | src/lib/io/kurlmimedata.cpp:34-43 | The loop returns each URL's encoding followed by CRLF, in order, and nothing else. |
| UrlMimeData.UrlOf | src/lib/io/kurlmimedata.cpp:79-82 | A line yields at most one URL. |
| UrlMimeData.ExtractKdeUriList | src/lib/io/kurlmimedata.cpp:71-85 | The URLs of the KDE format are its bytes split at line feeds, each piece trimmed, and the empty pieces dropped. |
| UrlMimeData.UriListRoundTrip | src/lib/io/kurlmimedata.cpp:34-43 | Decoding the uri-list encoding gives the URLs back, in order, when every encoding is non-empty and free of white space. |
| UrlMimeData.DecodeLine | src/lib/io/kurlmimedata.cpp:76-82 | A CRLF-ended line holding an encoding decodes to that one URL, followed by the URLs of the lines after it. |
| UrlMimeData.EmptyUriList | src/lib/io/kurlmimedata.cpp:146-152 | An encoded list decodes to nothing exactly when it is empty. |
| UrlMimeData.SetUrls | src/lib/io/kurlmimedata.cpp:45-52 | The most local URLs go to the text/uri-list slot and the URLs' list encoding to the KDE format. Nothing else changes. |
| UrlMimeData.SelectUrls | src/lib/io/kurlmimedata.cpp:142-155 | The result is one of the two lists. It is empty exactly when both are. |
| UrlMimeData.SetUrlsThenRead | src/lib/io/kurlmimedata.cpp:45-52 | Reading back what setUrls wrote gives the preferred list. With PreferLocalUrls that is the most local URLs, otherwise the URLs; the other list is used when the preferred one is empty. |
| UrlMimeData.Items | src/lib/io/kurlmimedata.cpp:57-62 | The items of the payload are twice as many as the entries. |
| UrlMimeData.ItemsSnoc | src/lib/io/kurlmimedata.cpp:57-62 | Each entry adds its key and then its value. |
| UrlMimeData.ItemIsKeyOrValue | src/lib/io/kurlmimedata.cpp:57-62 | Item 2i is the i-th key and item 2i+1 the i-th value. |
| UrlMimeData.SetMetaData | src/lib/io/kurlmimedata.cpp:54-64 | The payload `key$@@$value$@@$…` of the entries, in order, is stored under application/x-kio-metadata. Nothing else changes. |
| UrlMimeData.PayloadEndsWithSeparator | src/lib/io/kurlmimedata.cpp:161 | A non-empty map's payload is non-empty and ends with the separator. |
| UrlMimeData.CString | src/lib/io/kurlmimedata.cpp:160 | Reading the payload's constData() keeps the bytes before the first NUL, and all of them when there is none. |
| UrlMimeData.Chop | src/lib/io/kurlmimedata.cpp:162 | QString::chop drops the last n characters, or everything when there are not more than n. |
| UrlMimeData.NoNulInPayload | src/lib/io/kurlmimedata.cpp:160 | A payload of keys and values without NUL holds no NUL, so reading its constData() loses nothing. |
| UrlMimeData.InsertMetaData | src/lib/io/kurlmimedata.cpp:163-174 | The readingKey loop leaves the map with the items read alternately as key and value inserted in order. |
| UrlMimeData.InsertItemsSnoc | src/lib/io/kurlmimedata.cpp:166-173 | A key followed by a value inserts that pair. |
| UrlMimeData.InsertItemsOdd | src/lib/io/kurlmimedata.cpp:166-174 | A trailing key without a value inserts nothing. |
| UrlMimeData.InsertItemsPairs | src/lib/io/kurlmimedata.cpp:163-174 | Any list of items is decoded by inserting its key-value pairs in order. |
| UrlMimeData.Pairs | src/lib/io/kurlmimedata.cpp:164-173 | n items make n/2 pairs. |
| UrlMimeData.InsertItemsApply | src/lib/io/kurlmimedata.cpp:57-62 | Inserting the items of entries, read alternately, inserts the entries in order. |
| UrlMimeData.ApplyKeys | src/lib/io/kurlmimedata.cpp:170 | Decoding adds exactly the decoded keys to the caller's map. |
| UrlMimeData.ApplyKeeps | src/lib/io/kurlmimedata.cpp:170 | A key of the caller's map that no decoded pair names keeps its value. |
| UrlMimeData.ApplyLast | src/lib/io/kurlmimedata.cpp:170 | A key maps to the value of the last pair that names it, so later duplicates overwrite earlier ones. |
| UrlMimeData.MetaDataRoundTrip | src/lib/io/kurlmimedata.cpp:157-175 | Decoding the payload of entries into a map inserts exactly those entries, in order. A non-empty payload splits into twice as many items as entries, so an even number. The side condition is that every key and value is delimited by the separator and holds no NUL. |
| UrlMimeData.DelimitsSeparator | src/lib/io/kurlmimedata.cpp:163 | A key or value is delimited by the separator exactly when it does not contain "$@@$" and does not end in "$@@". |
| UrlMimeData.KeyRunsIntoSeparator | src/lib/io/kurlmimedata.cpp:54-64 | The key "a$@@" with value "b" decodes as "a" mapped to "@@$b". |
| UrlMimeData.UrlsFromMimeData | src/lib/io/kurlmimedata.cpp:132-178 | The URLs are the preferred list, or the other when it is empty. The caller's map changes only when there is one and the payload is non-empty, and then by inserting the decoded pairs. |
| UrlMimeData.DropAfterDrag | src/lib/io/kurlmimedata.cpp:45-64 | Writing URLs and metadata, then reading them back, gives the preferred URL list and exactly the metadata entries, later duplicates winning. |

## Left out

- Smiley replacement (the ReplaceSmileys flag): the emoticon plugin is foreign code, so the converter is modelled without it.
- Emoticon plugin loading and `pngToDataUrl`: they are plugin loading, file I/O and base64 from a library.
- The regular-expression engine. The telephone pattern's anchored match is an input: its length at each index, constrained by TelShape to what the pattern can match. The markup pattern is modelled by the predicate MatchEndsAt and the search FindClose.
- Unicode character classes. isLetterOrNumber, isDigit, isSpace and isPrint are ASCII approximations (isPrint also holds from U+00A0 up).
- Percent-encoding. A URL is represented by its encoded form, so `toEncoded` and `fromEncoded` are inverse by construction. UriListRoundTrip requires every encoded URL to be non-empty and free of white space. An empty `QUrl` encodes to nothing, so its line is a bare CRLF, which the decoder drops: empty URLs do not survive the round trip, and the lemma excludes them.
- UTF-8 conversion of metadata keys and values. A key or value is its UTF-8 bytes, one element per byte.
- The D-Bus document portal and KIO FUSE transfer: they are IPC. The model reads URLs as if the portal gave none.
- `QMimeData::setUrls` also writes text/plain. Only the text/uri-list slot is modelled.
- The metadata map's iteration order: `QMap` iterates by key, and the model takes the entries as a sequence in whatever order the map gives them.
- The Q_ASSERTs at kurlmimedata.cpp lines 161 and 174 are not checks at run time in the model. They are proved as lemmas about well-formed payloads (PayloadEndsWithSeparator, MetaDataRoundTrip); a payload from elsewhere is decoded as the code decodes it.
- HtmlOutput.BlankSpan: a kept single space is stated to be a breaking space or non-breaking spaces, so that ValidSpan stays a property of one span. Which of them the converter emits depends on the spans before it, and Decided states it (Kept, KeptBlank).
- EmailRules.FirstDot: the source's "no dot yet" value INT_MAX is the text's length in the model. Both are at least the domain's end, so the dot test decides the same.
- TextToHtmlHelper.Helper.GetUrl: runs the corrected getUrl (UrlAt), which refuses a bare scheme such as "http://" left once trailing punctuation is dropped; getUrl as written links it (UrlAsWritten, BareSchemeAsWritten, and the findings).
- TextToHtml.ConvertToHtml: runs the corrected recognisers, so on "see http://." it links nothing where the code as written links "http://", and on "0123456789.a@b.com" with ConvertPhoneNumbers it leaves the address unlinked where the code as written cuts 12 characters into the tel: anchor (LocalPartOverPhone).
- TextToHtml.RecogniseAddress: refuses an address whose local part starts before the end of the last token; the code as written takes it and cuts the output by the local part's length (AddressBranchAsWritten, LocalPartOverPhone).
- Integer widths: positions and lengths are unbounded integers. Qt's `int` cannot overflow for texts that fit in memory.

## Findings

| source | as written | input that shows it | evidently intended | confidence | as-written member | corrected member |
|---|---|---|---|---|---|---|
| src/lib/text/ktexttohtml.cpp:547-569 | An address's local part is cut out of the output by its length alone, whatever was emitted for those characters. | "0123456789.a@b.com" with ConvertPhoneNumbers: the number becomes a tel: anchor, and the cut leaves `<a href="tel:0123456789">0123` in the output. | The local part is taken back only when it was emitted as escaped characters; otherwise the address is not linked. | not executed | TextToHtml.LocalPartOverPhone | TextToHtml.RecogniseAddress |
| src/lib/text/ktexttohtml.cpp:352-376 | The empty-URL test runs before trailing punctuation is dropped. | "http://." (or "www." ) in running text: the test passes, the dot is dropped, and "http://" (or "www") is linked. | The result of getUrl is never an empty URL. | not executed | TextToHtmlHelper.BareSchemeAsWritten | TextToHtmlHelper.FindUrl |

# Request handling of the runtime-class demo server, in Dafny

The server in `main.c` answers every HTTP request with a page. The page is
meant to show an image that depends on the runtime class the request's host
name advertises. As written, it always shows the container image (see
"## Findings"). The page also shows a table of the request's headers. This
project models the request handling at the core of that server and proves
properties about it.

- `find_substring` is the program's own substring search. It is modelled as a
  method with its two nested loops (`Matcher.FindSubstring`) and proved equal
  to a specification function (`Matcher.Find`): the first occurrence of the
  needle in the haystack's C string, or NULL.
- `determineImageURL` is the ordered chain of six pattern tests
  (`Classifier.DetermineImageUrl`). It is proved to pick the image of the
  first pattern the host contains.
- `getHostFromHeaders` copies the text between the first `"Host: "` and the
  next `"\r\n"` into its static 256-byte buffer
  (`HostHeader.GetHostFromHeaders`). It is proved against the value
  `HostHeader.HostOf`.
- `parse_headers` tokenises the receive buffer in place with `strtok_r`,
  skips the first line, and appends one HTML row per line that has a colon,
  with a bounded `strncat`. It is modelled as `HeaderParser.ParseHeaders`
  over two arrays. Its effect on both buffers is proved against the value
  functions `Marked` and `HeadersHtml`.
- One pass of `main`'s accept loop is `Server.HandleRequestAsWritten`.

C strings are modelled as the buffer they point into, a `seq<char>` holding a
NUL. The string itself is the part before the first NUL (`CStrings.CStr`). A
NULL pointer is `None`. The seven image URLs are modelled only by the enum
`Classifier.RuntimeImage`.

Four behaviours of the code are worth stating:

- The urunc host names `hellouruncfc` and `hellouruncqemu` do reach their own
  images. `hellofc` and `helloqemu` are not substrings of them, because
  `hello` is followed by `u` in both.
- A `Host` header line gets its own row in the headers table, like every
  other line after the first that has a colon.
- `getHostFromHeaders` returns NULL unless a `"\r\n"` follows `"Host: "`
  (main.c:144-147).
- Each connection gets one `read` into `recvbuf`, and its result is ignored
  (main.c:251).

After `parse_headers`, the receive buffer's C string ends with the first
line. It can still contain a `"\r\n"` when the request starts with line
breaks, because `strtok_r` does not overwrite leading delimiters. Either way,
no host is found (`Server.ParsedRequestHasNoHost`).

## Model

| member | source | states |
|---|---|---|
| `CStrings.CStrLen` | main.c:83 | strlen: the index of the first NUL, with no NUL before it |
| `CStrings.CStr` | main.c:91 | the C string is NUL-free and is followed by the NUL in the buffer |
| `CStrings.CStrOfSuffix` | main.c:141 | advancing a pointer within the string gives the rest of the same string |
| `CStrings.CStrOfContent` | main.c:156 | content followed by a NUL reads back as that content |
| `CStrings.UniqueFirstNul` | main.c:156 | a NUL with none before it is where strlen stops |
| `Matcher.MatchesFromIsOccurrence` | main.c:94-100 | the character-by-character comparison succeeds exactly when the needle sits at that position |
| `Matcher.FirstOccurrenceFrom` | main.c:91-105 | the first match at or after a position, none before it; None only when there is no match from there on |
| `Matcher.FirstOccurrence` | main.c:91-105 | the first match, if any; None exactly when the needle does not occur |
| `Matcher.FirstOccurrenceIsUnique` | main.c:91-105 | a first occurrence is the one the search returns |
| `Matcher.OccursOnlyAtStart` | main.c:93 | a needle whose first character appears only at index 0 can only match there |
| `Matcher.Find` | main.c:81-106 | NULL for a NULL haystack or an empty needle; otherwise the first occurrence inside the C string, lying wholly before the NUL, and NULL exactly when there is none |
| `Matcher.FindSubstring` | main.c:81-106 | the two nested loops return exactly `Find`; their invariants keep every read at or before the haystack's NUL |
| `Classifier.RuleIndex` | main.c:110-126 | the position of an image's test in the chain: every image except the container one has exactly one rule there, and the container image comes after them all |
| `Classifier.DetermineImageUrl` | main.c:110-126 | determineImageURL: six substring tests in a fixed order, the first that succeeds choosing its image, and the container image when none does or the host is NULL |
| `Classifier.DetermineImageUrlFirstMatch` | main.c:110-126 | the chosen image belongs to a rule whose pattern the host contains, and no earlier rule's pattern is in the host; the container image means no pattern matches or the host is NULL |
| `Classifier.FirstMatchDeterminesImage` | main.c:110-126 | conversely, the first rule whose pattern the host contains gives the image |
| `Classifier.NoMatchIsContainer` | main.c:123-124 | a NULL host, or one with none of the patterns, gets the container image |
| `Classifier.FirecrackerHost` | main.c:111-112 | the host `hellofc` gets the Firecracker image |
| `Classifier.UruncFirecrackerHost` | main.c:111-120 | the host `hellouruncfc` gets the urunc Firecracker image, since none of the four earlier patterns is in it |
| `Classifier.UruncQemuHost` | main.c:111-122 | the host `hellouruncqemu` gets the urunc QEMU image, since none of the five earlier patterns is in it |
| `Classifier.DetermineImageUrlReadsCString` | main.c:110-126 | the classification depends only on the host's C string, not on the bytes after its NUL |
| `HostHeader.HostOfWithoutMarker` | main.c:135-138 | no `"Host: "` in the request's C string gives NULL |
| `HostHeader.HostOf` | main.c:128-159 | the host name getHostFromHeaders returns: NULL without a `"Host: "` in the request's C string, otherwise what follows the first one |
| `HostHeader.HostAfterMarker` | main.c:141-156 | the text after the marker up to the first `"\r\n"`, NULL when there is no line end or the name would not fit the 256-byte buffer with its terminator |
| `HostHeader.HostOfWithoutLineEnd` | main.c:144-147 | a `"Host: "` with no `"\r\n"` after it gives NULL |
| `HostHeader.HostOfAfterFirstMarker` | main.c:135-141 | the host is what the text after the first `"Host: "` yields, and that text is the rest of the same C string |
| `HostHeader.HostAfterMarkerBeforeLineEnd` | main.c:144-156 | with the first `"\r\n"` at `e`: the `e` characters before it when `e < 256`, and NULL otherwise |
| `HostHeader.HostOfBetweenMarkerAndLineEnd` | main.c:135-158 | the host is exactly the characters between the end of the first `"Host: "` and the next `"\r\n"`, or NULL when there are 256 or more of them |
| `HostHeader.NoLineEndBeforeFirst` | main.c:144 | the text before the first `"\r\n"` has no `"\r\n"` in it |
| `HostHeader.HostAfterMarkerShape` | main.c:144-156 | a host found after the marker is shorter than 256, NUL-free and free of `"\r\n"` |
| `HostHeader.HostOfShape` | main.c:135-158 | every host name that is found is shorter than 256, NUL-free and free of `"\r\n"` |
| `HostHeader.MarkersNulFree` | main.c:130-144 | neither searched-for literal holds a NUL |
| `HostHeader.LocateHost` | main.c:134-153 | the two searches and the length check return exactly `HostOf` |
| `HostHeader.CopyTerminated` | main.c:155-156 | strncpy plus the terminator leaves the name as the buffer's C string, and nothing past the terminator changes |
| `HostHeader.GetHostFromHeaders` | main.c:128-159 | returns the static buffer exactly when `HostOf` finds a host, and the buffer's C string is then that host; NULL leaves the buffer untouched |
| `HeaderParser.DelimRun` | main.c:176 | the run of line breaks strtok_r skips: all delimiters, followed by a non-delimiter or the end |
| `HeaderParser.SpanLen` | main.c:176 | the token's length: no delimiters, followed by a delimiter or the end |
| `HeaderParser.Tokens` | main.c:176-203 | the lines strtok_r returns are non-empty and contain no `'\r'` or `'\n'` |
| `HeaderParser.TokensKeepEveryOtherCharacter` | main.c:176-203 | joining the tokens gives the string with its delimiters removed, so nothing else is dropped, moved or added |
| `HeaderParser.TokensAt` | main.c:176-203 | a delimiter run followed by a token: that token comes next in `Tokens`, and the delimiter after it may be skipped |
| `HeaderParser.TokensOfDelims` | main.c:177 | text made only of line breaks has no tokens |
| `HeaderParser.IndexOfColon` | main.c:186 | strchr: the first colon, or None when the line has none |
| `HeaderParser.FieldsFit` | main.c:168-194 | what the loop body assumes of a line without checking: a key shorter than 256, a colon that is not the line's last character, and a value shorter than 256 |
| `HeaderParser.Truncate` | main.c:198 | the first `m` characters of a string, all of them when it is shorter, as snprintf and strncat keep |
| `HeaderParser.RowMarkup` | main.c:198 | the table row format filled in with a key and a value |
| `HeaderParser.HeaderRow` | main.c:186-200 | a line without a colon gives no row; otherwise the row is the row markup for the text before the first colon and the text from two characters past it, cut to its first 511 characters as snprintf leaves it |
| `HeaderParser.Rows` | main.c:177-204 | the rows of a list of header lines, in line order, lines without a colon contributing none |
| `HeaderParser.Drop1` | main.c:179-183 | every line but the first, which the loop skips as the request line |
| `HeaderParser.HeaderLines` | main.c:176-183 | the header lines: the tokens of the request's C string after the request line |
| `HeaderParser.HeadersHtml` | main.c:165-205 | what parse_headers leaves in headers_html: all the rows one after the other, cut to `max_size - 1` characters |
| `HeaderParser.HeadersHtmlIsCutRows` | main.c:173-199 | headers_html is the concatenation of the rows cut to `max_size - 1` characters: never longer, and a prefix of the rows |
| `HeaderParser.TruncateAppend` | main.c:199 | strncat bounded by the room left keeps the first `max_size - 1` characters of all rows appended so far |
| `HeaderParser.MarkedFirstLine` | main.c:176-203 | the tokenising leaves the leading line breaks and the first line unchanged |
| `HeaderParser.MarkedAt` | main.c:176-203 | the effect of tokenising on one character: a delimiter right after a non-delimiter becomes NUL, every other character stays |
| `HeaderParser.Marked` | main.c:176-203 | the receive buffer after all strtok_r calls, character by character |
| `HeaderParser.MarkedFirstLineEnd` | main.c:176 | the first line ends with a NUL after the tokenising |
| `HeaderParser.MarkedCString` | main.c:176-203 | after the tokenising, the buffer's C string is the leading line breaks plus the first line |
| `HeaderParser.ScanFacts` | main.c:176-203 | strtok_r's scan, in buffer indices: delimiters up to the token, non-delimiters within it, and a delimiter or the NUL after it |
| `HeaderParser.ScanWithoutWrite` | main.c:176-203 | a call that finds no token, or a token running to the NUL, leaves the buffer unchanged |
| `HeaderParser.ScanWithWrite` | main.c:176-203 | a token ended by a delimiter: that delimiter becomes NUL and the scan resumes after it |
| `HeaderParser.TokenStep` | main.c:176-203 | one strtok_r call: skip the delimiters; at the NUL no token; otherwise the delimiter-free token up to the next delimiter or the NUL, the delimiter overwritten with NUL and the scan resumed after it |
| `HeaderParser.StrTokR` | main.c:176-203 | one strtok_r call: the delimiter run is skipped and the token returned; only the delimiter ending the token is overwritten |
| `HeaderParser.MarkedDelimRun` | main.c:176-203 | delimiters that follow a delimiter or start the string are left as they are |
| `HeaderParser.TokeniseToEnd` | main.c:177 | a call that finds only delimiters finishes the tokenising |
| `HeaderParser.TokeniseToken` | main.c:176-203 | a call returning a token keeps the buffer tokenised up to the resume point, with the token intact |
| `HeaderParser.TokenOfScan` | main.c:176-203 | the token returned is the first token of the unscanned text |
| `HeaderParser.TokeniseStep` | main.c:176-203 | each strtok_r call returns the next element of `Tokens`, or NULL once all are returned |
| `HeaderParser.Unscanned` | main.c:203 | the part not yet scanned is still the rest of the original string |
| `HeaderParser.TokenisedAll` | main.c:176-204 | once the tokenising is done, the buffer is the marked string followed by the untouched bytes after it |
| `HeaderParser.StrNCat` | main.c:199 | strncat appends at most `n` characters and a NUL, and changes nothing past that |
| `HeaderParser.RowMarkupNulFree` | main.c:198 | a row built from NUL-free fields has no NUL, so strncat copies all of it that fits |
| `HeaderParser.RowsSnoc` | main.c:196-200 | one more header line adds its row text after the rows so far |
| `HeaderParser.RowOfLine` | main.c:186-198 | the row built from the key, the value and snprintf is the line's row |
| `HeaderParser.HtmlStateNoRow` | main.c:187 | a line without a colon leaves headers_html as it was |
| `HeaderParser.HtmlStateRow` | main.c:196-199 | appending a line's row keeps headers_html equal to the cut rows so far |
| `HeaderParser.AppendBounded` | main.c:199 | bounded strncat keeps the buffer's string equal to everything appended so far, cut to `max_size - 1` |
| `HeaderParser.AppendRow` | main.c:185-200 | the loop body for a later line keeps headers_html equal to the cut rows of all header lines so far |
| `HeaderParser.NextHeaderLine` | main.c:178-183 | every token after the first is a header line, and its key and value fit |
| `HeaderParser.ProcessLine` | main.c:178-200 | one loop pass: the first line is skipped, and every later line has its row appended |
| `HeaderParser.NextLine` | main.c:176-203 | the next strtok_r call moves the scan forward and yields the next token |
| `HeaderParser.ParseHeaders` | main.c:165-205 | afterwards recvbuf is its string with each token-ending delimiter turned into NUL; headers_html holds the rows of all header lines, in order, cut to `max_size - 1`; nothing at or past `max_size` is written |
| `Server.NoLineEndWithoutDelims` | main.c:144 | a stretch without line breaks has no `"\r\n"` |
| `Server.NoLineEndAfterMarkerInFirstLine` | main.c:144-147 | a `"Host: "` in the first line has no `"\r\n"` after it inside that line |
| `Server.IntendedImage` | main.c:257-262 | the image the request's Host header asks for: that of its host name, or the container image when it names none |
| `Server.ParsedRequestHasNoHost` | main.c:257-260 | once parse_headers has run, getHostFromHeaders finds no host in recvbuf |
| `Server.HandleRequestAsWritten` | main.c:257-262 | main's order (parse_headers, then getHostFromHeaders, then determineImageURL) always chooses the container image; recvbuf ends tokenised, headers_html holds the cut rows, and the static host buffer is never written |
| `Server.HandleRequest` | main.c:257-262 | looking the host up before parse_headers runs chooses the image the Host header asks for; the host buffer then holds that host name as its C string, or is untouched when there is none; recvbuf and headers_html end as in main's order |
| `Server.HostHeaderLostExample` | main.c:257-262 | a request with `Host: hellofc` is accepted and should get the Firecracker image |
| `Server.ExampleHostMarker` | main.c:135 | in the example, the first `"Host: "` is at index 16 |
| `Server.ExampleLineEnd` | main.c:144 | in the example, the first `"\r\n"` after the marker is 7 characters on |
| `Server.ExampleHostName` | main.c:155 | in the example, the host name is `hellofc` |
| `Server.ExampleHeaderLines` | main.c:176-203 | the example's only header line is its Host line, and it fits the key and value buffers |

## Left out

- Socket setup, `accept`, `read`, `write` and `close`, and every `printf` and `fprintf` call, are not modelled. This is I/O. The receive buffer is a parameter.
- Formatting the reply page with `snprintf` is not modelled. The `images.h` data and the literal image URLs are represented only by the tags of `RuntimeImage`.
- The static `recvbuf` is not modelled across connections. Each request is a fresh buffer that must already hold a NUL (`Terminated`). The single `read` does not terminate the buffer, and a full 2048-byte read leaves no NUL, so the model requires one.
- `parse_headers` does not check its `key` and `value` buffers. Their limits are preconditions (`FieldsFit`): a key shorter than 256, a colon that is not the last character of the line, and a value shorter than 256. The `row` buffer is bounded by snprintf, which the model captures by cutting the row to 511 characters. The three buffers themselves are values, not arrays.
- `find_substring` calls `strlen(needle)` before its NULL check. A NULL needle is not modelled: every caller passes a string literal.
- `headers_html` bytes after the terminator and before index `max_size` are not described. `ParseHeaders` states the C string and that nothing from `max_size` on changes.
- `HostHeader.GetHostFromHeaders` is split into `LocateHost` (the two searches and the length check) and `CopyTerminated` (strncpy and the terminator). Together they do what the one C function does.

## Findings

| source | as written | input that shows it | evidently intended | confidence | as-written member | corrected member |
|---|---|---|---|---|---|---|
| main.c:257-262 | `parse_headers` tokenises `recvbuf` in place before `getHostFromHeaders(recvbuf)` reads it. The NUL written over the first line break cuts the C string at the end of the request line, so no host is ever found and every request gets the container image | `GET / HTTP/1.1\r\nHost: hellofc\r\n\r\n` followed by a NUL: the Firecracker image is intended, but the container image is served | look the host up before the buffer is tokenised, so the Host header decides the image | not executed | `Server.HandleRequestAsWritten` (always `Container`), with `Server.HostHeaderLostExample` | `Server.HandleRequest` |

# The form engine and the device registry, verified

This project models the two parts of the repository in which state is hard to follow, and proves
what they keep.

**The CGI form engine, `cgisrc/cgic.c`.** A submission arrives as bytes on standard input and a few
environment variables, and leaves as a linked list of form entries. Between the two stand a put-back
stream on a 1024-byte ring (`Streams`), a search for the multipart boundary that un-reads false
matches (`BoundarySearch`, `BoundaryReader`), a reader of header lines (`HeaderLines`), a reader of
header parameters (`HeaderParams`), the multipart driver (`Multipart`, `MultipartReader`; what bodies
mean in `MultipartParts` and `MultipartRoundTrip`), the URL-encoded parser (`UrlEncoded`), and `main`, which cuts the boundary out of the content type and
chooses a parser (`ContentType`, `Submission`). The accessors (`FormText`, `FormArrays`,
`FormChoices`, `Cookies`) and the saved environment (`Environment`, `EnvironmentFiles`) work on the
result.

**The device registry, `src/server.c`.** A singly linked list with a dummy head (`Registry`), its
history over whole runs of inserts and deletes (`RegistryRuns`), the heartbeat sweep that deletes
while it walks (`RegistrySweep`), and the threads that share the list under the semaphore `linksem`
(`RegistryLock`, `RegistryLoss`).

How it is built: every C function with loops or state is a method on arrays, classes and heap lists,
proved equal to a function on values (`SearchFor`, `ReadLine`, `Params`, `ParseBody`, `FormPairs`,
`Normal`, `DecodeEnv`, `After`, ...). Where that function is still a machine that follows the code,
as in the multipart parser, a second and plainer one (`FlatBody`: first occurrences in a text, no
stream) is proved equal to it. The round trips and the other laws are lemmas about those functions.

## What turned out to be the case

* **Put-back.** `mpPutBack` adds at the far end of a queue, so it un-reads only in front of an empty
  queue (or where the order cannot matter: `UnreadIffCommutes`). Behind the opening delimiter the
  queue is always empty in time, because a boundary without white space leaves carriage return as the
  first byte of the delimiter only; every search then finds the first delimiter, on every input.
* **The opening search.** It has no carriage return in front and can go wrong behind a preamble. It
  takes exactly the text ahead of the first delimiter on every input if and only if the boundary
  consists of dashes but for at most its last byte (`OpeningExactIff`). For every boundary whose
  first byte that is no dash is followed by another one that is no dash there is a preamble behind
  which the delimiter is not found at all (`OpeningMissesDelimiter`; `--a--ab` for the boundary `ab`),
  so that the whole submission counts as empty. Without a preamble the search is right.
* **Ring capacity.** The comment on `mpStream` allows `sizeof(putback)` pending bytes; the code holds
  one less, since a full ring reads as empty (`FullRingReadsEmpty`). The parser never comes near it.
* **Header lines.** `readHeaderLine` drops every colon behind the name, and with it all white space
  that follows, line ends included. So `filename="C: a.txt"` is read as `Ca.txt`, and a file called `:`
  becomes a text field. The round trip says what every name comes back as; it comes back unchanged
  exactly if it has no colon (`DropColonsIff`, `UnchangedIff`). A field whose name has a colon therefore
  differs between the two encodings of a form, as does one whose value has a NUL (`SameFormEitherWay`).
* **Content type.** The boundary is taken up to the next white space. In `boundary=abc; charset=x` the
  semicolon is part of it, and the parser looks for the wrong delimiter (`BoundaryUnchangedIff`).
* **Negative lengths.** With a negative `CONTENT_LENGTH` a multipart post makes `mpRead` pass a negative
  number to `fread` as a size, with a buffer of one byte; a URL-encoded post is refused, since no such
  memory is to be had, and the other requests do not look at the length (`OverrunIff`).
  `cgiReadString` does the same with a stored length of -1: it allocates no byte at all and reads the
  rest of the file into it before it fails.
* **URL-encoded text.** A field with an empty name ends the parse; the fields behind it are lost.
* **Cookies.** `cgiCookies` reserves one slot for each equals sign. The array it returns has no null
  at its end exactly if the header consists of well-formed cookies followed by a bare name
  (`TerminatedUnlessBareName`).
* **Saved environment.** `cgiWriteEnvironment` opens uploads by name, and so saves the upload of the
  first entry of a name for every entry of it; it writes values as C strings. A form comes back if no
  upload shares its name with another entry and no value contains a NUL (`UniqueUploadsComeBack`); text
  fields may share names. In general the first entry that does not find its own upload, or has a NUL in
  its value, decides (`RoundTripIff`). If it is a field that finds an upload, an upload that finds a
  field, another upload of the same length, or a NUL, the form does not come back. If it is an upload of
  another length, it depends on the bytes, since the reader goes out of step; `SecondUploadByChance` is a
  form that comes back that way. `cgiReadEnvironment` takes an unreadable attribute for the end of the
  list.
* **Registry.** `delete_link` removes the newest device with a descriptor. `handl_thread` closes the
  descriptor before it deletes the device, so a newcomer that is given the same descriptor in between
  is the one deleted (`ReusedDescriptorEvictsNewcomer`; exactly when: `DeleteTakesIff`).
* **Lock.** `handl_thread` waits on `linksem` a second time, while holding it, if its device is gone.
  From then on nobody gets the semaphore. As long as no two connections ever have the same descriptor this
  does not happen in any run, since the sweep calls `pthread_cancel` before it deletes
  (`DistinctDescriptorsKeepSemaphore`). With a reused descriptor it does: a run of 24 steps leads there
  from the start, and the thread that loses the semaphore is not one that was to be cancelled
  (`ReusedDescriptorLosesSemaphore`).

## Model

| member | source | states |
|---|---|---|
| Bytes.EqNcIff | cgisrc/cgic.c:2288-2309 | Two texts count as equal if and only if they have the same length and each byte is the same, or an upper case letter and the same letter in lower case |
| Bytes.BeginsNcIff | cgisrc/cgic.c:2311-2329 | One text counts as the beginning of another if and only if that is so of its bytes |
| Bytes.CharacterClasses | cgisrc/cgic.c:834-871 | White space, letters and digits, character by character |
| Streams.UnreadIffCommutes | cgisrc/cgic.c:395-403 | A put-back restores the stream exactly when the queue is empty or the order cannot matter: the ring is a FIFO |
| Streams.PushPending | cgisrc/cgic.c:398-402 | Storing a byte at the write position appends it to the pending bytes, also where the index wraps |
| Streams.FullRingReadsEmpty | cgisrc/cgic.c:334-346 | One more pending byte reads as an empty ring exactly if 1023 are pending already |
| Streams.MpStream.Read | cgisrc/cgic.c:353-393 | Returns the longest available prefix of pending bytes and then input, touches no other byte of the buffer, and moves the offset by as much; `Valid` keeps offset plus pending equal to the bytes taken, within a content length that is not negative |
| Streams.MpStream.Unread | cgisrc/cgic.c:395-403 | The bytes go to the end of the queue, the offset goes back, nothing else changes |
| BoundarySearch.RunConserves | cgisrc/cgic.c:730-763 | Body, delimiter and remaining stream have together as many bytes as before, on every input and in both modes |
| BoundarySearch.SearchShrinks | cgisrc/cgic.c:730-763 | A search that succeeds uses up at least its delimiter, which is why the parse of the parts ends |
| BoundarySearch.SettledRunIsExact | cgisrc/cgic.c:746-757 | Put-back discipline: with a pattern that has carriage return at its start only, and no line end queued but as the last byte, every put-back of the search finds the queue empty |
| BoundarySearch.DelimiterStartsOnlyAtCr | cgisrc/cgic.c:175-182 | A boundary without white space, as main cuts it, gives such a pattern |
| BoundarySearch.ExactSearchFindsFirst | cgisrc/cgic.c:730-776 | If every put-back is a true un-read, the search is first occurrence: body, place and rest are those of the first delimiter with two bytes behind it |
| BoundarySearch.SearchFindsFirst | cgisrc/cgic.c:722-776 | For first == 0: success if and only if some delimiter has two bytes behind it; body the bytes ahead of the first one; then behind two more bytes, or right behind the delimiter in front of a dash |
| BoundarySearch.OpeningFindsFirst | cgisrc/cgic.c:724-776 | For first != 0: the same behind every preamble in which the pattern's dashes are not followed by its next byte |
| BoundarySearch.NoPreambleIsClean | cgisrc/cgic.c:460-466 | A body that starts with the delimiter has such a preamble |
| BoundarySearch.OpeningMissesDelimiter | cgisrc/cgic.c:746-757 | A family of inputs, for nearly every boundary, on which the opening search does not find the delimiter that is there |
| BoundarySearch.OpeningExactIff | cgisrc/cgic.c:724-763 | The opening search is exact on every input if and only if nothing follows the dashes and the first other byte of the pattern |
| BoundarySearch.SearchQueue | cgisrc/cgic.c:746-757 | The queue a search leaves: at most two bytes, or what is left of a longer old queue |
| BoundaryReader.AfterNextBoundary | cgisrc/cgic.c:701-813 | In both modes and on every stream the code returns what the search machine returns, to memory, file or nowhere, and the pending bytes stay within boundary length plus three |
| BoundaryReader.Output.Grow | cgisrc/cgic.c:677-689 | The buffer doubles when only the place of the terminator is left, and keeps its contents |
| BoundaryReader.ScanBody | cgisrc/cgic.c:730-763 | The loop follows the machine step by step; it decreases the pair (unread bytes plus matched, pattern left) |
| HeaderLines.ReadLineShrinks | cgisrc/cgic.c:924-983 | Every accepted header line advances the stream |
| HeaderLines.ReadLineIsFlat | cgisrc/cgic.c:924-983 | With at most two bytes pending a header line is read as from a plain text: the two put-backs in it are true un-reads |
| HeaderLines.ScanRendered | cgisrc/cgic.c:924-983 | The line `name: value` CR LF gives back the name, and the value without its colons and the white space behind each, up to 1023 bytes |
| HeaderLines.ScanAnyLine | cgisrc/cgic.c:934-970 | Any line with a colon: the name without its white space, the value without its colons, both cut to their buffers; the line ends at CR LF, at LF, or at a CR that no LF follows |
| HeaderLines.ColonSwallows | cgisrc/cgic.c:952-959 | A colon behind a name is dropped with all white space that follows, line ends included |
| HeaderLines.NoColonEnds | cgisrc/cgic.c:971-982 | A line without a colon ends the headers |
| HeaderLines.OpenLineEnds | cgisrc/cgic.c:934-940 | So does the end of the input in the middle of a line |
| HeaderLines.DropColonsIff | cgisrc/cgic.c:952-959 | A value is left as it is if and only if it has no colon |
| HeaderLines.DropColonsConcat | cgisrc/cgic.c:952-959 | What a colon takes with it ends at the first byte that is no white space, so a quoted value is shortened between its quotes |
| HeaderLines.ReadHeaderLine | cgisrc/cgic.c:924-983 | The code fills its two buffers with what the line machine reads, each cut to 1023 bytes |
| HeaderParams.ReadRendered | cgisrc/cgic.c:815-922 | A rendered value gives back its main value and exactly its parameters, in order |
| HeaderParams.ReadAllWritten | cgisrc/cgic.c:858-921 | Parameters come back as what they mean, in order, however they are written: any white space around name and equals sign, values in quotes or not, anything but a semicolon behind a closing quote, names cut to 1023 bytes |
| HeaderParams.ReadMain | cgisrc/cgic.c:833-853 | The main value behind any white space, in quotes or not |
| HeaderParams.OpenQuote | cgisrc/cgic.c:896-906 | A quote that is not closed takes everything up to the end |
| HeaderParams.MalformedEnds | cgisrc/cgic.c:876-879 | A parameter without an equals sign ends the list |
| HeaderParams.LastValueIsLast | cgisrc/cgic.c:885-895 | A parameter named several times, in any case, has the value of its last occurrence |
| HeaderParams.WrittenAnswer | cgisrc/cgic.c:815-922 | On a header value, however it is written, a request is answered with the last parameter of that name in any case, or with nothing if there is none |
| HeaderParams.DecomposeValue | cgisrc/cgic.c:815-922 | On every value and for every list of requested names: the main value, and for each name the last value of it in any case, or the empty text, each cut to its buffer; of names equal but for case only the first is served |
| HeaderParams.CopyToken | cgisrc/cgic.c:836-852 | A token, quoted or not, is copied up to its end and cut to the buffer |
| Multipart.HeadersAreFlat | cgisrc/cgic.c:494-520 | The header lines of a part are those of the plain text |
| Multipart.PartsAreFlat | cgisrc/cgic.c:468-606 | From one part on, every put-back of the driver, the header reader and the search is a true un-read: the machine with its queue and the grammar without one give the same entries and the same rest |
| Multipart.ParseBodyIsFlat | cgisrc/cgic.c:447-606 | The same for the whole body, behind every clean preamble |
| Multipart.ReadHeadersShrinks | cgisrc/cgic.c:494-495 | Reading headers never adds to the stream |
| MultipartParts.DelimiterIsFirst | cgisrc/cgic.c:546 | Behind a body without a delimiter the first delimiter is the one that was added, since the two cannot overlap |
| MultipartParts.HeadersAreRead | cgisrc/cgic.c:494-520 | Header lines are read one after the other up to the blank line |
| MultipartParts.OtherHeaderIgnored | cgisrc/cgic.c:500-520 | A header of any other name changes nothing |
| MultipartParts.DispositionCounts | cgisrc/cgic.c:502-513 | The last Content-Disposition, in any case and wherever it stands among the headers, gives disposition, name and file name |
| MultipartParts.TypeCounts | cgisrc/cgic.c:514-519 | The last Content-Type, in any case and wherever it stands, gives the content type |
| MultipartParts.AnyParts | cgisrc/cgic.c:468-606 | Parts with any headers in any order: each form-data part gives one entry, written out field by field, an upload if it has a file name; other parts give none; in order, ahead of what follows the last delimiter |
| MultipartParts.ClosedBody | cgisrc/cgic.c:447-606 | A body closed with dashes is parsed to exactly these entries, and nothing behind it is read |
| MultipartParts.CrudeEnd | cgisrc/cgic.c:483-488 | A body that ends less than two bytes behind the line end of a delimiter counts as closed |
| MultipartParts.OpenBody | cgisrc/cgic.c:546-557 | A body whose last part no delimiter follows is an error |
| MultipartParts.NoOpening | cgisrc/cgic.c:460-463 | A body in which not even the beginning of the delimiter occurs is an empty submission |
| MultipartRoundTrip.HeadersOfPart | cgisrc/cgic.c:494-520 | The rendered headers of a part are read as its name and file name without their colons, and its content type without parameters |
| MultipartRoundTrip.RoundTrip | cgisrc/cgic.c:447-606 | A form encoded as multipart/form-data, with any epilogue and any bytes in its bodies but the delimiter, comes back entry by entry, in order, with exact bodies and lengths; names and file names without their colons, content types without parameters |
| MultipartRoundTrip.EntryFields | cgisrc/cgic.c:558-605 | Field by field: the k-th entry has the name, file name and body of the k-th part, as value of a text field or as upload of a file, and its exact length |
| MultipartRoundTrip.UnchangedIff | cgisrc/cgic.c:447-606 | It comes back exactly as it was sent if and only if no name, file name or content type has a colon and no content type has parameters or starts with a quote |
| MultipartReader.PartBuffers.Store | cgisrc/cgic.c:500-519 | What a header line does to the four buffers of a part |
| MultipartReader.ReadPart | cgisrc/cgic.c:494-605 | One part: its entry is appended if it is form data, upload or text as its file name says, and nothing else changes |
| MultipartReader.ReadParts | cgisrc/cgic.c:468-606 | The loop over the parts; it ends on every stream, since each part uses up its delimiter |
| MultipartReader.ParsePostMultipart | cgisrc/cgic.c:447-606 | On every input and for every boundary main can cut, the list holds the entries of the machine, and the ring stays within its capacity |
| FormEntries.Form.FindNext | cgisrc/cgic.c:2339-2348 | Returns the next entry of the name behind the cursor and moves the cursor behind it |
| FormEntries.Form.FindFirst | cgisrc/cgic.c:2333-2337 | Starts the search; what it and later calls return are all entries of that name in list order |
| FormEntries.MatchesAre | cgisrc/cgic.c:2333-2348 | What the cursor returns are the entries at all places where the name stands, in the order of the list |
| ContentType.BoundaryOf | cgisrc/cgic.c:167-187 | Its contract: the boundary has no white space, and is shorter than the content type by more than its key |
| ContentType.BoundaryOfRendered | cgisrc/cgic.c:167-187 | The boundary is found behind any other parameters, with its key in any case behind any white space, and ends at the first white space; the media type is what precedes the first semicolon |
| ContentType.LongestBoundary | cgisrc/cgic.c:61 | The longest boundary the 1024-byte buffer has room for, 1013 bytes, is read whole |
| ContentType.NoBoundaryAmong | cgisrc/cgic.c:167-187 | Without a parameter that begins with the key there is no boundary |
| ContentType.BoundaryUnchangedIff | cgisrc/cgic.c:176-182 | What follows the boundary up to the next white space is taken into it, so it is read as it was sent if and only if nothing or white space follows it |
| ContentType.ExtractBoundary | cgisrc/cgic.c:146-187 | The in-place cutting of the buffer yields media type and boundary of the first 1023 bytes; the boundary has at most 1013 bytes and no white space |
| UrlEncoded.DecodeEncoded | cgisrc/cgic.c:1104-1141 | Every legal spelling of a text, byte by byte literal, plus or escaped in either case, decodes to that text |
| UrlEncoded.FormRoundTrip | cgisrc/cgic.c:1002-1100 | Every legal spelling of a list of fields parses to that list, entry by entry; names and values end at their first NUL |
| UrlEncoded.FieldsBehindAreLost | cgisrc/cgic.c:1026-1028 | What follows a field without a name is lost, and an ampersand at the end changes nothing |
| UrlEncoded.EscapeTakesTwo | cgisrc/cgic.c:1118-1135 | An escape takes any two bytes as digits, and is dropped where there are not two |
| UrlEncoded.HexValueIs | cgisrc/cgic.c:1143-1170 | Digits have their values in either case, and every other byte counts as zero |
| UrlEncoded.SetupConstants | cgisrc/cgic.c:1143-1170 | The table holds the value of every digit, and zero elsewhere |
| UrlEncoded.UnescapeChars | cgisrc/cgic.c:1104-1141 | The three-state decoder writes the decoded text and a terminator, within length plus one bytes |
| UrlEncoded.ParseFormInput | cgisrc/cgic.c:1002-1100 | On every input: segments between ampersands up to the first with an empty name, split at their first equals sign, both halves decoded, in order |
| Submission.ReadRequest | cgisrc/cgic.c:126-302 | Every request, but a multipart post of negative length, gets the reply of the specification: by method and media type in any case, with the boundary that was cut out, or the status 500 |
| Submission.OverrunIff | cgisrc/cgic.c:353-375 | A request makes mpRead pass a negative size on if and only if it is a multipart post of negative length |
| Submission.ServedUploadLengths | cgisrc/cgic.c:582 | In every form that is served the value length of an upload is its length |
| Submission.ParsePostFormInput | cgisrc/cgic.c:311-328 | A short input is refused, and otherwise the declared length is parsed |
| Submission.PartsAreServed | cgisrc/cgic.c:224-270 | End to end: a multipart request, with method, media type and boundary key in any case, other parameters ahead of the boundary and any behind white space, is served the entries of its parts |
| Submission.AnyPartsAreServed | cgisrc/cgic.c:224-270 | The same of parts with any headers, form data or not |
| Submission.BrowserPostIsServed | cgisrc/cgic.c:224-270 | POST with `multipart/form-data; boundary=` and a boundary, letter by letter |
| Submission.BrowserQueryIsServed | cgisrc/cgic.c:273-289 | GET with a query, letter by letter |
| Submission.OpenBodyRefused | cgisrc/cgic.c:257-268 | A multipart post whose last part is not followed by a delimiter is refused |
| Submission.ShortPostRefused | cgisrc/cgic.c:311-324 | A URL-encoded post with less input than its length says is refused |
| Submission.NoFormSent | cgisrc/cgic.c:224-292 | Any other method, and a post of any other media type, is served an empty form |
| Submission.FieldsAreServed | cgisrc/cgic.c:224-289 | End to end: a query, or a post with the URL-encoded media type in any case and with any parameters, is served exactly its fields, in any spelling |
| Submission.SameFormEitherWay | cgisrc/cgic.c:224-289 | A form gives the same list of entries in a query or URL-encoded post as in a multipart post if and only if no field name has a colon and no value a NUL |
| FormText.NormalShrinks | cgisrc/cgic.c:1470-1529 | Normalising never lengthens a text and leaves no carriage return |
| FormText.BurstBecomes | cgisrc/cgic.c:1478-1513 | A burst of c carriage returns and l line feeds in any order becomes as many line feeds as the larger number, or nothing if newlines are not wanted |
| FormText.BlankLineStays | cgisrc/cgic.c:1478-1513 | A CR LF with another LF behind it stays two line ends |
| FormText.NormalIdempotent | cgisrc/cgic.c:1470-1529 | A normal text is its own normal form |
| FormText.StompedHasNoNewline | cgisrc/cgic.c:1490-1513 | Without newlines none is left, and normalising first makes no difference |
| FormText.SpellingDoesNotMatter | cgisrc/cgic.c:1478-1513 | The LF, CR and CR LF spellings of one text have the same normal form |
| FormText.LfTextIsNormal | cgisrc/cgic.c:1478-1513 | A text without carriage returns is normal, so with the lemma above all three spellings give the LF text |
| FormText.EntryString | cgisrc/cgic.c:1460-1538 | The buffer gets as much of the normal form as max has room for, none if max is below 2; Truncated if and only if it is longer, Empty if and only if it is empty |
| FormArrays.FormString | cgisrc/cgic.c:1223-1232 | The first entry of the name, normalised and cut; NotFound with an empty text if there is none |
| FormArrays.FormStringSpaceNeeded | cgisrc/cgic.c:1448-1458 | One byte more than the text of the first entry of the name |
| FormArrays.SpaceSuffices | cgisrc/cgic.c:1448-1458 | A buffer of one byte more than the text is never too small |
| FormArrays.FormStringMultiple | cgisrc/cgic.c:1384-1446 | Every entry of the name in list order, each with its line ends normalised and kept and none truncated, in an array with exactly one slot more, which is null |
| FormArrays.ListedText | cgisrc/cgic.c:1427 | A value without carriage returns is listed as it is, line feeds included |
| FormArrays.NamesOccur | cgisrc/cgic.c:2430-2444 | The listed names are exactly the names that occur |
| FormArrays.NamesDiffer | cgisrc/cgic.c:2432-2440 | No name is listed twice |
| FormArrays.NamesInOrder | cgisrc/cgic.c:2455-2482 | They are listed in the order of their first occurrence |
| FormArrays.CountNames | cgisrc/cgic.c:2428-2444 | The counting pass counts the names that are listed |
| FormArrays.ListNames | cgisrc/cgic.c:2425-2484 | The filling pass fills exactly the counted slots and leaves the last one null |
| FormChoices.PickedIff | cgisrc/cgic.c:1674-1682 | A choice is marked if and only if some entry has its text and no earlier choice has |
| FormChoices.AllStrangersIff | cgisrc/cgic.c:1683-1695 | All entries are invalid if and only if none of them names a choice |
| FormChoices.StrangersAre | cgisrc/cgic.c:1674-1685 | The number of invalid entries is the number of entries that name no choice |
| FormChoices.SelectMultiple | cgisrc/cgic.c:1658-1696 | Marks exactly the picked choices, counts the entries that name none, and succeeds if and only if some entry names one |
| FormChoices.SelectSingle | cgisrc/cgic.c:1622-1656 | The first entry of the name decides: its first matching choice, or the default with NotFound or NoSuchChoice |
| Cookies.LookUpRendered | cgisrc/cgic.c:1727-1799 | On a rendered header lookup finds the first cookie of a name, and only if there is one |
| Cookies.NamesOfRendered | cgisrc/cgic.c:2368-2423 | On a rendered header exactly the names are listed, in order, and the list is terminated |
| Cookies.ListedIsFound | cgisrc/cgic.c:1727-1799 | With distinct names every listed cookie is found with its own value |
| Cookies.FoundPiece | cgisrc/cgic.c:1741-1769 | On any header: a piece that is the name, an equals sign and text gives the text up to the next semicolon |
| Cookies.PassedPiece | cgisrc/cgic.c:1772-1792 | Any other piece is passed over, with the white space behind its semicolon |
| Cookies.LastPiece | cgisrc/cgic.c:1778-1786 | At the last piece, if it is not the name asked for, nothing is found |
| Cookies.BareNameAtEnd | cgisrc/cgic.c:1741-1745 | A header that ends in the bare name is malformed |
| Cookies.ListedPiece | cgisrc/cgic.c:2389-2412 | On any header: what precedes an equals sign is listed unless it is empty, and its value is passed over up to the next semicolon |
| Cookies.ListedRest | cgisrc/cgic.c:2393-2407 | Text at the end without an equals sign is listed as well |
| Cookies.TerminatedUnlessBareName | cgisrc/cgic.c:2375-2413 | There are never more names than slots with the last one; the null is overwritten if and only if the header ends in a bare name behind well-formed cookies |
| Cookies.BareHeaderIsNotTerminated | cgisrc/cgic.c:2375-2413 | The header `abc` is such a header |
| Cookies.CookieString | cgisrc/cgic.c:1727-1799 | On every header and buffer: the value that lookup finds, cut to the buffer; Truncated if and only if it is longer; NotFound otherwise, with the buffer emptied unless the header ends in just that name |
| Cookies.ListCookies | cgisrc/cgic.c:2368-2423 | On every header the array holds the listed names from its front on, and null in the slots that are left, of which there may be none |
| Environment.SavedComesBack | cgisrc/cgic.c:1900-2286 | The strings and the content length always come back, and with them the entries as they are read from what was written for them |
| Environment.EntryComesBack | cgisrc/cgic.c:2139-2226 | Where an entry was written with any upload, all its fields are read, the value up to its first NUL, and as much upload as its value length says |
| Environment.RawEntryRead | cgisrc/cgic.c:2139-2226 | Any entry, whoever wrote it: no upload without a flag; with any other flag as many of the following bytes as the length says, none if it is not positive, and an I/O error if there are not so many |
| Environment.OtherVersionRefused | cgisrc/cgic.c:2065-2071 | A file of any other version is refused, whatever follows |
| Environment.HeadCut | cgisrc/cgic.c:2065-2138 | A file cut off anywhere ahead of its entries is an I/O error |
| Environment.FileCut | cgisrc/cgic.c:2139-2226 | A file cut off in an entry: within its name, the form ends ahead of it without an error; within its other fields, a memory error; within its upload, an I/O error |
| Environment.RoundTripIff | cgisrc/cgic.c:1900-2286 | For every form: it comes back if and only if each entry finds its own upload and has no NUL in its value, or the first that does not is an upload that finds one of another length and the bytes that follow are read as the same entries |
| Environment.KeptIff | cgisrc/cgic.c:1900-2286 | Unless the first such entry is an upload that finds one of another length, the form comes back if and only if there is none |
| Environment.UniqueUploadsComeBack | cgisrc/cgic.c:1900-2286 | A form comes back if no upload shares its name with another entry and no value has a NUL |
| Environment.FieldAndUploadLost | cgisrc/cgic.c:1994-2012 | A text field and an upload under one name, in either order: the form does not come back |
| Environment.SecondUploadLost | cgisrc/cgic.c:1994-2012 | Two different uploads of one name and length: the form does not come back |
| Environment.SecondUploadByChance | cgisrc/cgic.c:1994-2012 | Two uploads of one name, the first up to three bytes longer: the form comes back although the second was not written |
| EnvironmentFiles.CopyAll | cgisrc/cgic.c:1994-2008 | The loop over 1024-byte chunks copies an upload completely |
| EnvironmentFiles.CopyExactly | cgisrc/cgic.c:2187-2209 | The loop over 1024-byte chunks takes exactly the stored length, and fails if the file is shorter |
| EnvironmentFiles.WriteEnvironment | cgisrc/cgic.c:1900-2044 | Writes the encoding of strings, content length and entries, and leaves the form as it was |
| EnvironmentFiles.ReadEnvironment | cgisrc/cgic.c:2050-2286 | On every file: the decoded environment replaces the form, or an error leaves the form empty |
| Registry.LinkList.constructor | src/server.c:276-286 | A list without devices |
| Registry.LinkList.Insert | src/server.c:289-306 | The device goes to the front; the nodes behind it stay the same |
| Registry.LinkList.FindLink | src/server.c:309-323 | The descriptor of the first device with that ID, or -1 |
| Registry.LinkList.FindFd | src/server.c:326-337 | 0 if and only if the descriptor is present |
| Registry.LinkList.Delete | src/server.c:340-358 | Removes and frees the first node with that descriptor, if it is not negative, and keeps the order of the rest |
| Registry.LinkList.Destroy | src/server.c:361-375 | Frees every node and the head, none of them twice |
| Registry.WithoutAt | src/server.c:347-354 | Deleting takes out one place and joins what is ahead of it and behind it |
| Registry.OneRemoved | src/server.c:350-353 | The node that is freed is the only one that leaves the list |
| RegistryRuns.StepsAreLive | src/server.c:289-358 | Over every run, a device is in the registry if and only if the deletes of its descriptor never outnumbered the inserts of it that came later |
| RegistryRuns.FindsLatestLive | src/server.c:309-323 | find_link returns the descriptor of the latest insert of that ID that is still live |
| RegistryRuns.FindsNobody | src/server.c:309-323 | and -1 if there is none |
| RegistryRuns.FindsFdIfLive | src/server.c:326-337 | A descriptor is found if and only if an insert of it is live |
| RegistryRuns.ReusedDescriptorEvictsNewcomer | src/server.c:211-219 | Closing before deleting: a newcomer with the same descriptor is deleted, and the dead device stays |
| RegistryRuns.DeleteTakesIff | src/server.c:340-358 | A delete of its descriptor takes a device that is there if and only if no device that came later has that descriptor |
| RegistryRuns.Replay | src/server.c:289-358 | The heap list after any run of inserts and deletes is the sequence of that run |
| RegistrySweep.SweepEnds | src/server.c:377-397 | Whatever is answered, a sweep over n devices ends within n + (n - 1) + ... + 1 pings |
| RegistrySweep.PingsLeft | src/server.c:377-397 | The measure behind it: every ping uses up one of those that are left, also across a restart |
| RegistrySweep.SurvivorsAnswered | src/server.c:384-394 | At the end every device still registered has answered in the last, uninterrupted pass |
| RegistrySweep.OneGonePerSilence | src/server.c:384-390 | One device leaves for each silence, and none otherwise |
| RegistrySweep.SilentAreGone | src/server.c:384-390 | Where no two devices share a descriptor, exactly the silent ones are gone, and the others keep their order |
| RegistrySweep.ShowList | src/server.c:377-397 | The loop over the nodes, with deletion and restart, ends where the sweep machine ends, and frees exactly the nodes that left |
| RegistryLock.DoKeepsInv | src/server.c:187-218 | Every step of every thread keeps: semaphore and holds make 1, each thread holds from its wait to its post, and what a holder has read of the list is still so |
| RegistryLock.SemaphoreConserved | src/server.c:187-218 | In every run of any number of threads the semaphore and the unposted waits make 1 |
| RegistryLock.UpdatesExclude | src/server.c:187-189 | No two threads are inside an insert or delete together |
| RegistryLock.NoUpdateLost | src/server.c:187-218 | The list is always what the finished inserts and deletes make of it one after the other |
| RegistryLock.LostForGood | src/server.c:197-201 | Once a holder waits again, or was cancelled there, nobody gets the semaphore and the list never changes |
| RegistryLock.FreeAgainIff | src/server.c:197-208 | The semaphore can become free again if and only if that has not happened and is not about to |
| RegistryLoss.DistinctDescriptorsKeepSemaphore | src/server.c:194-208 | While no two connections have the same descriptor, no run loses the semaphore: a thread whose device was swept away is cancelled before it looks for it |
| RegistryLoss.DoInPlace | src/server.c:384-390 | The invariant behind it: a device is in the list from its insert to its delete unless its thread is called to be cancelled, and while the thread looks for it in any case |
| RegistryLoss.NewcomerEvicted | src/server.c:211-219 | A run from the start in which the delete of a device that has gone takes the node of a newcomer with the same descriptor |
| RegistryLoss.ReusedDescriptorLosesSemaphore | src/server.c:194-201 | For any two devices and any descriptor that one has after the other, a run of 24 steps from the start loses the semaphore, in a thread that nobody called to be cancelled |

## Left out

- BoundarySearch.OpeningFindsFirst: one direction only; for a single input with a preamble that is not clean the search may still be right, and what decides is the order in which the queue was filled. OpeningExactIff says for which boundaries it is right on all inputs.
- BoundarySearch.OpeningMissesDelimiter: does not cover boundaries in which a dash follows the first other byte; some of them are found in the wrong place instead, and some only have their discarded preamble reordered.
- BoundaryReader.AfterNextBoundary: the output buffer does not overflow the C type int, and allocation always succeeds.
- Streams.MpStream.Read: the content length is not negative, and a failed read of standard input is its end. What a negative one leads to is stated above and in OverrunIff.
- Environment.RoundTripIff: assumes that the value length of an upload is its length, which ServedUploadLengths proves of every form that was parsed.
- EnvironmentFiles.ReadEnvironment: a stored string length of -1 is a plain failure; that the C code reads the rest of the file past its block before it fails is not part of the state.
- MultipartRoundTrip.RoundTrip: headers that fit the 1023 bytes of their buffers once their colons are dropped, and names without line ends, NUL and quotes.
- RegistrySweep.ShowList: nobody else changes the list meanwhile, and descriptors are not negative. A silent device with a negative descriptor would never be deleted, and the sweep would not end. The cancellation of the device's thread is in RegistryLock only.
- HeaderParams.DecomposeValue: the buffers are different ones.
- Registry.LinkList.Insert: null pointers for the ID, and the length of the ID buffer.
- RegistryLock.DoKeepsInv: find_link in login_thread and the walk of show_list read the list without the lock and are not steps here; the sweep may find any device silent that has a thread. A thread that was called to be cancelled takes no step at a cancellation point but that. Thread identifiers are not reused.
- The allocation failures of every function (cgiParseMemory, cgiFormMemory, cgiEnvironmentMemory), and exit on a failed malloc in the server.
- Temporary files: an upload is the bytes in it, kept in the entry; names, permissions and I/O errors are not modelled.
- Files of the saved environment: writing succeeds, and a file is its bytes. The header strings are one sequence in the order both functions use.
- Bytes are 0 to 255; isspace, isalnum and tolower are those of ASCII.
- Liveness of the server: no claim that a thread is ever scheduled.
- cgiHtmlEscape and cgiValueEscape, numeric accessors, file accessors other than opening, header output: one step per byte, library calls or output only.
- src/client.c, the garden_stuff, login and register programs, and mydev: device calls, sockets, message queues, SQLite and page output.

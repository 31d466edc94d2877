/** cgiParsePostMultipartInput as a machine over the put-back stream, and the plain grammar
    of multipart/form-data bodies (RFC 2046, section 5.1.1; RFC 7578, section 4) it refines. */
module Multipart {
  import opened Bytes
  import opened Streams
  import opened BoundarySearch
  import opened HeaderLines
  import opened HeaderParams
  import opened FormEntries

  const FORM_DATA: cstring := Ascii("form-data")
  const CONTENT_DISPOSITION: cstring := Ascii("Content-Disposition")
  const CONTENT_TYPE: cstring := Ascii("Content-Type")
  const NAME: cstring := Ascii("name")
  const FILENAME: cstring := Ascii("filename")

  /** What the headers of a part said: fvalue, fname, ffileName and fcontentType. */
  datatype PartInfo = PartInfo(disposition: cstring, name: cstring, fileName: cstring, contentType: cstring)

  const NO_INFO: PartInfo := PartInfo([], [], [], [])

  /** The text of a parameter as the 1024-byte buffers hold it. */
  function Parameter(value: cstring, name: cstring): cstring {
    CStr(Cut(LastValue(Params(MainToken(value).rest), name), TEXT_SPACE))
  }

  function MainText(value: cstring): cstring {
    CStr(Cut(MainToken(value).text, TEXT_SPACE))
  }

  function ApplyHeader(h: PartInfo, attr: cstring, value: cstring): PartInfo {
    if EqNc(attr, CONTENT_DISPOSITION) then
      h.(disposition := MainText(value), name := Parameter(value, NAME), fileName := Parameter(value, FILENAME))
    else if EqNc(attr, CONTENT_TYPE) then h.(contentType := MainText(value))
    else h
  }

  /** The entry of a part: an upload if a file name was given, and a text field otherwise. */
  function MakeEntry(h: PartInfo, body: bytes): Entry {
    if h.fileName != [] then Entry(h.name, [], |body|, h.fileName, h.contentType, Some(body))
    else Entry(h.name, body, |body|, [], h.contentType, None)
  }

  datatype ParseResult = ParseSuccess | ParseIO

  // ----- The machine

  datatype HeadersEnd = HeadersEnd(info: PartInfo, s: Stream)

  function ReadHeaders(s: Stream, h: PartInfo): HeadersEnd
    decreases Size(s)
  {
    ReadLineShrinks(s, [], [], false);
    match ReadLine(s, [], [], false)
    case HeaderEnd(s1) => HeadersEnd(h, s1)
    case Header(a, v, s1) => ReadHeaders(s1, ApplyHeader(h, a, v))
  }

  lemma {:induction false} ReadHeadersShrinks(s: Stream, h: PartInfo)
    ensures Size(ReadHeaders(s, h).s) <= Size(s)
    decreases Size(s)
  {
    ReadLineShrinks(s, [], [], false);
    match ReadLine(s, [], [], false)
    case HeaderEnd(_) =>
    case Header(a, v, s1) => ReadHeadersShrinks(s1, ApplyHeader(h, a, v));
  }

  datatype Outcome = Outcome(result: ParseResult, entries: seq<Entry>, s: Stream)

  /** The two bytes in front of a part are looked at and put back. */
  function Peeked(s: Stream): Stream
    requires Size(s) >= 2
  {
    PutBack(Drop(s, 2), Flat(s)[..2])
  }

  predicate EndsParts(t: bytes) {
    |t| < 2 || (t[0] == DASH && t[1] == DASH)
  }

  /** The outer loop. It terminates on every stream: each part consumes its delimiter. */
  function Parts(s: Stream, boundary: cstring): Outcome
    decreases Size(s)
  {
    if EndsParts(Flat(s)) then Outcome(ParseSuccess, [], Drop(s, Available(s, 2)))
    else
      var e := ReadHeaders(Peeked(s), NO_INFO);
      ReadHeadersShrinks(Peeked(s), NO_INFO);
      SearchShrinks(e.s, Pattern(boundary, false));
      match SearchFor(e.s, Pattern(boundary, false))
      case Missing => Outcome(ParseIO, [], Stream([], []))
      case Found(body, s1) =>
        var rest := Parts(s1, boundary);
        if EqNc(e.info.disposition, FORM_DATA) then rest.(entries := [MakeEntry(e.info, body)] + rest.entries)
        else rest
  }

  /** The whole parse. A body without an opening delimiter is an empty submission. */
  function ParseBody(data: bytes, contentLength: nat, boundary: cstring): Outcome {
    var s := Stream([], Cut(data, contentLength));
    if contentLength == 0 then Outcome(ParseSuccess, [], s)
    else
      match SearchFor(s, Pattern(boundary, true))
      case Missing => Outcome(ParseSuccess, [], Stream([], []))
      case Found(_, s1) => Parts(s1, boundary)
  }

  // ----- The grammar

  datatype FlatHeadersEnd = FlatHeadersEnd(info: PartInfo, rest: bytes)

  lemma {:induction false} ScanLineShrinks(t: bytes, attr: bytes, value: bytes, found: bool)
    ensures var r := ScanLine(t, attr, value, found);
      |r.rest| <= |t| && (r.FlatHeader? ==> |r.rest| < |t|)
    decreases |t|
  {
    if t != [] && t[0] != CR && t[0] != LF {
      if t[0] == COLON && attr != [] {
        ScanLineShrinks(t[1..][SpaceRun(t[1..])..], attr, value, true);
      } else if found {
        ScanLineShrinks(t[1..], attr, Cut(value + [t[0]], TEXT_SPACE), true);
      } else if IsSpace(t[0]) {
        ScanLineShrinks(t[1..], attr, value, false);
      } else {
        ScanLineShrinks(t[1..], Cut(attr + [t[0]], TEXT_SPACE), value, false);
      }
    }
  }

  function FlatHeaders(t: bytes, h: PartInfo): (r: FlatHeadersEnd)
    ensures |r.rest| <= |t|
    decreases |t|
  {
    ScanLineShrinks(t, [], [], false);
    match ScanLine(t, [], [], false)
    case FlatEnd(rest) => FlatHeadersEnd(h, rest)
    case FlatHeader(a, v, rest) => FlatHeaders(rest, ApplyHeader(h, a, v))
  }

  /** The first occurrence of a pattern at or behind i. */
  function FirstAt(t: bytes, p: bytes, i: nat): (r: Option<nat>)
    ensures r.None? ==> forall j: nat :: i <= j ==> !OccursAt(t, p, j)
    ensures r.Some? ==> i <= r.value && OccursAt(t, p, r.value)
    ensures r.Some? ==> forall j: nat :: i <= j < r.value ==> !OccursAt(t, p, j)
    decreases |t| - i
  {
    if i + |p| > |t| then None
    else if OccursAt(t, p, i) then Some(i)
    else if i < |t| then FirstAt(t, p, i + 1)
    else None
  }

  datatype FlatOutcome = FlatOutcome(result: ParseResult, entries: seq<Entry>, rest: bytes)

  /** Parts follow each other up to "--" or the end of the text. A part is a block of header
      lines and a body that ends at the first delimiter with two bytes behind it. */
  function FlatParts(t: bytes, boundary: cstring): FlatOutcome
    decreases |t|
  {
    var p := Pattern(boundary, false);
    if EndsParts(t) then FlatOutcome(ParseSuccess, [], if |t| < 2 then [] else t[2..])
    else
      var e := FlatHeaders(t, NO_INFO);
      match FirstAt(e.rest, p, 0)
      case None => FlatOutcome(ParseIO, [], [])
      case Some(i) =>
        if i + |p| + 2 > |e.rest| then FlatOutcome(ParseIO, [], [])
        else
          var rest := FlatParts(TailAfter(e.rest, p, i), boundary);
          if EqNc(e.info.disposition, FORM_DATA) then
            rest.(entries := [MakeEntry(e.info, e.rest[..i])] + rest.entries)
          else rest
  }

  function FlatBody(data: bytes, contentLength: nat, boundary: cstring): FlatOutcome {
    var t, p := Cut(data, contentLength), Pattern(boundary, true);
    if contentLength == 0 then FlatOutcome(ParseSuccess, [], t)
    else
      match FirstAt(t, p, 0)
      case None => FlatOutcome(ParseSuccess, [], [])
      case Some(i) =>
        if i + |p| + 2 > |t| then FlatOutcome(ParseSuccess, [], [])
        else FlatParts(TailAfter(t, p, i), boundary)
  }

  // ----- The machine refines the grammar

  lemma {:induction false} HeadersAreFlat(s: Stream, h: PartInfo)
    requires |s.queue| <= 2
    ensures var e, f := ReadHeaders(s, h), FlatHeaders(Flat(s), h);
      e.info == f.info && Flat(e.s) == f.rest && |e.s.queue| <= 1
    decreases Size(s)
  {
    hide Flat, ApplyHeader, ReadLine, ScanLine;
    ReadLineIsFlat(s, [], [], false);
    ReadLineShrinks(s, [], [], false);
    match ReadLine(s, [], [], false)
    case HeaderEnd(_) =>
    case Header(a, v, s1) => HeadersAreFlat(s1, ApplyHeader(h, a, v));
  }

  /** The two descriptions of a first occurrence agree. */
  lemma FirstOccurrenceIsFirstAt(r: Search, t: bytes, p: bytes)
    requires FirstOccurrence(r, t, p)
    ensures match FirstAt(t, p, 0)
            case None => r.Missing?
            case Some(i) =>
              if i + |p| + 2 > |t| then r.Missing?
              else r.Found? && r.body == t[..i] && Flat(r.s) == TailAfter(t, p, i)
  {
    hide FirstAt, OccursAt, TailAfter;
    match r
    case Missing =>
    case Found(body, _) =>
      assert OccursAt(t, p, |body|);
      assert FirstAt(t, p, 0).Some?;
      assert FirstAt(t, p, 0).value == |body|;
  }

  lemma PeekedIsFlat(s: Stream)
    requires Size(s) >= 2 && |s.queue| <= 2
    ensures Flat(Peeked(s)) == Flat(s) && |Peeked(s).queue| <= 2
  {
    hide Flat;
    var d := Drop(s, 2);
    DropFlat(s, 2);
    assert d.queue == [];
    FlatPutBack(d, Flat(s)[..2]);
  }

  /** Put-back discipline over the whole parse: behind the opening delimiter no part of the
      parser can tell the ring buffer from a plain text. */
  lemma {:induction false} PartsAreFlat(s: Stream, boundary: cstring)
    requires |s.queue| <= 2 && NoSpace(boundary)
    ensures var o, f := Parts(s, boundary), FlatParts(Flat(s), boundary);
      o.result == f.result && o.entries == f.entries && Flat(o.s) == f.rest
    decreases Size(s)
  {
    hide Flat, FirstAt, ReadHeaders, FlatHeaders, SearchFor, Pattern, Peeked, FirstOccurrence, EqNc, TailAfter, Drop;
    if EndsParts(Flat(s)) {
      DropFlat(s, Available(s, 2));
    } else {
      var p := Pattern(boundary, false);
      PeekedIsFlat(s);
      var e := ReadHeaders(Peeked(s), NO_INFO);
      HeadersAreFlat(Peeked(s), NO_INFO);
      ReadHeadersShrinks(Peeked(s), NO_INFO);
      SearchShrinks(e.s, p);
      SearchFindsFirst(e.s, boundary);
      var r := SearchFor(e.s, p);
      FirstOccurrenceIsFirstAt(r, Flat(e.s), p);
      if r.Found? {
        PartsAreFlat(r.s, boundary);
      }
    }
  }

  /** The parser refines the grammar on every body with a clean preamble, so on every body
      that starts with the delimiter. */
  lemma {:induction false} ParseBodyIsFlat(data: bytes, contentLength: nat, boundary: cstring)
    requires NoSpace(boundary)
    requires CleanPreamble(Cut(data, contentLength), Pattern(boundary, true))
    ensures var o, f := ParseBody(data, contentLength, boundary), FlatBody(data, contentLength, boundary);
      o.result == f.result && o.entries == f.entries && Flat(o.s) == f.rest
  {
    hide FirstAt, SearchFor, Pattern, FirstOccurrence, Parts, FlatParts, CleanPreamble, TailAfter;
    var t, p := Cut(data, contentLength), Pattern(boundary, true);
    assert Flat(Stream([], t)) == t;
    OpeningFindsFirst(t, boundary);
    var r := SearchFor(Stream([], t), p);
    FirstOccurrenceIsFirstAt(r, t, p);
    if r.Found? {
      PartsAreFlat(r.s, boundary);
    }
  }
}

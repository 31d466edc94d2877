/** Bodies of multipart/form-data with parts of any kind: any header lines in any order, form data or not. */
module MultipartParts {
  import opened Bytes
  import opened Streams
  import opened BoundarySearch
  import opened HeaderLines
  import opened HeaderParams
  import opened FormEntries
  import opened Multipart

  datatype HeaderText = HeaderText(name: cstring, value: cstring)

  datatype AnyPart = AnyPart(headers: seq<HeaderText>, body: bytes)

  function RenderHeaders(hs: seq<HeaderText>): bytes {
    if hs == [] then [] else RenderLine(hs[0].name, hs[0].value) + RenderHeaders(hs[1..])
  }

  function RenderAny(p: AnyPart): bytes {
    RenderHeaders(p.headers) + (CRLF + p.body)
  }

  /** What stands directly behind a delimiter: parts with a delimiter behind each, and then the tail. */
  function Trail(ps: seq<AnyPart>, boundary: cstring, tail: bytes): bytes {
    if ps == [] then tail
    else CRLF + (RenderAny(ps[0]) + (Pattern(boundary, false) + Trail(ps[1..], boundary, tail)))
  }

  /** A delimiter takes the line end behind it along, but no dashes. */
  function Behind(u: bytes): bytes
    requires |u| >= 2
  {
    if u[0] == DASH then u else u[2..]
  }

  /** A whole body that is closed with dashes. */
  function RenderBody(ps: seq<AnyPart>, boundary: cstring, epilogue: bytes): bytes {
    Pattern(boundary, true) + Trail(ps, boundary, [DASH, DASH] + epilogue)
  }

  predicate GoodHeader(h: HeaderText) {
    && NameBytes(h.name) && 0 < |h.name| <= TEXT_SPACE
    && LineText(h.value) && EndsPlain(h.value) && h.value != [] && !IsSpace(h.value[0])
  }

  predicate GoodHeaders(hs: seq<HeaderText>) {
    forall i :: 0 <= i < |hs| ==> GoodHeader(hs[i])
  }

  /** Header lines that can be read back, and a body free of the delimiter. */
  ghost predicate GoodPart(p: AnyPart, boundary: cstring) {
    && GoodHeaders(p.headers)
    && (p.headers != [] ==> !([DASH, DASH] <= p.headers[0].name))
    && NoneBefore(p.body, Pattern(boundary, false), |p.body|)
  }

  /** The value of a header line as it is read. */
  function ValueRead(h: HeaderText): cstring {
    DropColonsIff(h.value);
    Cut(DropColons(h.value), TEXT_SPACE)
  }

  /** What header lines add to what is known of a part. */
  function ReadAll(hs: seq<HeaderText>, info: PartInfo): PartInfo {
    if hs == [] then info else ReadAll(hs[1..], ApplyHeader(info, hs[0].name, ValueRead(hs[0])))
  }

  /** The entries of a part: one if it is form data, an upload if it has a file name, and none otherwise. */
  function EntriesOfPart(p: AnyPart): seq<Entry> {
    var info := ReadAll(p.headers, NO_INFO);
    if !EqNc(info.disposition, FORM_DATA) then []
    else if info.fileName == [] then
      [Entry(attr := info.name, value := p.body, valueLength := |p.body|, fileName := [],
             contentType := info.contentType, upload := None)]
    else
      [Entry(attr := info.name, value := [], valueLength := |p.body|, fileName := info.fileName,
             contentType := info.contentType, upload := Some(p.body))]
  }

  function AnyEntries(ps: seq<AnyPart>): seq<Entry> {
    if ps == [] then [] else EntriesOfPart(ps[0]) + AnyEntries(ps[1..])
  }

  // ----- Headers

  lemma HeaderNames()
    ensures NameBytes(CONTENT_DISPOSITION) && NameBytes(CONTENT_TYPE)
    ensures |CONTENT_DISPOSITION| == 19 && |CONTENT_TYPE| == 12 && CONTENT_DISPOSITION[0] != DASH
    ensures !EqNc(CONTENT_TYPE, CONTENT_DISPOSITION)
  {
  }

  lemma SameIsEqNc(s: bytes)
    ensures EqNc(s, s)
  {
  }

  lemma BlankLine(t: bytes, h: PartInfo)
    ensures FlatHeaders(CRLF + t, h) == FlatHeadersEnd(h, t)
  {
    ScanCrLf([], [], t, false);
  }

  lemma {:induction false} OneHeader(h: HeaderText, t: bytes, info: PartInfo)
    requires GoodHeader(h)
    ensures FlatHeaders(RenderLine(h.name, h.value) + t, info)
         == FlatHeaders(t, ApplyHeader(info, h.name, ValueRead(h)))
  {
    hide ScanLine, RenderLine, ApplyHeader, DropColons, EndsPlain;
    ScanRendered(h.name, h.value, t);
  }

  /** The header lines of a part are read one after the other, up to the blank line. */
  lemma {:induction false} HeadersAreRead(hs: seq<HeaderText>, info: PartInfo, t: bytes)
    requires GoodHeaders(hs)
    ensures FlatHeaders(RenderHeaders(hs) + (CRLF + t), info) == FlatHeadersEnd(ReadAll(hs, info), t)
    decreases |hs|
  {
    hide FlatHeaders, RenderLine, ApplyHeader, GoodHeader, ValueRead, CRLF;
    if hs == [] {
      BlankLine(t, info);
      assert RenderHeaders(hs) + (CRLF + t) == CRLF + t;
    } else {
      var behind := RenderHeaders(hs[1..]) + (CRLF + t);
      assert RenderHeaders(hs) + (CRLF + t) == RenderLine(hs[0].name, hs[0].value) + behind;
      OneHeader(hs[0], behind, info);
      HeadersAreRead(hs[1..], ApplyHeader(info, hs[0].name, ValueRead(hs[0])), t);
    }
  }

  // ----- What header lines mean

  predicate Named(h: HeaderText, name: cstring) {
    EqNc(h.name, name)
  }

  /** Any other header changes nothing. */
  lemma {:induction false} OtherHeaderIgnored(h: HeaderText, t: bytes, info: PartInfo)
    requires GoodHeader(h) && !Named(h, CONTENT_DISPOSITION) && !Named(h, CONTENT_TYPE)
    ensures FlatHeaders(RenderLine(h.name, h.value) + t, info) == FlatHeaders(t, info)
  {
    hide FlatHeaders, RenderLine, ValueRead, GoodHeader, EqNc;
    OneHeader(h, t, info);
  }

  lemma {:induction false} NoDisposition(hs: seq<HeaderText>, info: PartInfo)
    requires forall i :: 0 <= i < |hs| ==> !Named(hs[i], CONTENT_DISPOSITION)
    ensures var r := ReadAll(hs, info);
      r.disposition == info.disposition && r.name == info.name && r.fileName == info.fileName
    decreases |hs|
  {
    hide EqNc, ValueRead, MainText, Parameter;
    if hs != [] {
      assert !Named(hs[0], CONTENT_DISPOSITION);
      NoDisposition(hs[1..], ApplyHeader(info, hs[0].name, ValueRead(hs[0])));
    }
  }

  lemma {:induction false} NoType(hs: seq<HeaderText>, info: PartInfo)
    requires forall i :: 0 <= i < |hs| ==> !Named(hs[i], CONTENT_TYPE)
    ensures ReadAll(hs, info).contentType == info.contentType
    decreases |hs|
  {
    hide EqNc, ValueRead, MainText, Parameter;
    if hs != [] {
      assert !Named(hs[0], CONTENT_TYPE);
      NoType(hs[1..], ApplyHeader(info, hs[0].name, ValueRead(hs[0])));
    }
  }

  /** Where the last header of a name stands. */
  ghost predicate LastNamed(hs: seq<HeaderText>, name: cstring, i: nat)
    requires i < |hs|
  {
    Named(hs[i], name) && forall j :: i < j < |hs| ==> !Named(hs[j], name)
  }

  /** The last Content-Disposition, in any case and wherever it stands, says what a part is and what it is called. */
  lemma {:induction false} DispositionCounts(hs: seq<HeaderText>, i: nat, info: PartInfo)
    requires i < |hs| && LastNamed(hs, CONTENT_DISPOSITION, i)
    ensures var r, v := ReadAll(hs, info), ValueRead(hs[i]);
      && r.disposition == CStr(Cut(MainToken(v).text, 1023))
      && r.name == CStr(Cut(LastValue(Params(MainToken(v).rest), NAME), 1023))
      && r.fileName == CStr(Cut(LastValue(Params(MainToken(v).rest), FILENAME), 1023))
    decreases |hs|
  {
    hide EqNc, ValueRead, MainToken, Params, LastValue, CStr, CONTENT_DISPOSITION, CONTENT_TYPE, NAME, FILENAME;
    var next := ApplyHeader(info, hs[0].name, ValueRead(hs[0]));
    if i == 0 {
      assert forall j :: 0 <= j < |hs[1..]| ==> !Named(hs[1..][j], CONTENT_DISPOSITION);
      NoDisposition(hs[1..], next);
    } else {
      assert forall j :: i - 1 < j < |hs[1..]| ==> !Named(hs[1..][j], CONTENT_DISPOSITION);
      DispositionCounts(hs[1..], i - 1, next);
    }
  }

  /** And so does the last Content-Type for the type, parameters left aside. */
  lemma {:induction false} TypeCounts(hs: seq<HeaderText>, i: nat, info: PartInfo)
    requires i < |hs| && LastNamed(hs, CONTENT_TYPE, i)
    ensures ReadAll(hs, info).contentType == CStr(Cut(MainToken(ValueRead(hs[i])).text, 1023))
    decreases |hs|
  {
    hide ValueRead, MainToken, CStr;
    var next := ApplyHeader(info, hs[0].name, ValueRead(hs[0]));
    if i == 0 {
      TypeIsNoDisposition(hs[0].name);
      assert forall j :: 0 <= j < |hs[1..]| ==> !Named(hs[1..][j], CONTENT_TYPE);
      NoType(hs[1..], next);
    } else {
      assert forall j :: i - 1 < j < |hs[1..]| ==> !Named(hs[1..][j], CONTENT_TYPE);
      TypeCounts(hs[1..], i - 1, next);
    }
  }

  lemma TypeIsNoDisposition(name: bytes)
    ensures EqNc(name, CONTENT_TYPE) ==> !EqNc(name, CONTENT_DISPOSITION)
  {
    HeaderNames();
    assert EqNc(name, CONTENT_TYPE) ==> |name| == 12;
  }

  // ----- Bodies

  /** The delimiter behind a body is its first occurrence: none can straddle the end of the body. */
  lemma DelimiterIsFirst(body: bytes, p: bytes, t: bytes)
    requires StartsOnlyAtCr(p) && NoneBefore(body, p, |body|)
    ensures OccursAt(body + p + t, p, |body|) && NoneBefore(body + p + t, p, |body|)
  {
    var s := body + p + t;
    assert s[|body|..|body| + |p|] == p;
    forall i: nat | i < |body| ensures !OccursAt(s, p, i) {
      if i + |p| <= |body| {
        assert s[i..i + |p|] == body[i..i + |p|];
        assert !OccursAt(body, p, i);
      } else {
        assert s[i..i + |p|][|body| - i] == s[|body|] == CR;
      }
    }
  }

  lemma FirstDelimiter(body: bytes, boundary: cstring, t: bytes)
    requires NoSpace(boundary) && NoneBefore(body, Pattern(boundary, false), |body|)
    ensures FirstAt(body + Pattern(boundary, false) + t, Pattern(boundary, false), 0) == Some(|body|)
  {
    hide OccursAt;
    var p := Pattern(boundary, false);
    DelimiterStartsOnlyAtCr(boundary);
    DelimiterIsFirst(body, p, t);
    assert FirstAt(body + p + t, p, 0).Some?;
  }

  lemma {:induction false} NoDelimiter(u: bytes, boundary: cstring)
    requires NoneBefore(u, Pattern(boundary, false), |u|)
    ensures FirstAt(u, Pattern(boundary, false), 0) == None
  {
    hide OccursAt;
    var r := FirstAt(u, Pattern(boundary, false), 0);
    if r.Some? {
      assert OccursAt(u, Pattern(boundary, false), r.value);
      OccursWithin(u, Pattern(boundary, false), r.value);
    }
  }

  lemma OccursWithin(u: bytes, p: bytes, i: nat)
    requires OccursAt(u, p, i) && |p| > 0
    ensures i < |u|
  {
  }

  // ----- All parts

  lemma TrailIsLong(ps: seq<AnyPart>, boundary: cstring, tail: bytes)
    requires |tail| >= 2
    ensures |Trail(ps, boundary, tail)| >= 2
  {
  }

  /** Behind its headers a part is its body up to the next delimiter. */
  lemma TailBehindBody(body: bytes, p: bytes, u: bytes)
    requires |u| >= 2
    ensures var s := body + (p + u);
      |body| + |p| + 2 <= |s| && s[..|body|] == body && TailAfter(s, p, |body|) == Behind(u)
  {
    var s := body + (p + u);
    assert s[|body| + |p|..] == u;
    assert s[|body| + |p| + 2..] == u[2..];
  }

  lemma {:induction false} StartsLikeAPart(p: AnyPart, boundary: cstring, t: bytes)
    requires GoodPart(p, boundary)
    ensures !EndsParts(RenderAny(p) + t)
  {
    hide NoneBefore, EndsPlain, LineText;
    if p.headers != [] {
      var h := p.headers[0];
      assert GoodHeader(h);
      var s := RenderAny(p) + t;
      assert s[0] == h.name[0] && s[1] == if |h.name| > 1 then h.name[1] else COLON;
      if |h.name| > 1 && h.name[0] == DASH {
        assert h.name[..2] == [DASH, h.name[1]];
      }
    }
  }

  function Ahead(es: seq<Entry>, o: FlatOutcome): FlatOutcome {
    o.(entries := es + o.entries)
  }

  /** One part with a delimiter behind it: its entries come ahead of what follows. */
  lemma {:induction false} OnePart(p: AnyPart, boundary: cstring, u: bytes)
    requires NoSpace(boundary) && GoodPart(p, boundary) && |u| >= 2
    ensures FlatParts(RenderAny(p) + (Pattern(boundary, false) + u), boundary)
         == Ahead(EntriesOfPart(p), FlatParts(Behind(u), boundary))
  {
    hide FlatHeaders, FirstAt, TailAfter, Pattern, EqNc, FORM_DATA, GoodHeaders, NoneBefore, EndsParts;
    hide RenderHeaders, ReadAll, Behind, CRLF;
    var d := Pattern(boundary, false);
    var t := RenderAny(p) + (d + u);
    StartsLikeAPart(p, boundary, d + u);
    var s := p.body + (d + u);
    assert t == RenderHeaders(p.headers) + (CRLF + s);
    HeadersAreRead(p.headers, NO_INFO, s);
    assert s == p.body + d + u;
    FirstDelimiter(p.body, boundary, u);
    TailBehindBody(p.body, d, u);
    var rest := FlatParts(Behind(u), boundary);
    assert [] + rest.entries == rest.entries;
  }

  /** Parts with a delimiter behind each: their entries come in order, ahead of what follows the last delimiter. */
  lemma {:induction false} AnyParts(ps: seq<AnyPart>, boundary: cstring, tail: bytes)
    requires NoSpace(boundary) && |tail| >= 2 && forall i :: 0 <= i < |ps| ==> GoodPart(ps[i], boundary)
    ensures |Trail(ps, boundary, tail)| >= 2
    ensures FlatParts(Behind(Trail(ps, boundary, tail)), boundary)
         == Ahead(AnyEntries(ps), FlatParts(Behind(tail), boundary))
    decreases |ps|
  {
    hide FlatParts, GoodHeaders, EntriesOfPart, RenderAny, Pattern, NoneBefore;
    var o := FlatParts(Behind(tail), boundary);
    if ps == [] {
      assert [] + o.entries == o.entries;
    } else {
      var u := Trail(ps[1..], boundary, tail);
      AnyParts(ps[1..], boundary, tail);
      OnePart(ps[0], boundary, u);
      assert Trail(ps, boundary, tail)[2..] == RenderAny(ps[0]) + (Pattern(boundary, false) + u);
      assert Trail(ps, boundary, tail)[0] == CR;
      assert EntriesOfPart(ps[0]) + (AnyEntries(ps[1..]) + o.entries) == AnyEntries(ps) + o.entries;
    }
  }

  /** A part that no delimiter ends is an error. */
  lemma {:induction false} OpenPart(p: AnyPart, boundary: cstring)
    requires GoodPart(p, boundary)
    ensures FlatParts(RenderAny(p), boundary) == FlatOutcome(ParseIO, [], [])
  {
    hide FlatHeaders, FirstAt, Pattern, GoodHeaders, NoneBefore, EndsParts, RenderHeaders, ReadAll, CRLF;
    assert RenderAny(p) + [] == RenderAny(p);
    StartsLikeAPart(p, boundary, []);
    HeadersAreRead(p.headers, NO_INFO, p.body);
    NoDelimiter(p.body, boundary);
  }

  // ----- Whole bodies

  lemma OpensWithDelimiter(t: bytes, p: bytes, u: bytes)
    requires t == p + u
    ensures OccursAt(t, p, 0) && FirstAt(t, p, 0) == Some(0)
  {
  }

  /** A body that starts with the delimiter. */
  lemma {:induction false} AnyBody(ps: seq<AnyPart>, boundary: cstring, tail: bytes, data: bytes, contentLength: nat)
    requires NoSpace(boundary) && |tail| >= 2 && forall i :: 0 <= i < |ps| ==> GoodPart(ps[i], boundary)
    requires Cut(data, contentLength) == Pattern(boundary, true) + Trail(ps, boundary, tail)
    ensures var o, f := ParseBody(data, contentLength, boundary), FlatParts(Behind(tail), boundary);
      o.result == f.result && o.entries == AnyEntries(ps) + f.entries && Flat(o.s) == f.rest
  {
    hide Pattern, Trail, ParseBody, FlatParts, CleanPreamble, TailAfter, FirstAt, GoodPart, AnyEntries;
    var t, p, u := Cut(data, contentLength), Pattern(boundary, true), Trail(ps, boundary, tail);
    OpensWithDelimiter(t, p, u);
    NoPreambleIsClean(t, p);
    ParseBodyIsFlat(data, contentLength, boundary);
    AnyParts(ps, boundary, tail);
    TailBehindBody([], p, u);
    assert [] + (p + u) == t;
  }

  /** A body in which not even the beginning of a delimiter occurs is an empty submission. */
  lemma {:induction false} NoOpening(boundary: cstring, data: bytes, contentLength: nat)
    requires NoSpace(boundary)
    requires forall i: nat :: !OccursAt(Cut(data, contentLength), LeadIn(Pattern(boundary, true)), i)
    ensures var o := ParseBody(data, contentLength, boundary); o.result == ParseSuccess && o.entries == []
  {
    hide ParseBody, FlatParts, Pattern, OccursAt, LeadIn;
    var t, p := Cut(data, contentLength), Pattern(boundary, true);
    ParseBodyIsFlat(data, contentLength, boundary);
    var r := FirstAt(t, p, 0);
    if r.Some? {
      LeadInOccurs(t, p, r.value);
    }
  }

  lemma {:induction false} LeadInOccurs(t: bytes, p: bytes, i: nat)
    requires OccursAt(t, p, i)
    ensures OccursAt(t, LeadIn(p), i)
  {
    var k := |LeadIn(p)|;
    assert LeadIn(p) == p[..k];
    SliceOfRest(t, i, |p|);
    SliceOfRest(t, i, k);
    assert t[i..i + |p|][..k] == t[i..i + k];
  }

  /** A closed body is parsed to exactly the entries of its parts, in order, and nothing behind it is read. */
  lemma {:induction false} ClosedBody(ps: seq<AnyPart>, boundary: cstring, epilogue: bytes,
                                      data: bytes, contentLength: nat)
    requires NoSpace(boundary) && forall i :: 0 <= i < |ps| ==> GoodPart(ps[i], boundary)
    requires Cut(data, contentLength) == RenderBody(ps, boundary, epilogue)
    ensures var o := ParseBody(data, contentLength, boundary);
      o.result == ParseSuccess && o.entries == AnyEntries(ps) && Flat(o.s) == epilogue
  {
    hide Pattern, Trail, ParseBody, GoodPart, AnyEntries;
    var tail := [DASH, DASH] + epilogue;
    AnyBody(ps, boundary, tail, data, contentLength);
    assert FlatParts(Behind(tail), boundary) == FlatOutcome(ParseSuccess, [], epilogue) by {
      assert tail[2..] == epilogue;
    }
    assert AnyEntries(ps) + [] == AnyEntries(ps);
  }

  /** A body that ends within two bytes behind the line end of a delimiter counts as closed. */
  lemma {:induction false} CrudeEnd(ps: seq<AnyPart>, boundary: cstring, rest: bytes, data: bytes, contentLength: nat)
    requires NoSpace(boundary) && |rest| < 2 && forall i :: 0 <= i < |ps| ==> GoodPart(ps[i], boundary)
    requires Cut(data, contentLength) == Pattern(boundary, true) + Trail(ps, boundary, CRLF + rest)
    ensures var o := ParseBody(data, contentLength, boundary);
      o.result == ParseSuccess && o.entries == AnyEntries(ps)
  {
    hide Pattern, Trail, ParseBody, GoodPart, AnyEntries;
    AnyBody(ps, boundary, CRLF + rest, data, contentLength);
    assert (CRLF + rest)[2..] == rest;
    assert AnyEntries(ps) + [] == AnyEntries(ps);
  }

  /** A body whose last part is not followed by a delimiter is an error. */
  lemma {:induction false} OpenBody(ps: seq<AnyPart>, last: AnyPart, boundary: cstring, data: bytes, contentLength: nat)
    requires NoSpace(boundary) && GoodPart(last, boundary) && forall i :: 0 <= i < |ps| ==> GoodPart(ps[i], boundary)
    requires Cut(data, contentLength) == Pattern(boundary, true) + Trail(ps, boundary, CRLF + RenderAny(last))
    ensures ParseBody(data, contentLength, boundary).result == ParseIO
  {
    hide Pattern, Trail, ParseBody, FlatParts, GoodPart, RenderAny, AnyEntries;
    var tail := CRLF + RenderAny(last);
    AnyBody(ps, boundary, tail, data, contentLength);
    OpenPart(last, boundary);
    assert tail[2..] == RenderAny(last);
  }
}

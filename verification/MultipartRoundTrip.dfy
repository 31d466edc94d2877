/** What a browser encodes as multipart/form-data comes back as the same form, up to the colons in names. */
module MultipartRoundTrip {
  import opened Bytes
  import opened Streams
  import opened BoundarySearch
  import opened HeaderLines
  import opened HeaderParams
  import opened FormEntries
  import opened Multipart
  import opened MultipartParts

  /** One part of a form; fileName and contentType are empty where they are not sent. */
  datatype Part = Part(name: cstring, fileName: cstring, contentType: cstring, body: bytes)

  function FileParam(fileName: cstring): seq<Param> {
    if fileName == [] then [] else [Param(FILENAME, fileName)]
  }

  function DispositionParams(p: Part): seq<Param> {
    [Param(NAME, p.name)] + FileParam(p.fileName)
  }

  function Disposition(p: Part): cstring {
    ParamsNoNul(DispositionParams(p));
    FORM_DATA + RenderParams(DispositionParams(p))
  }

  lemma {:induction false} ParamsNoNul(qs: seq<Param>)
    requires forall i :: 0 <= i < |qs| ==> NoNul(qs[i].name) && NoNul(qs[i].value)
    ensures NoNul(RenderParams(qs))
  {
    if qs != [] {
      ParamsNoNul(qs[1..]);
      assert NoNul(RenderParam(qs[0]));
    }
  }

  /** The part with its header lines. */
  function Rendered(p: Part): AnyPart {
    AnyPart([HeaderText(CONTENT_DISPOSITION, Disposition(p))] +
              (if p.contentType == [] then [] else [HeaderText(CONTENT_TYPE, p.contentType)]), p.body)
  }

  function RenderedAll(ps: seq<Part>): (r: seq<AnyPart>)
    ensures |r| == |ps| && forall i :: 0 <= i < |ps| ==> r[i] == Rendered(ps[i])
  {
    if ps == [] then [] else [Rendered(ps[0])] + RenderedAll(ps[1..])
  }

  /** Text that can stand between quotes in a line. */
  predicate QuotedText(s: bytes) {
    LineText(s) && forall i :: 0 <= i < |s| ==> s[i] != QUOTE
  }

  /** Text that can stand behind the name of a header, with parameters or without. */
  predicate TypeText(s: bytes) {
    LineText(s) && EndsPlain(s) && |DropColons(s)| <= TEXT_SPACE && (s != [] ==> !IsSpace(s[0]))
  }

  /** The parts a form can be encoded with: short headers, and a body free of the delimiter. */
  ghost predicate Encodable(p: Part, boundary: cstring) {
    && QuotedText(p.name) && QuotedText(p.fileName) && TypeText(p.contentType)
    && |DropColons(Disposition(p))| <= TEXT_SPACE
    && NoneBefore(p.body, Pattern(boundary, false), |p.body|)
  }

  function Dropped(s: cstring): cstring {
    DropColonsIff(s);
    DropColons(s)
  }

  /** A content type loses its parameters as well. */
  function ReadType(contentType: cstring): cstring {
    if contentType == [] then [] else CStr(Cut(MainToken(Dropped(contentType)).text, TEXT_SPACE))
  }

  /** The entry of a part with this name, file name and content type: an upload if it has a file name. */
  function FileOrField(name: cstring, fileName: cstring, contentType: cstring, body: bytes): Entry {
    if fileName == [] then
      Entry(attr := name, value := body, valueLength := |body|, fileName := [], contentType := contentType,
            upload := None)
    else
      Entry(attr := name, value := [], valueLength := |body|, fileName := fileName, contentType := contentType,
            upload := Some(body))
  }

  /** The entry that is made of a part. */
  function PartEntry(p: Part): Entry {
    FileOrField(Dropped(p.name), Dropped(p.fileName), ReadType(p.contentType), p.body)
  }

  function PartEntries(ps: seq<Part>): (r: seq<Entry>)
    ensures |r| == |ps| && forall i :: 0 <= i < |ps| ==> r[i] == PartEntry(ps[i])
  {
    if ps == [] then [] else [PartEntry(ps[0])] + PartEntries(ps[1..])
  }

  /** The entry that should be made of it. */
  function SentEntry(p: Part): Entry {
    FileOrField(p.name, p.fileName, p.contentType, p.body)
  }

  function SentEntries(ps: seq<Part>): (r: seq<Entry>)
    ensures |r| == |ps| && forall i :: 0 <= i < |ps| ==> r[i] == SentEntry(ps[i])
  {
    if ps == [] then [] else [SentEntry(ps[0])] + SentEntries(ps[1..])
  }

  /** Names without colons, and a content type that is nothing but a type. */
  predicate PlainPart(p: Part) {
    && COLON !in p.name && COLON !in p.fileName && COLON !in p.contentType && SEMICOLON !in p.contentType
    && (p.contentType != [] ==> p.contentType[0] != QUOTE)
  }

  // ----- Headers

  lemma ParameterNames()
    ensures LineText(FORM_DATA) && COLON !in FORM_DATA && |FORM_DATA| == 9 && !IsSpace(FORM_DATA[0])
    ensures FORM_DATA[0] != QUOTE && forall i :: 0 <= i < |FORM_DATA| ==> FORM_DATA[i] != SEMICOLON
    ensures LineText(NAME) && LineText(FILENAME) && |NAME| == 4 && |FILENAME| == 8
    ensures COLON !in NAME && COLON !in FILENAME
    ensures forall i :: 0 <= i < |NAME| ==> IsAlnum(NAME[i])
    ensures forall i :: 0 <= i < |FILENAME| ==> IsAlnum(FILENAME[i])
    ensures !EqNc(FILENAME, NAME)
  {
  }

  /** A parameter as it is read: its value without colons. */
  function DroppedParam(q: Param): Param {
    Param(q.name, DropColons(q.value))
  }

  function DroppedParams(qs: seq<Param>): (r: seq<Param>)
    ensures |r| == |qs|
    ensures forall i :: 0 <= i < |qs| ==> r[i] == DroppedParam(qs[i])
  {
    if qs == [] then [] else [DroppedParam(qs[0])] + DroppedParams(qs[1..])
  }

  /** A rendered parameter is a line of text that ends in a quote, and losing its colons makes it the
      rendered parameter with the shorter value. */
  lemma {:induction false} RenderedParam(q: Param)
    requires LineText(q.name) && LineText(q.value) && COLON !in q.name
    ensures LineText(RenderParam(q)) && |RenderParam(q)| > 1 && RenderParam(q)[0] == SEMICOLON
    ensures RenderParam(q)[|RenderParam(q)| - 1] == QUOTE
    ensures DropColons(RenderParam(q)) == RenderParam(DroppedParam(q))
  {
    hide DropColons;
    var head := [SEMICOLON, SPACE] + q.name + [EQUALS, QUOTE];
    assert RenderParam(q) == head + (q.value + [QUOTE]);
    DropColonsIff(head);
    DropQuoted(head, q.value);
  }

  lemma {:induction false} DropQuoted(head: bytes, value: bytes)
    requires head != [] && head[|head| - 1] == QUOTE && COLON !in head
    ensures DropColons(head + (value + [QUOTE])) == head + DropColons(value) + [QUOTE]
  {
    hide DropColons;
    var front := head[..|head| - 1];
    var quoted := [QUOTE] + value + [QUOTE];
    assert head == front + [QUOTE];
    assert head + (value + [QUOTE]) == front + quoted;
    DropColonsConcat(front, quoted);
    DropColonsIff(front);
    DropColonsConcat([QUOTE] + value, [QUOTE]);
    assert DropColons([QUOTE] + value) == [QUOTE] + DropColons(value) by { DropBehindQuote(value); }
    DropColonsIff([QUOTE]);
  }

  lemma DropBehindQuote(value: bytes)
    ensures DropColons([QUOTE] + value) == [QUOTE] + DropColons(value)
  {
    assert ([QUOTE] + value)[1..] == value;
  }

  lemma {:induction false} RenderedParams(qs: seq<Param>)
    requires forall i :: 0 <= i < |qs| ==> LineText(qs[i].name) && LineText(qs[i].value) && COLON !in qs[i].name
    ensures LineText(RenderParams(qs)) && (qs != [] ==> |RenderParams(qs)| > 1 && RenderParams(qs)[0] == SEMICOLON)
    ensures qs != [] ==> RenderParams(qs)[|RenderParams(qs)| - 1] == QUOTE
    ensures DropColons(RenderParams(qs)) == RenderParams(DroppedParams(qs))
  {
    hide RenderParam, DroppedParam;
    if qs != [] {
      RenderedParam(qs[0]);
      RenderedParams(qs[1..]);
      var rest := RenderParams(qs[1..]);
      if qs[1..] == [] {
        assert RenderParam(qs[0]) + rest == RenderParam(qs[0]);
      }
      DropColonsConcat(RenderParam(qs[0]), rest);
    }
  }

  lemma QuoteEndsPlain(v: bytes)
    requires v != [] && v[|v| - 1] == QUOTE
    ensures EndsPlain(v)
  {
    forall i | 0 <= i < |v| && v[i] == COLON ensures SpaceRun(v[i + 1..]) < |v| - i - 1 {
      assert v[i + 1..][|v| - i - 2] == QUOTE;
    }
  }

  /** The Content-Disposition of a part can be a header value, and is read without its colons. */
  lemma {:induction false} DispositionText(p: Part)
    requires QuotedText(p.name) && QuotedText(p.fileName)
    ensures LineText(Disposition(p)) && EndsPlain(Disposition(p)) && NoNul(Disposition(p))
    ensures Disposition(p) != [] && !IsSpace(Disposition(p)[0])
    ensures DropColons(Disposition(p)) == FORM_DATA + RenderParams(DroppedParams(DispositionParams(p)))
  {
    hide FORM_DATA, DropColons, RenderParams, EndsPlain;
    ParameterNames();
    var qs := DispositionParams(p);
    RenderedParams(qs);
    DropColonsConcat(FORM_DATA, RenderParams(qs));
    DropColonsIff(FORM_DATA);
    QuoteEndsPlain(Disposition(p));
  }

  lemma {:induction false} DispositionValues(p: Part)
    requires QuotedText(p.name) && QuotedText(p.fileName)
    ensures var v, qs := DropColons(Disposition(p)), DroppedParams(DispositionParams(p));
      && MainToken(v).text == FORM_DATA && Params(MainToken(v).rest) == qs
      && LastValue(qs, NAME) == DropColons(p.name) && LastValue(qs, FILENAME) == DropColons(p.fileName)
  {
    hide MainToken, Params, RenderParams, DropColons, Disposition;
    ParameterNames();
    DispositionText(p);
    DropKeepsText(p.name, QUOTE);
    DropKeepsText(p.fileName, QUOTE);
    var qs := DroppedParams(DispositionParams(p));
    ReadRendered(FORM_DATA, qs);
    LastValueIsLast(qs, NAME, 0);
    if p.fileName != [] {
      LastValueIsLast(qs, FILENAME, 1);
    } else {
      assert qs == [Param(NAME, DropColons(p.name))];
      LastValueAbsent(qs, FILENAME);
      DropColonsIff([]);
      assert DropColons([]) == [];
    }
  }

  lemma {:induction false} ValuesFit(p: Part, boundary: cstring)
    requires Encodable(p, boundary)
    ensures |DropColons(p.name)| <= TEXT_SPACE && |DropColons(p.fileName)| <= TEXT_SPACE
  {
    hide FORM_DATA, DropColons, EndsPlain;
    ParameterNames();
    DispositionText(p);
    var qs := DroppedParams(DispositionParams(p));
    assert RenderParams(qs) == RenderParam(qs[0]) + RenderParams(qs[1..]);
    if p.fileName != [] {
      assert qs[1..][0] == DroppedParam(Param(FILENAME, p.fileName));
    } else {
      DropColonsIff([]);
    }
  }

  lemma {:induction false} DispositionApplied(p: Part, boundary: cstring)
    requires Encodable(p, boundary)
    ensures NoNul(DropColons(Disposition(p)))
    ensures ApplyHeader(NO_INFO, CONTENT_DISPOSITION, DropColons(Disposition(p)))
         == PartInfo(FORM_DATA, Dropped(p.name), Dropped(p.fileName), [])
  {
    hide MainToken, Params, Disposition, LastValue, FORM_DATA, CStr, EqNc, DropColons, EndsPlain;
    DispositionText(p);
    DispositionValues(p);
    ValuesFit(p, boundary);
    ParameterNames();
    DropColonsIff(Disposition(p));
    CStrWhole(FORM_DATA);
    CStrWhole(Dropped(p.name));
    CStrWhole(Dropped(p.fileName));
    assert EqNc(CONTENT_DISPOSITION, CONTENT_DISPOSITION) by { SameIsEqNc(CONTENT_DISPOSITION); }
  }

  lemma TypeApplied(h: PartInfo, contentType: cstring)
    requires contentType != []
    ensures ApplyHeader(h, CONTENT_TYPE, Dropped(contentType)) == h.(contentType := ReadType(contentType))
  {
    hide EqNc, DropColons, MainToken;
    HeaderNames();
    SameIsEqNc(CONTENT_TYPE);
  }

  lemma {:induction false} RenderedIsGood(p: Part, boundary: cstring)
    requires Encodable(p, boundary)
    ensures GoodPart(Rendered(p), boundary)
  {
    hide Disposition, DropColons, EndsPlain, LineText, NoneBefore, CONTENT_DISPOSITION, CONTENT_TYPE;
    HeaderNames();
    DispositionText(p);
    assert GoodHeader(HeaderText(CONTENT_DISPOSITION, Disposition(p)));
    if p.contentType != [] {
      assert GoodHeader(HeaderText(CONTENT_TYPE, p.contentType));
    }
  }

  /** The headers of a rendered part say what the part says, up to colons and parameters of the type. */
  lemma {:induction false} HeadersOfPart(p: Part, boundary: cstring)
    requires Encodable(p, boundary)
    ensures ReadAll(Rendered(p).headers, NO_INFO)
         == PartInfo(FORM_DATA, Dropped(p.name), Dropped(p.fileName), ReadType(p.contentType))
  {
    hide Disposition, ApplyHeader, FORM_DATA, CONTENT_DISPOSITION, CONTENT_TYPE, DropColons, EndsPlain, NoneBefore;
    DispositionApplied(p, boundary);
    var h := PartInfo(FORM_DATA, Dropped(p.name), Dropped(p.fileName), []);
    var hs := Rendered(p).headers;
    assert ValueRead(hs[0]) == DropColons(Disposition(p));
    if p.contentType != [] {
      assert hs[1..] == [HeaderText(CONTENT_TYPE, p.contentType)] && hs[1..][1..] == [];
      assert ValueRead(hs[1]) == Dropped(p.contentType);
      TypeApplied(h, p.contentType);
      var last := h.(contentType := ReadType(p.contentType));
      assert ReadAll(hs[1..][1..], last) == last;
    } else {
      assert hs[1..] == [];
    }
  }

  lemma {:induction false} EntryOfPart(p: Part, boundary: cstring)
    requires Encodable(p, boundary)
    ensures EntriesOfPart(Rendered(p)) == [PartEntry(p)]
  {
    hide ReadAll, Encodable, EqNc, FORM_DATA, Dropped, ReadType;
    HeadersOfPart(p, boundary);
    SameIsEqNc(FORM_DATA);
  }

  lemma {:induction false} EntriesOfParts(ps: seq<Part>, boundary: cstring)
    requires forall i :: 0 <= i < |ps| ==> Encodable(ps[i], boundary)
    ensures AnyEntries(RenderedAll(ps)) == PartEntries(ps)
  {
    hide Encodable, EntriesOfPart, PartEntry, Rendered;
    if ps != [] {
      EntryOfPart(ps[0], boundary);
      EntriesOfParts(ps[1..], boundary);
    }
  }

  // ----- The round trip

  /** Multipart round trip: whatever parts a form has, parsing its encoding yields one entry for each,
      in order, with its exact body and length; names and file names lose their colons and the white
      space behind them, and content types their parameters. */
  lemma {:induction false} RoundTrip(ps: seq<Part>, boundary: cstring, epilogue: bytes, data: bytes, contentLength: nat)
    requires NoSpace(boundary) && forall i :: 0 <= i < |ps| ==> Encodable(ps[i], boundary)
    requires Cut(data, contentLength) == RenderBody(RenderedAll(ps), boundary, epilogue)
    ensures var o := ParseBody(data, contentLength, boundary);
      o.result == ParseSuccess && o.entries == PartEntries(ps) && Flat(o.s) == epilogue
  {
    hide ParseBody, RenderBody, AnyEntries, PartEntries, Encodable, GoodPart, Rendered;
    forall i | 0 <= i < |ps| ensures GoodPart(RenderedAll(ps)[i], boundary) {
      RenderedIsGood(ps[i], boundary);
    }
    EntriesOfParts(ps, boundary);
    ClosedBody(RenderedAll(ps), boundary, epilogue, data, contentLength);
  }

  /** Entry by entry and field by field: the k-th entry is the k-th part, an upload if it has a file name. */
  lemma {:induction false} EntryFields(ps: seq<Part>, boundary: cstring, epilogue: bytes,
                                       data: bytes, contentLength: nat, k: nat)
    requires NoSpace(boundary) && forall i :: 0 <= i < |ps| ==> Encodable(ps[i], boundary)
    requires Cut(data, contentLength) == RenderBody(RenderedAll(ps), boundary, epilogue)
    requires k < |ps| && COLON !in ps[k].name && COLON !in ps[k].fileName
    ensures |ParseBody(data, contentLength, boundary).entries| == |ps|
    ensures var e, p := ParseBody(data, contentLength, boundary).entries[k], ps[k];
      && e.attr == p.name && e.valueLength == |p.body| && e.fileName == p.fileName
      && e.value == (if p.fileName == [] then p.body else [])
      && e.upload == (if p.fileName == [] then None else Some(p.body))
      && e.contentType == (if p.contentType == [] then []
                           else CStr(Cut(MainToken(DropColons(p.contentType)).text, TEXT_SPACE)))
  {
    RoundTrip(ps, boundary, epilogue, data, contentLength);
    DropColonsIff(ps[k].name);
    DropColonsIff(ps[k].fileName);
    hide ParseBody, RenderBody, Encodable, DropColons, MainToken, CStr;
  }

  /** What the header lines of a part look like. */
  lemma {:induction false} PartLooksLike(p: Part)
    ensures FORM_DATA == Ascii("form-data") && NAME == Ascii("name") && FILENAME == Ascii("filename")
    ensures CONTENT_DISPOSITION == Ascii("Content-Disposition") && CONTENT_TYPE == Ascii("Content-Type")
    ensures Disposition(p) == FORM_DATA + (RenderParam(Param(NAME, p.name)) +
                                           if p.fileName == [] then [] else RenderParam(Param(FILENAME, p.fileName)))
  {
    hide RenderParam;
    var qs := DispositionParams(p);
    assert RenderParams(qs) == RenderParam(qs[0]) + RenderParams(qs[1..]);
    if p.fileName != [] {
      assert RenderParams(qs[1..]) == RenderParam(qs[1]) + RenderParams(qs[1..][1..]);
      assert RenderParam(qs[1]) + [] == RenderParam(qs[1]);
    } else {
      assert RenderParam(qs[0]) + [] == RenderParam(qs[0]);
    }
  }

  // ----- When the form comes back unchanged

  lemma {:induction false} TypeUnchangedIff(ct: cstring)
    requires TypeText(ct)
    ensures ReadType(ct) == ct <==> COLON !in ct && SEMICOLON !in ct && (ct != [] ==> ct[0] != QUOTE)
  {
    hide DropColons, EndsPlain, CStr;
    if ct != [] {
      var v := Dropped(ct);
      DropColonsIff(ct);
      DropColonsStarts(ct);
      SpaceRunIs(v, 0);
      var i := IndexOf(v, SEMICOLON);
      var text := MainToken(v).text;
      assert |MainText(v)| <= |text| by { ShortenedText(text); }
      if COLON !in ct && SEMICOLON !in ct && ct[0] != QUOTE {
        assert text == ct;
        CStrWhole(ct);
      } else if COLON !in ct && SEMICOLON in ct {
        assert i < |v|;
      }
    }
  }

  lemma ShortenedText(text: bytes)
    ensures |CStr(Cut(text, TEXT_SPACE))| <= |text|
  {
  }

  lemma {:induction false} PartUnchangedIff(p: Part)
    requires TypeText(p.contentType)
    ensures PartEntry(p) == SentEntry(p) <==> PlainPart(p)
  {
    hide DropColons, EndsPlain, ReadType;
    DropColonsIff(p.name);
    DropColonsIff(p.fileName);
    TypeUnchangedIff(p.contentType);
  }

  lemma {:induction false} EntriesUnchangedIff(ps: seq<Part>)
    requires forall i :: 0 <= i < |ps| ==> TypeText(ps[i].contentType)
    ensures PartEntries(ps) == SentEntries(ps) <==> forall i :: 0 <= i < |ps| ==> PlainPart(ps[i])
  {
    hide TypeText, PlainPart, PartEntry, SentEntry;
    if ps != [] {
      PartUnchangedIff(ps[0]);
      EntriesUnchangedIff(ps[1..]);
      assert PartEntries(ps)[1..] == PartEntries(ps[1..]) && SentEntries(ps)[1..] == SentEntries(ps[1..]);
      assert PartEntries(ps)[0] == PartEntry(ps[0]) && SentEntries(ps)[0] == SentEntry(ps[0]);
    }
  }

  /** A form comes back exactly as it was sent if and only if its names and file names have no colons,
      and its content types no parameters. */
  lemma {:induction false} UnchangedIff(ps: seq<Part>, boundary: cstring, epilogue: bytes,
                                        data: bytes, contentLength: nat)
    requires NoSpace(boundary) && forall i :: 0 <= i < |ps| ==> Encodable(ps[i], boundary)
    requires Cut(data, contentLength) == RenderBody(RenderedAll(ps), boundary, epilogue)
    ensures ParseBody(data, contentLength, boundary).entries == SentEntries(ps)
       <==> forall i :: 0 <= i < |ps| ==> PlainPart(ps[i])
  {
    hide ParseBody, RenderBody, PlainPart, PartEntries, SentEntries, QuotedText, EndsPlain, NoneBefore;
    RoundTrip(ps, boundary, epilogue, data, contentLength);
    EntriesUnchangedIff(ps);
  }
}

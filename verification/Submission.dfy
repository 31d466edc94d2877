/** What main makes of a request, from the content type to the list of entries. */
module Submission {
  import opened Bytes
  import opened Streams
  import opened BoundarySearch
  import opened BoundaryReader
  import opened HeaderLines
  import opened HeaderParams
  import opened FormEntries
  import opened Multipart
  import opened MultipartReader
  import opened MultipartParts
  import opened MultipartRoundTrip
  import opened ContentType
  import opened UrlEncoded
  import opened Environment

  const POST: cstring := Ascii("post")
  const GET: cstring := Ascii("get")
  const URL_ENCODED: cstring := Ascii("application/x-www-form-urlencoded")
  const MULTIPART: cstring := Ascii("multipart/form-data")

  /** The variables of the environment main looks at, and the bytes of standard input. */
  datatype Request = Request(verb: cstring, query: cstring, contentType: cstring, contentLength: int, input: bytes)

  /** Refused is the status 500 with which main ends before cgiMain is called. Overrun is what becomes of
      a multipart post with a negative length: mpRead passes the negative rest of it to fread as a size,
      with a buffer of one byte. */
  datatype Reply = Served(entries: seq<Entry>) | Refused | Overrun

  /** No memory is to be had for a negative length. */
  function PostUrlEncoded(r: Request): Reply {
    if r.contentLength < 0 || |r.input| < r.contentLength then Refused
    else Served(FormPairs(r.input[..r.contentLength]))
  }

  function PostMultipart(r: Request, boundary: cstring): Reply {
    if r.contentLength < 0 then Overrun
    else
      var o := ParseBody(r.input, r.contentLength, boundary);
      if o.result == ParseSuccess then Served(o.entries) else Refused
  }

  function Answer(r: Request): Reply {
    var t := Cut(r.contentType, BUFFER_SIZE - 1);
    if EqNc(r.verb, POST) then
      if EqNc(MediaType(t), URL_ENCODED) then PostUrlEncoded(r)
      else if EqNc(MediaType(t), MULTIPART) then PostMultipart(r, BoundaryOf(t))
      else Served([])
    else if EqNc(r.verb, GET) then Served(FormPairs(r.query))
    else Served([])
  }

  // ----- The code

  lemma NothingSent()
    ensures FormPairs([]) == []
  {
    IndexOfIs([], AMPERSAND, 0);
  }

  /** cgiParsePostFormInput */
  method ParsePostFormInput(hexValue: array<nat>, r: Request, form: Form) returns (ok: bool)
    requires hexValue.Length == 256 && forall c: byte :: hexValue[c] == HexValue(c)
    requires form.Valid() && form.nodes == [] && form.Entries() == []
    modifies form`first, form`nodes
    ensures form.Valid() && PostUrlEncoded(r) == if ok then Served(form.Entries()) else Refused
  {
    hide FormPairs, Form.Entries, Form.Valid;
    if r.contentLength == 0 {
      NothingSent();
      return true;
    }
    if r.contentLength < 0 || |r.input| < r.contentLength {
      return false;
    }
    ParseFormInput(hexValue, r.input[..r.contentLength], form);
    ok := true;
  }

  /** The parse of a post, by its media type. */
  method ParsePost(hexValue: array<nat>, r: Request, media: cstring, boundary: cstring, form: Form) returns (ok: bool)
    requires hexValue.Length == 256 && forall c: byte :: hexValue[c] == HexValue(c)
    requires form.Valid() && form.nodes == [] && form.Entries() == [] && |boundary| <= MAX_BOUNDARY
    requires !EqNc(media, URL_ENCODED) && EqNc(media, MULTIPART) ==> r.contentLength >= 0
    modifies form`first, form`nodes
    ensures form.Valid()
    ensures (if EqNc(media, URL_ENCODED) then PostUrlEncoded(r)
             else if EqNc(media, MULTIPART) then PostMultipart(r, boundary) else Served([]))
         == if ok then Served(form.Entries()) else Refused
  {
    hide PostUrlEncoded, ParseBody, EqNc, Form.Entries, Form.Valid, URL_ENCODED, MULTIPART;
    ok := true;
    var urlEncoded := StrEqNc(media, URL_ENCODED);
    if urlEncoded {
      ok := ParsePostFormInput(hexValue, r, form);
      return;
    }
    var multipart := StrEqNc(media, MULTIPART);
    if multipart {
      var mp := new MpStream(r.input, r.contentLength);
      var result := ParsePostMultipart(mp, boundary, form);
      ok := result == ParseSuccess;
    }
  }

  /** Only a multipart post of negative length goes wrong that way. */
  lemma OverrunIff(r: Request)
    ensures Answer(r) == Overrun <==>
      && EqNc(r.verb, POST) && r.contentLength < 0
      && EqNc(MediaType(Cut(r.contentType, BUFFER_SIZE - 1)), MULTIPART)
  {
    hide EqNc, MediaType, BoundaryOf, ParseBody, FormPairs, POST, GET, MULTIPART, URL_ENCODED;
    var media := MediaType(Cut(r.contentType, BUFFER_SIZE - 1));
    if EqNc(media, MULTIPART) {
      MediaHasNoSemicolon(media);
    }
  }

  /** Every other request gets the answer of the specification. Whatever its content type, the boundary
      that is cut out of it is one the multipart parser can search for. */
  method ReadRequest(r: Request) returns (ok: bool, form: Form)
    requires Answer(r) != Overrun
    ensures form.Valid() && fresh(form)
    ensures Answer(r) == if ok then Served(form.Entries()) else Refused
  {
    hide PostUrlEncoded, PostMultipart, EqNc, Form.Entries, Form.Valid, BoundaryOf, MediaType, FormPairs;
    hide URL_ENCODED, MULTIPART, POST, GET, HexValue;
    OverrunIff(r);
    ok := true;
    form := new Form();
    var hexValue := SetupConstants();
    var media, boundary := ExtractBoundary(r.contentType);
    var post := StrEqNc(r.verb, POST);
    if post {
      ok := ParsePost(hexValue, r, media, boundary, form);
      return;
    }
    var get := StrEqNc(r.verb, GET);
    if get {
      ParseFormInput(hexValue, r.query, form);
    }
  }

  // ----- What a request must look like to be served

  /** The content type of a multipart request: its media type in any case; other parameters ahead of the boundary;
      the key of the boundary in any case, behind any white space; and behind the boundary anything that
      white space keeps apart from it. */
  datatype MultipartType = MultipartType(media: cstring, others: seq<cstring>, white: cstring, key: cstring,
                                         boundary: cstring, tail: cstring)

  function RenderType(c: MultipartType): cstring {
    c.media + RenderKeyed(c.others, c.white, c.key, c.boundary + c.tail)
  }

  ghost predicate GoodType(c: MultipartType) {
    && EqNc(c.media, MULTIPART) && (forall k :: 0 <= k < |c.others| ==> OtherParam(c.others[k]))
    && White(c.white) && EqNc(c.key, BOUNDARY_KEY) && NoSpace(c.boundary) && (c.tail == [] || IsSpace(c.tail[0]))
    && |RenderType(c)| < BUFFER_SIZE
  }

  /** A multipart post of that body; bytes behind the content length are not looked at. */
  ghost predicate SendsBody(r: Request, c: MultipartType, body: bytes) {
    && EqNc(r.verb, POST) && GoodType(c) && r.contentType == RenderType(c)
    && r.contentLength >= 0 && Cut(r.input, r.contentLength) == body
  }

  ghost predicate SendsParts(r: Request, ps: seq<Part>, c: MultipartType, epilogue: bytes) {
    && (forall i :: 0 <= i < |ps| ==> Encodable(ps[i], c.boundary))
    && SendsBody(r, c, RenderBody(RenderedAll(ps), c.boundary, epilogue))
  }

  /** A query, or a post whose media type is the URL-encoded one in any case, with any parameters. */
  ghost predicate SendsFields(r: Request, fs: seq<Field>) {
    && (forall i :: 0 <= i < |fs| ==> LegalField(fs[i]))
    && (|| (EqNc(r.verb, GET) && r.query == EncodeForm(fs))
        || (&& EqNc(r.verb, POST) && EqNc(MediaType(Cut(r.contentType, BUFFER_SIZE - 1)), URL_ENCODED)
            && EncodeForm(fs) <= r.input && r.contentLength == |EncodeForm(fs)|))
  }

  lemma {:induction false} MediaHasNoSemicolon(media: cstring)
    requires EqNc(media, MULTIPART)
    ensures forall i :: 0 <= i < |media| ==> media[i] != SEMICOLON
    ensures !EqNc(media, URL_ENCODED)
  {
    assert |MULTIPART| != |URL_ENCODED|;
    forall i | 0 <= i < |media| ensures media[i] != SEMICOLON {
      assert Lower(media[i]) == Lower(MULTIPART[i]) != SEMICOLON;
    }
  }

  /** A multipart post is parsed with the boundary of its content type. */
  lemma {:induction false} BodyIsParsed(r: Request, c: MultipartType, body: bytes)
    requires SendsBody(r, c, body)
    ensures Answer(r) == PostMultipart(r, c.boundary)
  {
    hide EqNc, MediaType, BoundaryOf, OtherParam, RenderKeyed, PostMultipart;
    hide MULTIPART, URL_ENCODED, POST, GET, PostUrlEncoded, FirstWord, NoSpace, BOUNDARY_KEY;
    MediaHasNoSemicolon(c.media);
    BoundaryOfRendered(c.media, c.others, c.white, c.key, c.boundary + c.tail);
    BoundaryUnchangedIff(c.boundary, c.tail);
  }

  /** Parts of any kind, in a body that is closed: their entries are served. */
  lemma {:induction false} AnyPartsAreServed(r: Request, ps: seq<AnyPart>, c: MultipartType, epilogue: bytes)
    requires SendsBody(r, c, RenderBody(ps, c.boundary, epilogue))
    requires forall i :: 0 <= i < |ps| ==> GoodPart(ps[i], c.boundary)
    ensures Answer(r) == Served(AnyEntries(ps))
  {
    hide Answer, ParseBody, AnyEntries, GoodPart, RenderBody;
    BodyIsParsed(r, c, RenderBody(ps, c.boundary, epilogue));
    ClosedBody(ps, c.boundary, epilogue, r.input, r.contentLength);
  }

  /** A body whose last part is not followed by a delimiter: the request is refused. */
  lemma {:induction false} OpenBodyRefused(r: Request, ps: seq<AnyPart>, last: AnyPart, c: MultipartType)
    requires SendsBody(r, c, Pattern(c.boundary, true) + Trail(ps, c.boundary, CRLF + RenderAny(last)))
    requires GoodPart(last, c.boundary) && forall i :: 0 <= i < |ps| ==> GoodPart(ps[i], c.boundary)
    ensures Answer(r) == Refused
  {
    hide Answer, ParseBody, GoodPart, Pattern, Trail, RenderAny;
    BodyIsParsed(r, c, Pattern(c.boundary, true) + Trail(ps, c.boundary, CRLF + RenderAny(last)));
    OpenBody(ps, last, c.boundary, r.input, r.contentLength);
  }

  lemma {:induction false} PartsAreServed(r: Request, ps: seq<Part>, c: MultipartType, epilogue: bytes)
    requires SendsParts(r, ps, c, epilogue)
    ensures Answer(r) == Served(PartEntries(ps))
  {
    hide Answer, ParseBody, PartEntries, Encodable, RenderBody, Rendered;
    BodyIsParsed(r, c, RenderBody(RenderedAll(ps), c.boundary, epilogue));
    RoundTrip(ps, c.boundary, epilogue, r.input, r.contentLength);
  }

  lemma {:induction false} FieldsAreServed(r: Request, fs: seq<Field>)
    requires SendsFields(r, fs)
    ensures Answer(r) == Served(FieldEntries(fs))
  {
    hide EqNc, BoundaryOf, FieldEntries, EncodeForm, LegalField, FormPairs, MediaType;
    hide MULTIPART, POST, GET, URL_ENCODED, PostMultipart;
    GetIsNotPost(r.verb);
    FormRoundTrip(fs);
    if EqNc(r.verb, POST) {
      assert r.input[..r.contentLength] == EncodeForm(fs);
    }
  }

  lemma GetIsNotPost(verb: cstring)
    ensures EqNc(verb, GET) ==> !EqNc(verb, POST)
  {
    assert EqNc(verb, GET) ==> |verb| == |GET| != |POST|;
  }

  /** The methods as they are usually sent, whatever their case. */
  lemma {:induction false} UsualVerbs()
    ensures EqNc(Ascii("POST"), POST) && EqNc(Ascii("Post"), POST) && EqNc(Ascii("GET"), GET)
  {
  }

  lemma {:induction false} UsualMedia()
    ensures EqNc(Ascii("Multipart/Form-Data"), MULTIPART)
  {
  }

  lemma {:induction false} UsualKey()
    ensures EqNc(Ascii("Boundary="), BOUNDARY_KEY)
  {
  }

  /** The content type that browsers send. */
  function BrowserType(boundary: cstring): MultipartType {
    MultipartType(MULTIPART, [], [SPACE], BOUNDARY_KEY, boundary, [])
  }

  lemma {:induction false} BrowserText()
    ensures Ascii("multipart/form-data; boundary=") == MULTIPART + ([SEMICOLON] + ([SPACE] + BOUNDARY_KEY))
    ensures |MULTIPART| == 19 && |BOUNDARY_KEY| == 9
  {
  }

  lemma {:induction false} BrowserTypeIsGood(boundary: cstring)
    requires NoSpace(boundary) && |boundary| < 900
    ensures GoodType(BrowserType(boundary))
    ensures RenderType(BrowserType(boundary)) == Ascii("multipart/form-data; boundary=") + boundary
  {
    hide EqNc, MULTIPART, BOUNDARY_KEY, Ascii, NoSpace;
    SameIsEqNc(MULTIPART);
    SameIsEqNc(BOUNDARY_KEY);
    BrowserText();
    var key := BOUNDARY_KEY;
    assert boundary + [] == boundary;
    assert MULTIPART + ([SEMICOLON] + ([SPACE] + (key + boundary)))
        == MULTIPART + ([SEMICOLON] + ([SPACE] + key)) + boundary;
  }

  /** A form as a browser posts it: POST, multipart/form-data; boundary=... */
  lemma {:induction false} BrowserPostIsServed(r: Request, ps: seq<Part>, boundary: cstring)
    requires r.verb == Ascii("POST") && r.contentType == Ascii("multipart/form-data; boundary=") + boundary
    requires NoSpace(boundary) && |boundary| < 900 && forall i :: 0 <= i < |ps| ==> Encodable(ps[i], boundary)
    requires r.contentLength == |r.input| && r.input == RenderBody(RenderedAll(ps), boundary, CRLF)
    ensures Answer(r) == Served(PartEntries(ps))
  {
    hide EqNc, Answer, Encodable, RenderBody, PartEntries, POST, Rendered, Ascii, GoodType, RenderType;
    UsualVerbs();
    BrowserTypeIsGood(boundary);
    PartsAreServed(r, ps, BrowserType(boundary), CRLF);
  }

  /** A query as a browser sends it: GET. */
  lemma {:induction false} BrowserQueryIsServed(r: Request, fs: seq<Field>)
    requires r.verb == Ascii("GET") && r.query == EncodeForm(fs) && forall i :: 0 <= i < |fs| ==> LegalField(fs[i])
    ensures Answer(r) == Served(FieldEntries(fs))
  {
    UsualVerbs();
    hide EqNc, Answer, EncodeForm, LegalField, FieldEntries, GET;
    FieldsAreServed(r, fs);
  }

  predicate CarriesForm(r: Request) {
    var media := MediaType(Cut(r.contentType, BUFFER_SIZE - 1));
    if EqNc(r.verb, Ascii("post")) then
      EqNc(media, Ascii("application/x-www-form-urlencoded")) || EqNc(media, Ascii("multipart/form-data"))
    else EqNc(r.verb, Ascii("get"))
  }

  /** Any other method, and a post of any other media type, is served an empty form. */
  lemma {:induction false} NoFormSent(r: Request)
    requires !CarriesForm(r)
    ensures Answer(r) == Served([])
  {
    hide EqNc, MediaType, BoundaryOf, ParseBody, FormPairs;
  }

  /** A URL-encoded post with less input than its content length says is refused. */
  lemma {:induction false} ShortPostRefused(r: Request)
    requires EqNc(r.verb, Ascii("post")) && |r.input| < r.contentLength
    requires EqNc(MediaType(Cut(r.contentType, BUFFER_SIZE - 1)), Ascii("application/x-www-form-urlencoded"))
    ensures Answer(r) == Refused
  {
    hide EqNc, MediaType, BoundaryOf, ParseBody, FormPairs;
  }

  // ----- A form means the same however it is sent

  /** The part that sends the same field. */
  function FieldPart(f: Field): Part
    requires NoNul(Plain(f.name))
  {
    Part(Plain(f.name), [], [], Plain(f.value))
  }

  predicate SameEitherWay(f: Field) {
    COLON !in Plain(f.name) && NUL !in Plain(f.value)
  }

  lemma {:induction false} SameEntryIff(f: Field)
    requires NoNul(Plain(f.name))
    ensures PartEntry(FieldPart(f)) == FieldEntry(f) <==> SameEitherWay(f)
  {
    hide Plain, DropColons, CStr;
    DropColonsIff(Plain(f.name));
    DropColonsIff([]);
    CStrWhole(Plain(f.name));
    CutAtNul(Plain(f.value));
  }

  lemma {:induction false} SameEntriesIff(fs: seq<Field>, ps: seq<Part>)
    requires |ps| == |fs| && forall i :: 0 <= i < |fs| ==> NoNul(Plain(fs[i].name)) && ps[i] == FieldPart(fs[i])
    ensures PartEntries(ps) == FieldEntries(fs) <==> forall i :: 0 <= i < |fs| ==> SameEitherWay(fs[i])
  {
    hide Plain, PartEntry, FieldEntry, SameEitherWay;
    forall i | 0 <= i < |fs| ensures PartEntries(ps)[i] == FieldEntries(fs)[i] <==> SameEitherWay(fs[i]) {
      SameEntryIff(fs[i]);
    }
  }

  /** The cgiMain of a program sees the same list whether a form came in a query, in a URL-encoded
      post in any spelling, or in a multipart post, if and only if no field name has a colon and no value a NUL. */
  lemma {:induction false} SameFormEitherWay(fs: seq<Field>, ps: seq<Part>, r1: Request, r2: Request,
                                             c: MultipartType, epilogue: bytes)
    requires SendsFields(r1, fs) && SendsParts(r2, ps, c, epilogue)
    requires |ps| == |fs| && forall i :: 0 <= i < |fs| ==> NoNul(Plain(fs[i].name)) && ps[i] == FieldPart(fs[i])
    ensures Answer(r1) == Answer(r2) <==> forall i :: 0 <= i < |fs| ==> SameEitherWay(fs[i])
  {
    hide Answer, Encodable, LegalField, FieldPart, EncodeForm, SendsFields, SendsParts, PartEntries, FieldEntries;
    hide Plain, SameEitherWay;
    FieldsAreServed(r1, fs);
    PartsAreServed(r2, ps, c, epilogue);
    SameEntriesIff(fs, ps);
  }

  // ----- What served forms are like

  lemma {:induction false} TextHasNoUpload(segments: seq<bytes>, k: nat)
    requires k < |NamedPairs(segments)|
    ensures NamedPairs(segments)[k].upload == None
  {
    hide NamePart, Decode, CStr;
    if k > 0 {
      TextHasNoUpload(segments[1..], k - 1);
    }
  }

  lemma {:induction false} PartsHaveLengths(s: Stream, boundary: cstring)
    ensures UploadLengths(Parts(s, boundary).entries)
    decreases Size(s)
  {
    hide Flat, ReadHeaders, SearchFor, Pattern, EqNc, Peeked, Drop;
    if !EndsParts(Flat(s)) {
      var e := ReadHeaders(Peeked(s), NO_INFO);
      ReadHeadersShrinks(Peeked(s), NO_INFO);
      SearchShrinks(e.s, Pattern(boundary, false));
      PeekedSize(s);
      var r := SearchFor(e.s, Pattern(boundary, false));
      if r.Found? {
        PartsHaveLengths(r.s, boundary);
      }
    }
  }

  /** In every form that is served, the value length of an upload is its length. */
  lemma {:induction false} ServedUploadLengths(r: Request)
    ensures Answer(r).Served? ==> UploadLengths(Answer(r).entries)
  {
    hide EqNc, MediaType, BoundaryOf, SearchFor, Parts, Segments, NamedPairs, Pattern;
    hide MULTIPART, URL_ENCODED, POST, GET;
    if Answer(r).Served? {
      forall k | 0 <= k < |Answer(r).entries| && Answer(r).entries[k].upload.Some?
        ensures Answer(r).entries[k].valueLength == |Answer(r).entries[k].upload.value|
      {
        if EqNc(r.verb, POST) && !EqNc(MediaType(Cut(r.contentType, BUFFER_SIZE - 1)), URL_ENCODED) {
          var boundary := BoundaryOf(Cut(r.contentType, BUFFER_SIZE - 1));
          match SearchFor(Stream([], Cut(r.input, r.contentLength)), Pattern(boundary, true))
          case Missing =>
          case Found(_, s) => PartsHaveLengths(s, boundary);
        } else {
          var d := if EqNc(r.verb, POST) then r.input[..r.contentLength] else r.query;
          TextHasNoUpload(Segments(d), k);
        }
      }
    }
  }
}

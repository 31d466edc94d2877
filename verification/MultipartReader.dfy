/** cgiParsePostMultipartInput itself: ring buffer, header buffers and linked list. */
module MultipartReader {
  import opened Bytes
  import opened Streams
  import opened BoundarySearch
  import opened BoundaryReader
  import opened HeaderLines
  import opened HeaderParams
  import opened FormEntries
  import opened Multipart

  /** The four text buffers a part's headers are decomposed into. */
  class PartBuffers {
    const fvalue: array<byte>
    const fname: array<byte>
    const ffileName: array<byte>
    const fcontentType: array<byte>

    ghost predicate Valid() {
      && fvalue.Length == fname.Length == ffileName.Length == fcontentType.Length == TEXT_SPACE + 1
      && fvalue != fname && fvalue != ffileName && fvalue != fcontentType
      && fname != ffileName && fname != fcontentType && ffileName != fcontentType
    }

    function Info(): PartInfo
      reads fvalue, fname, ffileName, fcontentType
    {
      PartInfo(CStr(fvalue[..]), CStr(fname[..]), CStr(ffileName[..]), CStr(fcontentType[..]))
    }

    constructor ()
      ensures Valid() && fresh(fvalue) && fresh(fname) && fresh(ffileName) && fresh(fcontentType)
      ensures Info() == NO_INFO
    {
      fvalue := new byte[TEXT_SPACE + 1](_ => NUL);
      fname := new byte[TEXT_SPACE + 1](_ => NUL);
      ffileName := new byte[TEXT_SPACE + 1](_ => NUL);
      fcontentType := new byte[TEXT_SPACE + 1](_ => NUL);
      new;
      EmptyBuffer(fvalue[..]);
      EmptyBuffer(fname[..]);
      EmptyBuffer(ffileName[..]);
      EmptyBuffer(fcontentType[..]);
    }

    lemma EmptyBuffer(buffer: bytes)
      requires buffer != [] && buffer[0] == NUL
      ensures CStr(buffer) == []
    {
      IndexOfIs(buffer, NUL, 0);
    }

    /** What the parser does with one header line. */
    method Store(attr: cstring, value: cstring)
      requires Valid()
      modifies fvalue, fname, ffileName, fcontentType
      ensures Info() == ApplyHeader(old(Info()), attr, value)
    {
      hide CStr, MainToken, Params, LastValue, EqNc, Cut;
      var disposition := StrEqNc(attr, CONTENT_DISPOSITION);
      if disposition {
        RequestedNamesDiffer();
        DecomposeValue(value, fvalue, [NAME, FILENAME], [fname, ffileName]);
        assert [NAME, FILENAME][0] == NAME && [NAME, FILENAME][1] == FILENAME;
        assert [fname, ffileName][0] == fname && [fname, ffileName][1] == ffileName;
        CStrWhole(CStr(fvalue[..]));
        CStrWhole(CStr(fname[..]));
        CStrWhole(CStr(ffileName[..]));
      } else {
        var contentType := StrEqNc(attr, CONTENT_TYPE);
        if contentType {
          DecomposeValue(value, fcontentType, [], []);
          CStrWhole(CStr(fcontentType[..]));
        }
      }
    }

    lemma RequestedNamesDiffer()
      ensures FirstAsked([NAME, FILENAME], 0) && FirstAsked([NAME, FILENAME], 1)
    {
    }
  }

  /** The header lines of one part. */
  method ReadPartHeaders(mp: MpStream) returns (info: PartInfo)
    requires mp.Valid() && |mp.View().queue| + 2 < CAPACITY
    modifies mp, mp.putback
    ensures mp.Valid() && ReadHeaders(old(mp.View()), NO_INFO) == HeadersEnd(info, mp.View())
    ensures |mp.View().queue| <= |old(mp.View()).queue| || |mp.View().queue| <= 1
  {
    hide ReadLine, CStr, ApplyHeader;
    var attr := new byte[TEXT_SPACE + 1];
    var value := new byte[TEXT_SPACE + 1];
    var buffers := new PartBuffers();
    ghost var q := |mp.View().queue|;
    while true
      invariant mp.Valid() && (|mp.View().queue| <= q || |mp.View().queue| <= 1)
      invariant buffers.Valid()
      invariant ReadHeaders(mp.View(), buffers.Info()) == ReadHeaders(old(mp.View()), NO_INFO)
      decreases Size(mp.View())
    {
      ReadLineShrinks(mp.View(), [], [], false);
      var ok := ReadHeaderLine(mp, attr, value);
      if !ok {
        break;
      }
      buffers.Store(CStr(attr[..]), CStr(value[..]));
    }
    info := buffers.Info();
  }

  /** Looks at the two bytes in front of a part and puts them back, unless they end the parts. */
  method PeekPart(mp: MpStream) returns (more: bool)
    requires mp.Valid() && |mp.View().queue| + 2 < CAPACITY
    modifies mp, mp.putback
    ensures mp.Valid() && more == !EndsParts(Flat(old(mp.View())))
    ensures mp.View() == if more then Peeked(old(mp.View())) else Drop(old(mp.View()), Available(old(mp.View()), 2))
    ensures |mp.View().queue| <= |old(mp.View()).queue| || |mp.View().queue| <= 2
  {
    assert mp.offset >= 0;
    hide Flat, MpStream.Valid;
    var d := new byte[2];
    var got := mp.Read(d, 2);
    if got < 2 {
      return false;
    }
    assert d[..2] == Flat(old(mp.View()))[..2];
    if d[0] == DASH && d[1] == DASH {
      return false;
    }
    mp.Unread(d[..2]);
    more := true;
  }

  /** One part: its headers, its body, and its entry if it is form data. */
  method ReadPart(mp: MpStream, boundary: cstring, form: Form, l: Node?) returns (found: bool, last: Node?)
    requires mp.Valid() && |boundary| <= MAX_BOUNDARY && |mp.View().queue| <= QueueBound(boundary)
    requires form.Valid() && l == if form.nodes == [] then null else form.nodes[|form.nodes| - 1]
    modifies mp, mp.putback, form`first, form`nodes, form.nodes
    ensures mp.Valid() && |mp.View().queue| <= QueueBound(boundary)
    ensures form.Valid() && last == if form.nodes == [] then null else form.nodes[|form.nodes| - 1]
    ensures var e := ReadHeaders(old(mp.View()), NO_INFO);
            match SearchFor(e.s, Pattern(boundary, false))
            case Missing => !found && mp.View() == Stream([], []) && form.Entries() == old(form.Entries())
            case Found(body, s) =>
              found && mp.View() == s && form.Entries() == old(form.Entries()) +
                if EqNc(e.info.disposition, FORM_DATA) then [MakeEntry(e.info, body)] else []
    ensures fresh(set n | n in form.nodes && n !in old(form.nodes))
  {
    hide ReadHeaders, SearchFor, Pattern, EqNc, Form.Entries, Flat;
    last := l;
    var info := ReadPartHeaders(mp);
    var formData := StrEqNc(info.disposition, FORM_DATA);
    if !formData {
      var none, zero;
      found, none, zero := AfterNextBoundary(mp, boundary, Discard, false);
      return;
    }
    var sink := if info.fileName != [] then ToFile else ToMemory;
    var body, bodyLength;
    found, body, bodyLength := AfterNextBoundary(mp, boundary, sink, false);
    if !found {
      return;
    }
    var value, upload := body, None;
    if sink == ToFile {
      value, upload := [], Some(body);
    }
    last := form.AddLast(l, Entry(info.name, value, bodyLength, info.fileName, info.contentType, upload));
  }

  /** The parse that is left to do, with the entries found so far in front. */
  ghost predicate Continues(start: Stream, boundary: cstring, found: seq<Entry>, s: Stream) {
    var o, rest := Parts(start, boundary), Parts(s, boundary);
    o.result == rest.result && o.entries == found + rest.entries && o.s == rest.s
  }

  lemma PartsStep(start: Stream, boundary: cstring, found: seq<Entry>, s: Stream)
    requires Continues(start, boundary, found, s) && !EndsParts(Flat(s))
    ensures var e := ReadHeaders(Peeked(s), NO_INFO);
            match SearchFor(e.s, Pattern(boundary, false))
            case Missing => Parts(start, boundary) == Outcome(ParseIO, found, Stream([], []))
            case Found(body, s1) =>
              && Size(s1) < Size(s)
              && Continues(start, boundary, found +
                   if EqNc(e.info.disposition, FORM_DATA) then [MakeEntry(e.info, body)] else [], s1)
  {
    hide Flat, ReadHeaders, SearchFor, Pattern, EqNc, Peeked;
    ReadHeadersShrinks(Peeked(s), NO_INFO);
    SearchShrinks(ReadHeaders(Peeked(s), NO_INFO).s, Pattern(boundary, false));
    PeekedSize(s);
  }

  lemma PeekedSize(s: Stream)
    requires Size(s) >= 2
    ensures Size(Peeked(s)) == Size(s)
  {
    DropFlat(s, 2);
  }

  /** The loop over the parts behind the opening delimiter. */
  method ReadParts(mp: MpStream, boundary: cstring, form: Form) returns (result: ParseResult)
    requires mp.Valid() && |boundary| <= MAX_BOUNDARY && |mp.View().queue| <= QueueBound(boundary)
    requires form.Valid() && form.nodes == []
    modifies mp, mp.putback, form`first, form`nodes
    ensures mp.Valid() && form.Valid()
    ensures Parts(old(mp.View()), boundary) == Outcome(result, form.Entries(), mp.View())
  {
    hide Flat, ReadHeaders, SearchFor, Pattern, EqNc, Peeked, EndsParts, Form.Entries, Drop, Continues;
    var l: Node? := null;
    ghost var start, s := mp.View(), mp.View();
    assert Continues(start, boundary, form.Entries(), s) by { NothingFound(form, start, boundary); }
    while true
      invariant mp.Valid() && |mp.View().queue| <= QueueBound(boundary) && s == mp.View()
      invariant form.Valid() && l == if form.nodes == [] then null else form.nodes[|form.nodes| - 1]
      invariant fresh(set n | n in form.nodes)
      invariant Continues(start, boundary, form.Entries(), s)
      decreases Size(s)
    {
      var more := PeekPart(mp);
      if !more {
        PartsEnd(start, boundary, form.Entries(), s);
        return ParseSuccess;
      }
      PartsStep(start, boundary, form.Entries(), s);
      var found;
      found, l := ReadPart(mp, boundary, form, l);
      if !found {
        return ParseIO;
      }
      s := mp.View();
    }
  }

  lemma NothingFound(form: Form, start: Stream, boundary: cstring)
    requires form.nodes == []
    ensures Continues(start, boundary, form.Entries(), start)
  {
    assert form.Entries() == [];
  }

  lemma PartsEnd(start: Stream, boundary: cstring, found: seq<Entry>, s: Stream)
    requires Continues(start, boundary, found, s) && EndsParts(Flat(s))
    ensures Parts(start, boundary) == Outcome(ParseSuccess, found, Drop(s, Available(s, 2)))
  {
  }

  /** The whole parse: on every input, with every boundary main can extract, the ring stays
      within its capacity and the list holds exactly the entries of the machine ParseBody. */
  method ParsePostMultipart(mp: MpStream, boundary: cstring, form: Form) returns (result: ParseResult)
    requires mp.Valid() && mp.View() == Stream([], Cut(mp.input, mp.contentLength))
    requires |boundary| <= MAX_BOUNDARY && form.Valid() && form.nodes == []
    modifies mp, mp.putback, form`first, form`nodes
    ensures mp.Valid() && form.Valid()
    ensures ParseBody(mp.input, mp.contentLength, boundary) == Outcome(result, form.Entries(), mp.View())
  {
    hide SearchFor, Parts, Pattern;
    if mp.contentLength == 0 {
      return ParseSuccess;
    }
    var found, none, zero := AfterNextBoundary(mp, boundary, Discard, true);
    if !found {
      // an empty submission is not an error
      return ParseSuccess;
    }
    result := ReadParts(mp, boundary, form);
  }
}

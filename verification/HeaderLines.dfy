/** readHeaderLine: one "Name: value" line of a part's header. */
module HeaderLines {
  import opened Bytes
  import opened Streams

  /** Room for text in the 1024-byte buffers of the parser, next to the terminator. */
  const TEXT_SPACE: nat := 1023

  datatype Line = HeaderEnd(s: Stream) | Header(attr: cstring, value: cstring, s: Stream)

  function Head(s: Stream): byte
    requires Size(s) > 0
  {
    Flat(s)[0]
  }

  /** Reads up to the first byte that is no white space and puts that byte back. */
  function SkipSpaces(s: Stream): (r: Stream)
    ensures Size(r) <= Size(s)
    decreases Size(s)
  {
    if Size(s) == 0 then s
    else if IsSpace(Head(s)) then SkipSpaces(Drop(s, 1))
    else PutBack(Drop(s, 1), [Head(s)])
  }

  /** Behind a carriage return: a line feed is skipped, any other byte put back. */
  function SkipLf(s: Stream): Stream {
    if Size(s) == 0 then s
    else if Head(s) == LF then Drop(s, 1)
    else PutBack(Drop(s, 1), [Head(s)])
  }

  function EndLine(attr: bytes, value: bytes, s: Stream): Line {
    if attr != [] && value != [] then Header(CStr(attr), CStr(value), s) else HeaderEnd(s)
  }

  /** The loop, with the bytes stored so far; `found` says that a colon was seen. */
  function ReadLine(s: Stream, attr: bytes, value: bytes, found: bool): Line
    decreases Size(s)
  {
    if Size(s) == 0 then HeaderEnd(s)
    else
      var d, s1 := Head(s), Drop(s, 1);
      if d == CR then EndLine(attr, value, SkipLf(s1))
      else if d == LF then EndLine(attr, value, s1)
      else if d == COLON && attr != [] then ReadLine(SkipSpaces(s1), attr, value, true)
      else if found then ReadLine(s1, attr, Cut(value + [d], TEXT_SPACE), true)
      else if IsSpace(d) then ReadLine(s1, attr, value, false)
      else ReadLine(s1, Cut(attr + [d], TEXT_SPACE), value, false)
  }

  /** Every accepted line advances the stream. */
  lemma {:induction false} ReadLineShrinks(s: Stream, attr: bytes, value: bytes, found: bool)
    ensures var r := ReadLine(s, attr, value, found);
      Size(r.s) <= Size(s) && (r.Header? ==> Size(r.s) < Size(s))
    decreases Size(s)
  {
    hide Flat, Drop;
    if Size(s) > 0 {
      var d, s1 := Head(s), Drop(s, 1);
      DropOne(s);
      if d == CR {
        if Size(s1) > 0 {
          DropOne(s1);
        }
      } else if d == LF {
      } else if d == COLON && attr != [] {
        ReadLineShrinks(SkipSpaces(s1), attr, value, true);
      } else if found {
        ReadLineShrinks(s1, attr, Cut(value + [d], TEXT_SPACE), true);
      } else if IsSpace(d) {
        ReadLineShrinks(s1, attr, value, false);
      } else {
        ReadLineShrinks(s1, Cut(attr + [d], TEXT_SPACE), value, false);
      }
    }
  }

  // ----- The same line read off a plain text

  datatype FlatLine = FlatEnd(rest: bytes) | FlatHeader(attr: cstring, value: cstring, rest: bytes)

  function FlatEndLine(attr: bytes, value: bytes, rest: bytes): FlatLine {
    if attr != [] && value != [] then FlatHeader(CStr(attr), CStr(value), rest) else FlatEnd(rest)
  }

  /** Lines end at CR LF, CR or LF. White space before the colon is dropped; every colon is
      dropped too, with all white space behind it, line ends included. */
  function ScanLine(t: bytes, attr: bytes, value: bytes, found: bool): (r: FlatLine)
    ensures |r.rest| <= |t|
    decreases |t|
  {
    if t == [] then FlatEnd([])
    else if t[0] == CR then FlatEndLine(attr, value, if |t| > 1 && t[1] == LF then t[2..] else t[1..])
    else if t[0] == LF then FlatEndLine(attr, value, t[1..])
    else if t[0] == COLON && attr != [] then ScanLine(t[1..][SpaceRun(t[1..])..], attr, value, true)
    else if found then ScanLine(t[1..], attr, Cut(value + [t[0]], TEXT_SPACE), true)
    else if IsSpace(t[0]) then ScanLine(t[1..], attr, value, false)
    else ScanLine(t[1..], Cut(attr + [t[0]], TEXT_SPACE), value, false)
  }

  predicate Reads(r: Line, f: FlatLine) {
    match r
    case HeaderEnd(s) => f.FlatEnd? && Flat(s) == f.rest && |s.queue| <= 1
    case Header(a, v, s) => f.FlatHeader? && a == f.attr && v == f.value && Flat(s) == f.rest && |s.queue| <= 1
  }

  /** Reading one byte and putting it back changes nothing if at most that byte was pending. */
  lemma UnreadOne(s: Stream)
    requires Size(s) > 0 && |s.queue| <= 1
    ensures Flat(PutBack(Drop(s, 1), [Head(s)])) == Flat(s)
  {
    hide Flat;
    DropFlat(s, 1);
    var s1 := Drop(s, 1);
    assert Flat(s) == [Head(s)] + Flat(s1);
    assert Flat(PutBack(s1, [Head(s)])) == [Head(s)] + Flat(s1) by {
      assert s1.queue == [];
      FlatPutBack(s1, [Head(s)]);
    }
  }

  lemma {:induction false} SkipSpacesFlat(s: Stream)
    requires |s.queue| <= 1
    ensures Flat(SkipSpaces(s)) == Flat(s)[SpaceRun(Flat(s))..] && |SkipSpaces(s).queue| <= 1
    decreases Size(s)
  {
    hide Flat, Drop;
    if Size(s) > 0 {
      DropOne(s);
      if IsSpace(Head(s)) {
        SkipSpacesFlat(Drop(s, 1));
      } else {
        UnreadOne(s);
        SpaceRunIs(Flat(s), 0);
      }
    }
  }

  lemma SkipLfFlat(s: Stream)
    requires |s.queue| <= 1
    ensures |SkipLf(s).queue| <= 1
    ensures Flat(SkipLf(s)) == if Size(s) > 0 && Head(s) == LF then Flat(s)[1..] else Flat(s)
  {
    if Size(s) > 0 {
      DropOne(s);
      UnreadOne(s);
    }
  }

  /** Put-back discipline: with at most two bytes pending, the line is read off the stream as
      off a plain text, and at most one byte is pending behind it. */
  lemma {:induction false} ReadLineIsFlat(s: Stream, attr: bytes, value: bytes, found: bool)
    requires |s.queue| <= 2
    ensures Reads(ReadLine(s, attr, value, found), ScanLine(Flat(s), attr, value, found))
    decreases Size(s)
  {
    hide Flat, Drop, SkipSpaces, SkipLf;
    var t := Flat(s);
    if Size(s) > 0 {
      var d, s1 := Head(s), Drop(s, 1);
      DropOne(s);
      if d == CR {
        SkipLfFlat(s1);
      } else if d == LF {
      } else if d == COLON && attr != [] {
        SkipSpacesFlat(s1);
        ReadLineIsFlat(SkipSpaces(s1), attr, value, true);
      } else if found {
        ReadLineIsFlat(s1, attr, Cut(value + [d], TEXT_SPACE), true);
      } else if IsSpace(d) {
        ReadLineIsFlat(s1, attr, value, false);
      } else {
        ReadLineIsFlat(s1, Cut(attr + [d], TEXT_SPACE), value, false);
      }
    }
  }

  // ----- A rendered line is read back

  /** A byte a header name may consist of: no colon, no white space, no NUL. */
  predicate NameBytes(s: bytes) {
    forall i :: 0 <= i < |s| ==> !IsSpace(s[i]) && s[i] != COLON && s[i] != NUL
  }

  /** A byte that can stand in a line: no line end and no NUL. */
  predicate LineText(s: bytes) {
    forall i :: 0 <= i < |s| ==> s[i] != CR && s[i] != LF && s[i] != NUL
  }

  /** What is left of a header value: each colon is dropped with the white space behind it. */
  function DropColons(v: bytes): (r: bytes)
    ensures |r| <= |v|
    decreases |v|
  {
    if v == [] then []
    else if v[0] == COLON then DropColons(v[1..][SpaceRun(v[1..])..])
    else [v[0]] + DropColons(v[1..])
  }

  /** The text does not end in a colon and white space, which would take what follows with it. */
  predicate EndsPlain(v: bytes) {
    forall i :: 0 <= i < |v| && v[i] == COLON ==> SpaceRun(v[i + 1..]) < |v| - i - 1
  }

  /** A value is left as it is if and only if it has no colon. */
  lemma {:induction false} DropColonsIff(v: bytes)
    ensures DropColons(v) == v <==> COLON !in v
    ensures NoNul(v) ==> NoNul(DropColons(v))
    ensures |DropColons(v)| == |v| <==> COLON !in v
    decreases |v|
  {
    if v != [] {
      assert v == [v[0]] + v[1..];
      if v[0] == COLON {
        DropColonsIff(v[1..][SpaceRun(v[1..])..]);
      } else {
        DropColonsIff(v[1..]);
      }
    }
  }

  lemma {:induction false} DropKeepsText(v: bytes, c: byte)
    requires c !in v
    ensures c !in DropColons(v)
    decreases |v|
  {
    if v != [] {
      if v[0] == COLON {
        DropKeepsText(v[1..][SpaceRun(v[1..])..], c);
      } else {
        DropKeepsText(v[1..], c);
      }
    }
  }

  lemma SpaceRunBefore(a: bytes, b: bytes)
    requires SpaceRun(a) < |a| || b == [] || !IsSpace(b[0])
    ensures SpaceRun(a + b) == SpaceRun(a)
  {
    var n := SpaceRun(a);
    assert n < |a| ==> (a + b)[n] == a[n];
    SpaceRunIs(a + b, n);
  }

  /** Text that does not start with white space is not touched by a colon ahead of it. */
  lemma {:induction false} DropColonsConcat(a: bytes, b: bytes)
    requires b == [] || !IsSpace(b[0])
    ensures DropColons(a + b) == DropColons(a) + DropColons(b)
    decreases |a|
  {
    if a == [] {
      assert a + b == b;
    } else {
      assert (a + b)[1..] == a[1..] + b;
      if a[0] == COLON {
        var n := SpaceRun(a[1..]);
        SpaceRunBefore(a[1..], b);
        assert (a[1..] + b)[n..] == a[1..][n..] + b;
        DropColonsConcat(a[1..][n..], b);
      } else {
        DropColonsConcat(a[1..], b);
      }
    }
  }

  lemma RestEndsPlain(v: bytes, n: nat)
    requires EndsPlain(v) && n <= |v|
    ensures EndsPlain(v[n..])
  {
    var r := v[n..];
    forall i | 0 <= i < |r| && r[i] == COLON ensures SpaceRun(r[i + 1..]) < |r| - i - 1 {
      assert r[i + 1..] == v[n + i + 1..];
      assert v[n + i] == COLON;
    }
  }

  /** A text that ends plainly leaves something, and that does not start with white space. */
  lemma {:induction false} DropColonsStarts(v: bytes)
    requires v != [] && !IsSpace(v[0]) && EndsPlain(v)
    ensures DropColons(v) != [] && !IsSpace(DropColons(v)[0])
    decreases |v|
  {
    if v[0] == COLON {
      var n := SpaceRun(v[1..]);
      RestOfRest(v, 1, n);
      RestEndsPlain(v, n + 1);
      DropColonsStarts(v[1..][n..]);
    }
  }

  /** The bytes of a text that are no white space. */
  function Solid(n: bytes): bytes {
    if n == [] then [] else if IsSpace(n[0]) then Solid(n[1..]) else [n[0]] + Solid(n[1..])
  }

  /** What can stand ahead of the colon: a colon only as the first byte of the name itself. */
  predicate NameSide(n: bytes) {
    n == [] ||
    (&& n[0] != CR && n[0] != LF
     && if IsSpace(n[0]) then NameSide(n[1..]) else forall i :: 1 <= i < |n| ==> NameByte(n[i]))
  }

  predicate NameByte(c: byte) {
    c != CR && c != LF && c != COLON
  }

  /** One byte of a line that is neither a line end nor a colon behind a name. */
  lemma {:induction false} ScanOne(c: byte, t: bytes, attr: bytes, value: bytes, found: bool)
    requires c != CR && c != LF && (c == COLON ==> attr == [])
    ensures ScanLine([c] + t, attr, value, found) ==
      if found then ScanLine(t, attr, Cut(value + [c], TEXT_SPACE), true)
      else if IsSpace(c) then ScanLine(t, attr, value, false)
      else ScanLine(t, Cut(attr + [c], TEXT_SPACE), value, false)
  {
    assert ([c] + t)[1..] == t;
  }

  lemma {:induction false} ScanNameBytes(n: bytes, attr: bytes, t: bytes)
    requires attr != [] && |attr| <= TEXT_SPACE && forall i :: 0 <= i < |n| ==> NameByte(n[i])
    ensures ScanLine(n + t, attr, [], false) == ScanLine(t, Cut(attr + Solid(n), TEXT_SPACE), [], false)
    decreases |n|
  {
    hide ScanLine;
    if n == [] {
      assert n + t == t && attr + Solid(n) == attr;
    } else {
      assert NameByte(n[0]);
      assert n + t == [n[0]] + (n[1..] + t);
      ScanOne(n[0], n[1..] + t, attr, [], false);
      if IsSpace(n[0]) {
        ScanNameBytes(n[1..], attr, t);
      } else {
        ScanNameBytes(n[1..], Cut(attr + [n[0]], TEXT_SPACE), t);
        LongerName(attr, n);
      }
    }
  }

  lemma LongerName(attr: bytes, n: bytes)
    requires n != [] && !IsSpace(n[0])
    ensures Cut(Cut(attr + [n[0]], TEXT_SPACE) + Solid(n[1..]), TEXT_SPACE) == Cut(attr + Solid(n), TEXT_SPACE)
  {
    hide Cut;
    CutOneMore(attr, n[0], Solid(n[1..]));
  }

  lemma CutOneMore(a: bytes, c: byte, b: bytes)
    ensures Cut(Cut(a + [c], TEXT_SPACE) + b, TEXT_SPACE) == Cut(a + ([c] + b), TEXT_SPACE)
  {
    hide Cut;
    CutTwice(a + [c], b);
    assert (a + [c]) + b == a + ([c] + b);
  }

  lemma CutTwice(a: bytes, b: bytes)
    ensures Cut(Cut(a, TEXT_SPACE) + b, TEXT_SPACE) == Cut(a + b, TEXT_SPACE)
  {
  }

  /** A name loses its white space, and what exceeds its buffer. */
  lemma {:induction false} ScanName(n: bytes, t: bytes)
    requires NameSide(n)
    ensures ScanLine(n + t, [], [], false) == ScanLine(t, Cut(Solid(n), TEXT_SPACE), [], false)
    decreases |n|
  {
    hide ScanLine;
    if n == [] {
      assert n + t == t;
    } else {
      assert n + t == [n[0]] + (n[1..] + t);
      ScanOne(n[0], n[1..] + t, [], [], false);
      if IsSpace(n[0]) {
        ScanName(n[1..], t);
      } else {
        ScanNameBytes(n[1..], [n[0]], t);
        assert [] + [n[0]] == [n[0]] && Cut([n[0]], TEXT_SPACE) == [n[0]];
      }
    }
  }

  /** A value is read with its colons dropped, as far as its buffer goes. */
  lemma {:induction false} ScanValue(v: bytes, t: bytes, attr: bytes, acc: bytes)
    requires LineText(v) && EndsPlain(v) && attr != [] && |acc| <= TEXT_SPACE
    ensures ScanLine(v + t, attr, acc, true) == ScanLine(t, attr, Cut(acc + DropColons(v), TEXT_SPACE), true)
    decreases |v|
  {
    hide EndsPlain, ScanLine, LineText, DropColons;
    if v == [] {
      DropColonsIff(v);
      assert v + t == t && acc + DropColons(v) == acc;
    } else if v[0] == COLON {
      var rest := ColonStep(v, t, attr, acc);
      ScanValue(rest, t, attr, acc);
    } else {
      PlainStep(v, t, attr, acc);
      ScanValue(v[1..], t, attr, Cut(acc + [v[0]], TEXT_SPACE));
    }
  }

  lemma {:induction false} ColonStep(v: bytes, t: bytes, attr: bytes, acc: bytes) returns (rest: bytes)
    requires LineText(v) && EndsPlain(v) && attr != [] && v != [] && v[0] == COLON
    ensures |rest| < |v| && LineText(rest) && EndsPlain(rest) && DropColons(v) == DropColons(rest)
    ensures ScanLine(v + t, attr, acc, true) == ScanLine(rest + t, attr, acc, true)
  {
    hide ScanLine, EndsPlain;
    var n := SpaceRun(v[1..]);
    rest := v[1..][n..];
    ColonIsNotLast(v);
    assert DropColons(v) == DropColons(rest);
    assert LineText(rest) by {
      assert forall i :: 0 <= i < |rest| ==> rest[i] == v[1 + n + i];
    }
    hide SpaceRun, DropColons, LineText;
    SplitBehind(v, n, t);
    ColonSwallows(v[1..][..n], rest + t, attr, acc, true);
    RestOfRest(v, 1, n);
    RestEndsPlain(v, n + 1);
  }

  lemma SplitBehind(v: bytes, n: nat, t: bytes)
    requires n + 1 <= |v|
    ensures v + t == [v[0]] + (v[1..][..n] + (v[1..][n..] + t))
  {
    assert v[1..] == v[1..][..n] + v[1..][n..];
    assert v == [v[0]] + v[1..];
  }

  lemma {:induction false} PlainStep(v: bytes, t: bytes, attr: bytes, acc: bytes)
    requires LineText(v) && EndsPlain(v) && v != [] && v[0] != COLON
    ensures LineText(v[1..]) && EndsPlain(v[1..])
    ensures ScanLine(v + t, attr, acc, true) == ScanLine(v[1..] + t, attr, Cut(acc + [v[0]], TEXT_SPACE), true)
    ensures Cut(Cut(acc + [v[0]], TEXT_SPACE) + DropColons(v[1..]), TEXT_SPACE) == Cut(acc + DropColons(v), TEXT_SPACE)
  {
    hide ScanLine, Cut, EndsPlain;
    RestEndsPlain(v, 1);
    assert v + t == [v[0]] + (v[1..] + t);
    ScanOneValue(v[0], v[1..] + t, attr, acc);
    CutOneMore(acc, v[0], DropColons(v[1..]));
  }

  lemma {:induction false} ScanOneValue(c: byte, t: bytes, attr: bytes, acc: bytes)
    requires c != CR && c != LF && c != COLON
    ensures ScanLine([c] + t, attr, acc, true) == ScanLine(t, attr, Cut(acc + [c], TEXT_SPACE), true)
  {
    hide ScanLine;
    ScanOne(c, t, attr, acc, true);
  }

  lemma ColonIsNotLast(v: bytes)
    requires EndsPlain(v) && v != [] && v[0] == COLON
    ensures SpaceRun(v[1..]) < |v[1..]|
  {
  }

  const CRLF: bytes := [CR, LF]

  function RenderLine(name: bytes, value: bytes): bytes {
    name + [COLON, SPACE] + value + CRLF
  }

  /** A line ends at CR LF, at LF, and at a CR that no LF follows. */
  predicate LineEnd(e: bytes, t: bytes) {
    e == CRLF || e == [LF] || (e == [CR] && (t == [] || t[0] != LF))
  }

  lemma {:induction false} ScanEnd(e: bytes, t: bytes, attr: bytes, value: bytes, found: bool)
    requires LineEnd(e, t)
    ensures ScanLine(e + t, attr, value, found) == FlatEndLine(attr, value, t)
  {
    assert (e + t)[|e|..] == t;
  }

  lemma ScanCrLf(attr: bytes, value: bytes, t: bytes, found: bool)
    ensures ScanLine(CRLF + t, attr, value, found) == FlatEndLine(attr, value, t)
  {
    ScanEnd(CRLF, t, attr, value, found);
  }

  /** A colon takes all white space behind it along, line ends included. */
  lemma {:induction false} ColonSwallows(white: bytes, t: bytes, attr: bytes, value: bytes, found: bool)
    requires attr != [] && (forall i :: 0 <= i < |white| ==> IsSpace(white[i])) && (t == [] || !IsSpace(t[0]))
    ensures ScanLine([COLON] + (white + t), attr, value, found) == ScanLine(t, attr, value, true)
  {
    var s := [COLON] + (white + t);
    assert s[1..] == white + t;
    SpaceRunIs(white + t, |white|);
    assert (white + t)[|white|..] == t;
  }

  /** Any line with a colon: a name without its white space, a value without its colons, both as far as their buffers
      go, and one of three line ends. */
  lemma {:induction false} ScanAnyLine(n: bytes, white: bytes, v: bytes, e: bytes, t: bytes)
    requires NameSide(n) && Solid(n) != [] && forall i :: 0 <= i < |white| ==> IsSpace(white[i])
    requires LineText(v) && EndsPlain(v) && v != [] && !IsSpace(v[0]) && LineEnd(e, t)
    ensures ScanLine(n + ([COLON] + (white + (v + (e + t)))), [], [], false)
         == FlatHeader(CStr(Cut(Solid(n), 1023)), CStr(Cut(DropColons(v), 1023)), t)
  {
    hide ScanLine, EndsPlain, LineText, DropColons, NameSide, Solid, CStr;
    var attr := Cut(Solid(n), TEXT_SPACE);
    ScanName(n, [COLON] + (white + (v + (e + t))));
    ColonSwallows(white, v + (e + t), attr, [], false);
    DropColonsStarts(v);
    assert [] + DropColons(v) == DropColons(v);
    ScanValue(v, e + t, attr, []);
    ScanEnd(e, t, attr, Cut(DropColons(v), TEXT_SPACE), true);
  }

  /** A line without a colon ends the headers; a blank line is one. */
  lemma {:induction false} NoColonEnds(n: bytes, e: bytes, t: bytes)
    requires NameSide(n) && LineEnd(e, t)
    ensures ScanLine(n + (e + t), [], [], false) == FlatEnd(t)
  {
    hide ScanLine, NameSide, Solid;
    ScanName(n, e + t);
    ScanEnd(e, t, Cut(Solid(n), TEXT_SPACE), [], false);
  }

  /** So does the end of the input, wherever it comes. */
  lemma {:induction false} OpenLineEnds(u: bytes, attr: bytes, value: bytes, found: bool)
    requires forall i :: 0 <= i < |u| ==> u[i] != CR && u[i] != LF
    ensures ScanLine(u, attr, value, found) == FlatEnd([])
    decreases |u|
  {
    if u != [] {
      if u[0] == COLON && attr != [] {
        OpenLineEnds(u[1..][SpaceRun(u[1..])..], attr, value, true);
      } else if found {
        OpenLineEnds(u[1..], attr, Cut(value + [u[0]], TEXT_SPACE), true);
      } else if IsSpace(u[0]) {
        OpenLineEnds(u[1..], attr, value, false);
      } else {
        OpenLineEnds(u[1..], Cut(attr + [u[0]], TEXT_SPACE), value, false);
      }
    }
  }

  lemma {:induction false} NameIsSolid(name: bytes)
    requires NameBytes(name)
    ensures NameSide(name) && Solid(name) == name
  {
    if name != [] {
      NameIsSolid(name[1..]);
      assert name == [name[0]] + name[1..];
      assert forall i :: 1 <= i < |name| ==> NameByte(name[i]);
    }
  }

  /** A line "name: value" comes back as its name and what is left of its value. */
  lemma {:induction false} ScanRendered(name: cstring, value: cstring, t: bytes)
    requires NameBytes(name) && 0 < |name| <= TEXT_SPACE
    requires LineText(value) && EndsPlain(value) && value != [] && !IsSpace(value[0])
    ensures NoNul(DropColons(value))
    ensures ScanLine(RenderLine(name, value) + t, [], [], false)
         == FlatHeader(name, Cut(DropColons(value), TEXT_SPACE), t)
  {
    hide ScanLine, EndsPlain, LineText, DropColons, NameSide, Solid, CStr;
    DropColonsIff(value);
    NameIsSolid(name);
    ScanAnyLine(name, [SPACE], value, CRLF, t);
    assert RenderLine(name, value) + t == name + ([COLON] + ([SPACE] + (value + (CRLF + t))));
    CStrWhole(name);
    CStrWhole(Cut(DropColons(value), TEXT_SPACE));
  }

  // ----- readHeaderLine itself

  /** The stream behind the white space that follows a colon. */
  method SkipSpaceBytes(mp: MpStream, d: array<byte>)
    requires mp.Valid() && d.Length == 1 && d != mp.putback
    requires |mp.View().queue| + 1 < CAPACITY
    modifies mp, mp.putback, d
    ensures mp.Valid() && mp.View() == SkipSpaces(old(mp.View()))
    ensures |mp.View().queue| <= |old(mp.View()).queue| || |mp.View().queue| <= 1
  {
    hide Flat, Drop;
    ghost var v := mp.View();
    while true
      invariant mp.Valid() && SkipSpaces(mp.View()) == SkipSpaces(v)
      invariant |mp.View().queue| <= |v.queue|
      decreases Size(mp.View())
    {
      ghost var s := mp.View();
      if Size(mp.View()) > 0 {
        DropOne(mp.View());
      }
      var ok := mp.ReadByte(d);
      if !ok {
        return;
      }
      if !IsSpace(d[0]) {
        assert d[..1] == [Head(s)];
        mp.Unread(d[..1]);
        return;
      }
    }
  }

  /** What may stand behind a carriage return. */
  method SkipLfByte(mp: MpStream, d: array<byte>)
    requires mp.Valid() && d.Length == 1 && d != mp.putback
    requires |mp.View().queue| + 1 < CAPACITY
    modifies mp, mp.putback, d
    ensures mp.Valid() && mp.View() == SkipLf(old(mp.View()))
    ensures |mp.View().queue| <= |old(mp.View()).queue| || |mp.View().queue| <= 1
  {
    ghost var s := mp.View();
    var ok := mp.ReadByte(d);
    if ok {
      DropOne(s);
      if d[0] != LF {
        assert d[..1] == [Head(s)];
        mp.Unread(d[..1]);
      }
    }
  }

  /** The loop: fills both buffers up to the end of the line, or fails at the end of the input. */
  method FillLine(mp: MpStream, attr: array<byte>, value: array<byte>)
    returns (ended: bool, attrLen: nat, valueLen: nat)
    requires mp.Valid() && |mp.View().queue| + 2 < CAPACITY
    requires attr.Length == value.Length == TEXT_SPACE + 1
    requires attr != value && attr != mp.putback && value != mp.putback
    modifies mp, mp.putback, attr, value
    ensures mp.Valid() && attrLen <= TEXT_SPACE && valueLen <= TEXT_SPACE
    ensures |mp.View().queue| <= |old(mp.View()).queue| || |mp.View().queue| <= 1
    ensures ReadLine(old(mp.View()), [], [], false)
         == if ended then EndLine(attr[..attrLen], value[..valueLen], mp.View()) else HeaderEnd(mp.View())
  {
    hide Flat, Drop, SkipSpaces, SkipLf, PutBack, CStr, EndLine, Cut;
    var d := new byte[1];
    var valueFound := false;
    attrLen, valueLen := 0, 0;
    ghost var q := |mp.View().queue|;
    while true
      invariant mp.Valid() && (|mp.View().queue| <= q || |mp.View().queue| <= 1)
      invariant attrLen <= TEXT_SPACE && valueLen <= TEXT_SPACE
      invariant ReadLine(mp.View(), attr[..attrLen], value[..valueLen], valueFound)
             == ReadLine(old(mp.View()), [], [], false)
      decreases Size(mp.View())
    {
      if Size(mp.View()) > 0 {
        DropOne(mp.View());
      }
      ended := mp.ReadByte(d);
      if !ended {
        return;
      }
      if d[0] == CR {
        SkipLfByte(mp, d);
        return;
      } else if d[0] == LF {
        return;
      } else if d[0] == COLON && attrLen > 0 {
        valueFound := true;
        SkipSpaceBytes(mp, d);
      } else if !valueFound {
        if !IsSpace(d[0]) {
          attrLen := Append(attr, attrLen, d[0]);
        }
      } else {
        valueLen := Append(value, valueLen, d[0]);
      }
    }
  }

  method ReadHeaderLine(mp: MpStream, attr: array<byte>, value: array<byte>) returns (ok: bool)
    requires mp.Valid() && |mp.View().queue| + 2 < CAPACITY
    requires attr.Length == value.Length == TEXT_SPACE + 1
    requires attr != value && attr != mp.putback && value != mp.putback
    modifies mp, mp.putback, attr, value
    ensures mp.Valid()
    ensures |mp.View().queue| <= |old(mp.View()).queue| || |mp.View().queue| <= 1
    ensures match ReadLine(old(mp.View()), [], [], false)
            case HeaderEnd(s) => !ok && mp.View() == s
            case Header(a, v, s) => ok && CStr(attr[..]) == a && CStr(value[..]) == v && mp.View() == s
  {
    hide ReadLine, CStr;
    var ended, attrLen, valueLen := FillLine(mp, attr, value);
    if !ended {
      return false;
    }
    Terminate(attr, attrLen);
    Terminate(value, valueLen);
    ok := attrLen > 0 && valueLen > 0;
  }
}

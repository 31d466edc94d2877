/** afterNextBoundary over the ring buffer: it runs the machine of BoundarySearch. */
module BoundaryReader {
  import opened Bytes
  import opened Streams
  import opened BoundarySearch

  /** Where the body goes: nowhere, to the temporary file of an upload, or to a growing buffer. */
  datatype Sink = Discard | ToFile | ToMemory

  /** The longest boundary main can cut from its 1024-byte content type buffer. */
  const MAX_BOUNDARY: nat := 1013

  /** No more than this is ever pending; it stays below the capacity of the ring. */
  function QueueBound(boundary: cstring): nat {
    |boundary| + 3
  }

  predicate InBound(st: Scan, bound: nat) {
    st.s.queue == [] || |st.s.queue| + st.matched <= bound
  }

  lemma StepStaysInBound(st: Scan, p: bytes, bound: nat)
    requires st.matched < |p| && Size(st.s) > 0 && |p| <= bound + 1 && InBound(st, bound)
    ensures InBound(ScanStep(st, p), bound)
  {
  }

  lemma StepDecreases(st: Scan, p: bytes)
    requires st.matched < |p| && Size(st.s) > 0
    ensures var e := ScanStep(st, p);
      && e.matched <= |p|
      && Size(e.s) + e.matched <= Size(st.s) + st.matched
      && (Size(e.s) + e.matched == Size(st.s) + st.matched ==> e.matched > st.matched)
  {
  }

  lemma PutBackTwice(s: Stream, a: bytes, b: bytes)
    ensures PutBack(PutBack(s, a), b) == PutBack(s, a + b)
  {
    assert (s.queue + a) + b == s.queue + (a + b);
  }

  /** The destination of a body, as the BAPPEND and RAPPEND macros fill it. */
  class Output {
    const sink: Sink
    var file: bytes               // the temporary file
    var buffer: array<byte>       // out, of outSpace bytes
    var len: nat                  // outLen

    ghost predicate Valid()
      reads this, buffer
    {
      match sink
      case Discard => len == 0
      case ToFile => len == |file|
      case ToMemory => len < buffer.Length
    }

    ghost function Stored(): bytes
      requires Valid()
      reads this, buffer
    {
      match sink
      case Discard => []
      case ToFile => file
      case ToMemory => buffer[..len]
    }

    constructor (sink: Sink)
      ensures Valid() && fresh(buffer) && this.sink == sink && Stored() == []
    {
      this.sink := sink;
      file, len := [], 0;
      buffer := new byte[256];
    }

    /** RAPPEND: the buffer doubles when only the place of the terminator is left. */
    method Grow()
      requires sink == ToMemory && Valid()
      modifies this
      ensures Valid() && len + 1 < buffer.Length && (buffer == old(buffer) || fresh(buffer))
      ensures len == old(len) && Stored() == old(Stored())
    {
      if len + 1 == buffer.Length {
        var sold := buffer;
        buffer := new byte[2 * sold.Length];
        forall i | 0 <= i < len {
          buffer[i] := sold[i];
        }
      }
    }

    /** BAPPEND: nothing is stored, and nothing counted, if there is no sink. */
    method Emit(c: byte)
      requires Valid()
      modifies this, buffer
      ensures Valid() && (buffer == old(buffer) || fresh(buffer))
      ensures Stored() == if sink == Discard then [] else old(Stored()) + [c]
    {
      match sink
      case Discard =>
      case ToFile =>
        file := file + [c];
        len := len + 1;
      case ToMemory =>
        Grow();
        buffer[len] := c;
        len := len + 1;
    }

    /** The terminator is added and the spare space given back. */
    method Finish()
      requires Valid()
      modifies this, buffer
      ensures Valid() && Stored() == old(Stored()) && len == |Stored()|
      ensures sink == ToMemory ==> buffer.Length == len + 1 && buffer[len] == NUL
    {
      if sink == ToMemory {
        buffer[len] := NUL;
        var oout := buffer;
        buffer := new byte[len + 1](i requires 0 <= i < oout.Length reads oout => oout[i]);
        assert buffer[..len] == oout[..len];
      }
    }
  }

  /** The body an entry gets: what the sink holds after a successful search. */
  function Kept(sink: Sink, body: bytes): bytes {
    if sink == Discard then [] else body
  }

  /** All of a false match but its first byte goes back, and the byte that broke it. */
  method UnreadMismatch(mp: MpStream, p: bytes, boffset: nat, d: byte)
    requires mp.Valid() && 0 < boffset < |p|
    requires |mp.View().queue| + boffset < CAPACITY && boffset <= mp.offset
    modifies mp, mp.putback
    ensures mp.Valid() && mp.View() == PutBack(old(mp.View()), p[1..boffset] + [d])
    ensures mp.offset == old(mp.offset) - boffset
  {
    PutBackTwice(mp.View(), p[1..boffset], [d]);
    mp.Unread(p[1..boffset]);
    mp.Unread([d]);
  }

  /** One round of the scanning loop, with the byte d read and the state st it started from. */
  method TakeByte(mp: MpStream, p: bytes, out: Output, boffset: nat, d: byte, ghost st: Scan) returns (next: nat)
    requires mp.Valid() && boffset == st.matched < |p| && boffset < mp.offset
    requires Size(st.s) > 0 && d == Flat(st.s)[0] && mp.View() == Drop(st.s, 1)
    requires |mp.View().queue| + boffset < CAPACITY
    requires out.Valid() && out.Stored() == Kept(out.sink, st.body) && mp.putback != out.buffer
    modifies mp, mp.putback, out, out.buffer
    ensures mp.Valid() && mp.View() == ScanStep(st, p).s && next == ScanStep(st, p).matched <= mp.offset
    ensures out.Valid() && out.Stored() == Kept(out.sink, ScanStep(st, p).body)
    ensures out.buffer == old(out.buffer) || fresh(out.buffer)
  {
    hide Flat, Drop, PutBack;
    next := boffset;
    if d == p[boffset] {
      next := boffset + 1;
    } else if boffset > 0 {
      out.Emit(p[0]);
      UnreadMismatch(mp, p, boffset, d);
      next := 0;
    } else {
      out.Emit(d);
    }
  }

  /** The scanning loop: everything ahead of the pattern p is emitted. */
  method ScanBody(mp: MpStream, p: bytes, out: Output, bound: nat) returns (matched: bool)
    requires mp.Valid() && |mp.View().queue| <= bound < CAPACITY && 0 < |p| <= bound + 1
    requires out.Valid() && out.Stored() == []
    requires mp.putback != out.buffer
    modifies mp, mp.putback, out, out.buffer
    ensures mp.Valid() && out.Valid()
    ensures match Run(Scan(old(mp.View()), 0, []), p)
            case InputEnded => !matched && Size(mp.View()) == 0
            case Matched(e) => matched && mp.View() == e.s && out.Stored() == Kept(out.sink, e.body)
    ensures out.buffer == old(out.buffer) || fresh(out.buffer)
  {
    hide Flat, Drop, PutBack, ScanStep;
    var d := new byte[1];
    var boffset := 0;
    ghost var st := Scan(mp.View(), 0, []);
    ghost var start := st;
    while boffset < |p|
      invariant mp.Valid() && boffset <= |p| && boffset <= mp.offset
      invariant st.s == mp.View() && st.matched == boffset && InBound(st, bound)
      invariant Run(st, p) == Run(start, p)
      invariant out.Valid() && out.Stored() == Kept(out.sink, st.body)
      invariant d != out.buffer && mp.putback != out.buffer
      invariant out.buffer == old(out.buffer) || fresh(out.buffer)
      decreases Size(st.s) + boffset, |p| - boffset
    {
      var ok := mp.ReadByte(d);
      if !ok {
        return false;
      }
      DropOne(st.s);
      StepStaysInBound(st, p, bound);
      StepDecreases(st, p);
      boffset := TakeByte(mp, p, out, boffset, d[0], st);
      st := ScanStep(st, p);
    }
    matched := true;
  }

  /** The two bytes behind the delimiter: a line end, or the dashes that end the last part. */
  method ReadTrailer(mp: MpStream) returns (ok: bool)
    requires mp.Valid() && |mp.View().queue| + 2 < CAPACITY
    modifies mp, mp.putback
    ensures mp.Valid()
    ensures ok <==> Size(old(mp.View())) >= 2
    ensures mp.View() == if ok then SkipLineEnd(old(mp.View())) else Drop(old(mp.View()), Size(old(mp.View())))
  {
    var d := new byte[2];
    var got := mp.Read(d, 2);
    ok := got == 2;
    if ok {
      assert d[..2] == Flat(old(mp.View()))[..2];
      if d[0] == CR && d[1] == LF {
        // an ordinary line end
      } else if d[0] == DASH {
        mp.Unread(d[..2]);
      }
    }
  }

  method AfterNextBoundary(mp: MpStream, boundary: cstring, sink: Sink, first: bool)
    returns (found: bool, body: bytes, bodyLength: nat)
    requires mp.Valid() && |boundary| <= MAX_BOUNDARY
    requires |mp.View().queue| <= QueueBound(boundary)
    modifies mp, mp.putback
    ensures mp.Valid() && |mp.View().queue| <= QueueBound(boundary)
    ensures match SearchFor(old(mp.View()), Pattern(boundary, first))
            case Missing => !found && body == [] && bodyLength == 0 && mp.View() == Stream([], [])
            case Found(b, s) => found && body == Kept(sink, b) && bodyLength == |body| && mp.View() == s
  {
    hide Flat, Run;
    found, body, bodyLength := false, [], 0;
    var out := new Output(sink);
    var p := Pattern(boundary, first);
    SearchQueue(mp.View(), p, QueueBound(boundary));
    RunQueue(Scan(mp.View(), 0, []), p, QueueBound(boundary));
    var matched := ScanBody(mp, p, out, QueueBound(boundary));
    if !matched {
      return;
    }
    var ok := ReadTrailer(mp);
    if !ok {
      return;
    }
    out.Finish();
    found := true;
    bodyLength := out.len;
    body := match sink case Discard => [] case ToFile => out.file case ToMemory => out.buffer[..out.len];
  }
}

/** The put-back stream of the multipart parser: a 1024-byte ring in front of cgiIn. */
module Streams {
  import opened Bytes

  const CAPACITY: nat := 1024

  /** The stream as its callers see it: bytes put back and not yet read again, then unread input. */
  datatype Stream = Stream(queue: bytes, rest: bytes)

  function Flat(s: Stream): (t: bytes)
    ensures |t| == Size(s)
  {
    s.queue + s.rest
  }

  function Size(s: Stream): nat {
    |s.queue| + |s.rest|
  }

  /** How many of len wanted bytes a stream can deliver. */
  function Available(s: Stream, len: nat): nat {
    if len <= Size(s) then len else Size(s)
  }

  /** Reading k bytes uses up the queue first. */
  function Drop(s: Stream, k: nat): Stream
    requires k <= Size(s)
  {
    var fromQueue := if k <= |s.queue| then k else |s.queue|;
    Stream(s.queue[fromQueue..], s.rest[k - fromQueue..])
  }

  /** What is read is a prefix of the stream; the rest stays in order. */
  lemma DropFlat(s: Stream, k: nat)
    requires k <= Size(s)
    ensures Flat(Drop(s, k)) == Flat(s)[k..]
  {
  }

  lemma DropOne(s: Stream)
    requires Size(s) > 0
    ensures Flat(Drop(s, 1)) == Flat(s)[1..] && Size(Drop(s, 1)) == Size(s) - 1
    ensures |Drop(s, 1).queue| == if s.queue == [] then 0 else |s.queue| - 1
  {
    DropFlat(s, 1);
    hide Flat;
    if s.queue == [] {
      assert Drop(s, 1).queue == [];
    } else {
      assert Drop(s, 1).queue == s.queue[1..];
    }
  }

  /** Putting back adds at the far end of the queue: a FIFO, not a stack. */
  function PutBack(s: Stream, data: bytes): Stream {
    Stream(s.queue + data, s.rest)
  }

  lemma FlatPutBack(s: Stream, data: bytes)
    requires s.queue == []
    ensures Flat(PutBack(s, data)) == data + Flat(s)
  {
  }

  /** A put-back is a true un-read exactly when the queue is empty or the order cannot matter. */
  lemma UnreadIffCommutes(s: Stream, data: bytes)
    ensures Flat(PutBack(s, data)) == data + Flat(s) <==> s.queue + data == data + s.queue
  {
    var q, r := s.queue, s.rest;
    assert (data + q) + r == data + (q + r);
    assert q + data == ((q + data) + r)[..|q| + |data|];
    assert data + q == ((data + q) + r)[..|q| + |data|];
  }

  /** The ring position behind i: (i + 1) % CAPACITY. */
  function Succ(i: nat): nat
    requires i < CAPACITY
  {
    if i + 1 == CAPACITY then 0 else i + 1
  }

  lemma SuccIsModulo(i: nat)
    requires i < CAPACITY
    ensures (i + 1) % CAPACITY == Succ(i)
  {
  }

  /** How many bytes lie between the read and the write position of a ring. */
  function Distance(r: nat, w: nat): nat
    requires r < CAPACITY && w < CAPACITY
  {
    if r <= w then w - r else CAPACITY - r + w
  }

  /** The bytes of a ring from the read position up to the write position. */
  function PendingOf(ring: bytes, r: nat, w: nat): (p: bytes)
    requires |ring| == CAPACITY && r < CAPACITY && w < CAPACITY
    ensures |p| == Distance(r, w)
    decreases Distance(r, w)
  {
    if r == w then [] else [ring[r]] + PendingOf(ring, Succ(r), w)
  }

  lemma {:induction false} PushPending(ring: bytes, r: nat, w: nat, c: byte)
    requires |ring| == CAPACITY && r < CAPACITY && w < CAPACITY
    requires Distance(r, w) + 1 < CAPACITY
    ensures PendingOf(ring[w := c], r, Succ(w)) == PendingOf(ring, r, w) + [c]
    decreases Distance(r, w)
  {
    if r != w {
      PushPending(ring, Succ(r), w, c);
    }
  }

  /** One byte more than fits makes the ring read as empty: its capacity is CAPACITY - 1. */
  lemma FullRingReadsEmpty(ring: bytes, r: nat, w: nat)
    requires |ring| == CAPACITY && r < CAPACITY && w < CAPACITY
    ensures PendingOf(ring, r, Succ(w)) == [] <==> Distance(r, w) == 1023
  {
    assert |PendingOf(ring, r, Succ(w))| == Distance(r, Succ(w));
  }

  class MpStream {
    const putback: array<byte>
    var readPos: nat
    var writePos: nat
    var offset: int
    const input: bytes            // everything cgiIn will ever deliver
    const contentLength: nat
    var taken: nat                // bytes of input that fread has handed out

    /** What the parser may see of the input. */
    ghost function Data(): bytes {
      Cut(input, contentLength)
    }

    /** Positions are in range, and every byte taken from the input is consumed or pending. */
    ghost predicate Valid()
      reads this, putback
    {
      && putback.Length == CAPACITY && readPos < CAPACITY && writePos < CAPACITY
      && 0 <= offset
      && taken <= |Data()|
      && offset + |Pending()| == taken
    }

    ghost function Pending(): bytes
      requires putback.Length == CAPACITY && readPos < CAPACITY && writePos < CAPACITY
      reads this, putback
    {
      PendingOf(putback[..], readPos, writePos)
    }

    ghost function View(): Stream
      requires Valid()
      reads this, putback
    {
      Stream(Pending(), Data()[taken..])
    }

    constructor (input: bytes, contentLength: nat)
      ensures Valid() && fresh(putback)
      ensures this.input == input && this.contentLength == contentLength
      ensures View() == Stream([], Cut(input, contentLength)) && offset == 0
    {
      putback := new byte[CAPACITY](_ => 0);
      readPos, writePos, offset, taken := 0, 0, 0, 0;
      this.input, this.contentLength := input, contentLength;
    }

    /** fread(buffer + at, 1, len, cgiIn) */
    method FRead(buffer: array<byte>, at: nat, len: nat) returns (got: nat)
      requires taken <= |input| && at + len <= buffer.Length
      modifies this`taken, buffer
      ensures got == if len <= |input| - old(taken) then len else |input| - old(taken)
      ensures taken == old(taken) + got
      ensures forall j :: at <= j < at + got ==> buffer[j] == input[old(taken) + (j - at)]
      ensures forall i :: 0 <= i < buffer.Length && !(at <= i < at + got) ==> buffer[i] == old(buffer[i])
    {
      got := if len <= |input| - taken then len else |input| - taken;
      forall i | 0 <= i < got {
        buffer[at + i] := input[taken + i];
      }
      taken := taken + got;
    }

    /** The loop of mpRead: bytes come out of the ring until it is empty or enough were read. */
    method ReadPending(buffer: array<byte>, len: nat) returns (got: nat)
      requires Valid() && len <= buffer.Length && buffer != putback
      modifies `readPos, buffer
      ensures putback.Length == CAPACITY && readPos < CAPACITY && writePos < CAPACITY
      ensures putback[..] == old(putback[..])
      ensures got == if len <= |old(Pending())| then len else |old(Pending())|
      ensures Pending() == old(Pending())[got..]
      ensures forall i :: 0 <= i < got ==> buffer[i] == old(Pending())[i]
      ensures forall i :: got <= i < buffer.Length ==> buffer[i] == old(buffer[i])
    {
      got := 0;
      var want := len;
      ghost var ring, w := putback[..], writePos;
      ghost var p0 := PendingOf(ring, readPos, w);
      while want > 0 && readPos != writePos
        invariant 0 <= want && want + got == len && writePos == w
        invariant readPos < CAPACITY && putback[..] == ring
        invariant got <= |p0| && PendingOf(ring, readPos, w) == p0[got..]
        invariant forall i :: 0 <= i < got ==> buffer[i] == p0[i]
        invariant forall i :: got <= i < buffer.Length ==> buffer[i] == old(buffer[i])
      {
        DropStep(p0, got, ring[readPos], PendingOf(ring, Succ(readPos), w));
        assert putback[readPos] == ring[readPos];
        buffer[got] := putback[readPos];
        SuccIsModulo(readPos);
        readPos := (readPos + 1) % CAPACITY;
        got := got + 1;
        want := want - 1;
      }
    }

    /** Reading without the distinction between the two kinds of end. */
    method ReadAvailable(buffer: array<byte>, len: nat) returns (got: nat)
      requires Valid() && len <= buffer.Length && buffer != putback
      modifies `readPos, `offset, `taken, buffer
      ensures Valid()
      ensures got == Available(old(View()), len)
      ensures View() == Drop(old(View()), got)
      ensures forall i :: 0 <= i < got ==> buffer[i] == Flat(old(View()))[i]
      ensures forall i :: got <= i < buffer.Length ==> buffer[i] == old(buffer[i])
      ensures offset == old(offset) + got
    {
      ghost var v := View();
      assert Size(v) == |Data()| - offset;
      var want := if len > contentLength - offset then contentLength - offset else len;
      got := ReadPending(buffer, want);
      ghost var fromQueue := got;
      if want > got {
        assert got == |v.queue|;
        var fgot := FRead(buffer, got, want - got);
        got := got + fgot;
      }
      assert got == Available(v, len);
      offset := offset + got;
      assert Data()[taken..] == v.rest[got - fromQueue..];
    }

    /** mpRead: the longest available prefix of pending and then input, up to len bytes. */
    method Read(buffer: array<byte>, len: nat) returns (got: int)
      requires Valid() && len <= buffer.Length && buffer != putback
      modifies `readPos, `offset, `taken, buffer
      ensures Valid()
      ensures got == if Available(old(View()), len) == 0 && len > 0 && old(offset) == contentLength then -1
                     else Available(old(View()), len)
      ensures View() == Drop(old(View()), Available(old(View()), len))
      ensures forall i :: 0 <= i < Available(old(View()), len) ==> buffer[i] == Flat(old(View()))[i]
      ensures forall i :: Available(old(View()), len) <= i < buffer.Length ==> buffer[i] == old(buffer[i])
      ensures offset == old(offset) + Available(old(View()), len)
    {
      got := ReadAvailable(buffer, len);
      if got == 0 && len > 0 && offset == contentLength {
        got := -1;
      }
    }

    /** mpRead(mpp, d, 1) == 1 */
    method ReadByte(d: array<byte>) returns (ok: bool)
      requires Valid() && d.Length >= 1 && d != putback
      modifies `readPos, `offset, `taken, d
      ensures Valid()
      ensures ok <==> Size(old(View())) > 0
      ensures ok ==> d[0] == Flat(old(View()))[0] && View() == Drop(old(View()), 1) && offset == old(offset) + 1
      ensures !ok ==> View() == old(View()) && offset == old(offset)
    {
      var got := Read(d, 1);
      ok := got == 1;
    }

    /** mpPutBack. Its comment asks callers to keep at most sizeof(putback) bytes pending;
        the code loses all of them at exactly that number (FullRingReadsEmpty). */
    method Unread(data: bytes)
      requires Valid() && |data| + |Pending()| < CAPACITY && |data| <= offset
      modifies this, putback
      ensures Valid() && View() == PutBack(old(View()), data)
      ensures offset == old(offset) - |data|
    {
      ghost var p0 := Pending();
      offset := offset - |data|;
      var i := 0;
      while i < |data|
        modifies `writePos, putback
        invariant i <= |data| && writePos < CAPACITY
        invariant Pending() == p0 + data[..i]
      {
        PushPending(putback[..], readPos, writePos, data[i]);
        ghost var ring := putback[..];
        putback[writePos] := data[i];
        assert putback[..] == ring[writePos := data[i]];
        SuccIsModulo(writePos);
        writePos := (writePos + 1) % CAPACITY;
        i := i + 1;
      }
      assert Pending() == p0 + data;
    }
  }
}

/** Saving and restoring over files, with the 1024-byte buffers of the copy loops. */
module EnvironmentFiles {
  import opened Bytes
  import opened FormEntries
  import opened Environment

  const CHUNK: nat := 1024

  /** A file that is read from the front or appended to. */
  class File {
    var data: bytes
    var pos: nat

    ghost predicate Valid()
      reads this
    {
      pos <= |data|
    }

    ghost function Rest(): bytes
      requires Valid()
      reads this
    {
      data[pos..]
    }

    constructor (data: bytes)
      ensures Valid() && this.data == data && Rest() == data
    {
      this.data, pos := data, 0;
    }

    /** fread */
    method Read(buffer: array<byte>, n: nat) returns (got: nat)
      requires Valid() && n <= buffer.Length
      modifies `pos, buffer
      ensures Valid() && got == if n <= |old(Rest())| then n else |old(Rest())|
      ensures buffer[..got] == old(Rest())[..got] && Rest() == old(Rest())[got..]
    {
      got := if n <= |data| - pos then n else |data| - pos;
      forall i | 0 <= i < got {
        buffer[i] := data[pos + i];
      }
      assert buffer[..got] == data[pos..][..got];
      pos := pos + got;
    }

    /** fwrite */
    method Write(b: bytes)
      modifies `data
      ensures data == old(data) + b
    {
      data := data + b;
    }
  }

  // ----- Writing

  method PutInt(out: File, i: int)
    requires IsInt(i)
    modifies out`data
    ensures out.data == old(out.data) + EncodeInt(i)
  {
    out.Write(EncodeInt(i));
  }

  method PutString(out: File, s: cstring)
    requires |s| < INT_LIMIT
    modifies out`data
    ensures out.data == old(out.data) + EncodeString(s)
  {
    PutInt(out, |s|);
    out.Write(s);
  }

  /** The copy loop of cgiWriteEnvironment: chunk by chunk until nothing more is read. */
  method CopyAll(fp: File, out: File)
    requires fp.Valid() && fp != out
    modifies fp`pos, out`data
    ensures fp.Valid() && out.data == old(out.data) + old(fp.Rest())
  {
    var buffer := new byte[CHUNK];
    ghost var rest := fp.Rest();
    while true
      invariant fp.Valid() && out.data + fp.Rest() == old(out.data) + rest
      decreases |fp.Rest()|
    {
      ghost var before, more := out.data, fp.Rest();
      var got := fp.Read(buffer, CHUNK);
      if got == 0 {
        assert out.data == out.data + fp.Rest();
        return;
      }
      out.Write(buffer[..got]);
      assert more == more[..got] + more[got..];
      assert before + (more[..got] + more[got..]) == (before + more[..got]) + more[got..];
    }
  }

  /** cgiFormFileOpen: the upload of the first entry of that name. */
  method FormFileOpen(form: Form, name: cstring) returns (fp: File?)
    requires form.Valid()
    modifies form`findTarget, form`findPos, form`findIndex
    ensures form.Valid()
    ensures match UploadOf(form.Entries(), name)
            case None => fp == null
            case Some(b) => fp != null && fresh(fp) && fp.Valid() && fp.Rest() == b
  {
    var e := form.FindFirst(name);
    if e == null || e.entry.upload == None {
      return null;
    }
    fp := new File(e.entry.upload.value);
  }

  method PutStrings(out: File, ss: seq<cstring>)
    requires forall i :: 0 <= i < |ss| ==> |ss[i]| < INT_LIMIT
    modifies out`data
    ensures out.data == old(out.data) + EncodeStrings(ss)
  {
    hide EncodeString;
    var i := 0;
    assert ss[0..] == ss;
    while i < |ss|
      invariant i <= |ss| && out.data + EncodeStrings(ss[i..]) == old(out.data) + EncodeStrings(ss)
    {
      ghost var before := out.data;
      PutString(out, ss[i]);
      assert ss[i..][1..] == ss[i + 1..];
      assert before + (EncodeString(ss[i]) + EncodeStrings(ss[i + 1..]))
          == (before + EncodeString(ss[i])) + EncodeStrings(ss[i + 1..]);
      i := i + 1;
    }
    assert ss[i..] == [] && out.data + [] == out.data;
  }

  /** One entry, with the upload found under its name. */
  method PutEntry(out: File, form: Form, e: Entry)
    requires form.Valid() && EntryFits(e)
    modifies out`data, form`findTarget, form`findPos, form`findIndex
    ensures form.Valid()
    ensures out.data == old(out.data) + EncodeEntry(e, UploadOf(form.Entries(), e.attr))
  {
    hide EncodeString, EncodeInt, Form.Entries, UploadOf, CStr, Form.Valid;
    ghost var u := UploadOf(form.Entries(), e.attr);
    ghost var d := out.data;
    PutString(out, e.attr);
    PutString(out, CStr(e.value));
    PutString(out, e.fileName);
    PutString(out, e.contentType);
    PutInt(out, e.valueLength);
    var fp := FormFileOpen(form, e.attr);
    if fp != null {
      PutInt(out, 1);
      CopyAll(fp, out);
    } else {
      PutInt(out, 0);
    }
    EntryInPieces(d, EncodeString(e.attr), EncodeString(CStr(e.value)), EncodeString(e.fileName),
                  EncodeString(e.contentType), EncodeInt(e.valueLength),
                  EncodeInt(if u.Some? then 1 else 0), if u.Some? then u.value else []);
  }

  lemma EntryInPieces(d: bytes, a: bytes, b: bytes, c: bytes, e: bytes, f: bytes, g: bytes, h: bytes)
    ensures d + a + b + c + e + f + g + h == d + (a + b + c + e + f + (g + h))
    ensures d + a + b + c + e + f + g == d + (a + b + c + e + f + g)
  {
  }

  /** cgiWriteEnvironment. */
  method WriteEnvironment(strings: seq<cstring>, contentLength: int, form: Form, out: File)
    requires form.Valid() && EnvFits(Env(strings, contentLength, form.Entries()))
    requires out.data == []
    modifies out`data, form`findTarget, form`findPos, form`findIndex
    ensures form.Valid() && form.Entries() == old(form.Entries())
    ensures out.data == EncodeEnv(Env(strings, contentLength, form.Entries()))
  {
    hide EncodeString, EncodeStrings, EncodeEntry, EncodeInt, Form.Entries, UploadOf, Form.Valid, EntryFits, VERSION;
    ghost var es := form.Entries();
    VersionFits();
    PutString(out, VERSION);
    PutStrings(out, strings);
    PutInt(out, contentLength);
    ghost var head := out.data;
    ghost var k := 0;
    var e := form.First();
    while e != null
      invariant k <= |es| == |form.nodes| && e == form.NodeAt(k) && form.Valid() && form.Entries() == es
      invariant out.data + EncodeEntries(es, k) == head + EncodeEntries(es, 0)
      decreases |es| - k
    {
      form.NodeFacts(k);
      ghost var before := out.data;
      ghost var one, more := EncodeEntry(es[k], UploadOf(es, es[k].attr)), EncodeEntries(es, k + 1);
      assert EncodeEntries(es, k) == one + more;
      PutEntry(out, form, e.entry);
      assert before + (one + more) == (before + one) + more;
      e := e.next;
      k := k + 1;
    }
    assert out.data + [] == out.data;
  }

  // ----- Reading

  method TakeInt(input: File) returns (r: Read<int>)
    requires input.Valid()
    modifies input`pos
    ensures input.Valid() && r.Got? == ReadInt(old(input.Rest())).Got?
    ensures r.Got? ==> ReadInt(old(input.Rest())) == r && input.Rest() == r.rest
  {
    var buffer := new byte[4];
    ghost var t := input.Rest();
    var got := input.Read(buffer, 4);
    if got < 4 {
      return Short;
    }
    r := Got(DecodeInt(buffer[..4]), input.data[input.pos..]);
  }

  /** cgiReadString. A negative length makes the allocation or the read fail. */
  method TakeString(input: File) returns (r: Read<bytes>)
    requires input.Valid()
    modifies input`pos
    ensures input.Valid() && r.Got? == ReadString(old(input.Rest())).Got?
    ensures r.Got? ==> ReadString(old(input.Rest())) == r && input.Rest() == r.rest
  {
    hide DecodeInt, ReadInt;
    var len := TakeInt(input);
    if len.Short? || len.value < 0 {
      return Short;
    }
    var s := new byte[len.value + 1];
    var got := input.Read(s, len.value);
    if got != len.value {
      return Short;
    }
    s[len.value] := NUL;
    r := Got(s[..got], input.data[input.pos..]);
  }

  method TakeStrings(input: File, n: nat) returns (r: Read<seq<cstring>>)
    requires input.Valid()
    modifies input`pos
    ensures input.Valid() && r.Got? == ReadStrings(old(input.Rest()), n).Got?
    ensures r.Got? ==> ReadStrings(old(input.Rest()), n) == r && input.Rest() == r.rest
    decreases n
  {
    hide ReadString, CStr;
    if n == 0 {
      return Got([], input.data[input.pos..]);
    }
    var s := TakeString(input);
    if s.Short? {
      return Short;
    }
    var ss := TakeStrings(input, n - 1);
    if ss.Short? {
      return Short;
    }
    r := Got([CStr(s.value)] + ss.value, ss.rest);
  }

  /** One chunk of at most `left` bytes. */
  method ReadChunk(input: File, buffer: array<byte>, left: nat) returns (chunk: bytes)
    requires input.Valid() && buffer.Length == CHUNK && left > 0
    modifies input`pos, buffer
    ensures input.Valid() && |chunk| <= left && chunk + input.Rest() == old(input.Rest())
    ensures chunk == [] ==> old(input.Rest()) == []
  {
    ghost var more := input.Rest();
    var tryr := left;
    if tryr > CHUNK {
      tryr := CHUNK;
    }
    var got := input.Read(buffer, tryr);
    assert more == more[..got] + more[got..];
    chunk := buffer[..got];
  }

  /** The copy loop of cgiReadEnvironment: at most a chunk at a time, until len bytes are copied. */
  method CopyExactly(input: File, len: int) returns (ok: bool, content: bytes)
    requires input.Valid()
    modifies input`pos
    ensures input.Valid() && ok == (len <= |old(input.Rest())|)
    ensures ok ==> content + input.Rest() == old(input.Rest()) && |content| == if len > 0 then len else 0
  {
    hide File.Rest;
    var buffer := new byte[CHUNK];
    var left := len;
    ok, content := true, [];
    ghost var all := input.Rest();
    assert [] + all == all;
    while left > 0
      invariant input.Valid() && content + input.Rest() == all && ok
      invariant |content| + left == if len > 0 then len else left
      invariant if len > 0 then 0 <= left else left == len && content == []
    {
      var chunk := ReadChunk(input, buffer, left);
      if chunk == [] {
        ok := false;
        return;
      }
      assert content + (chunk + input.Rest()) == (content + chunk) + input.Rest();
      content := content + chunk;
      left := left - |chunk|;
    }
  }

  method TakeFields(input: File) returns (r: Read<Fields>)
    requires input.Valid()
    modifies input`pos
    ensures input.Valid() && r.Got? == ReadFields(old(input.Rest())).Got?
    ensures r.Got? ==> ReadFields(old(input.Rest())) == r && input.Rest() == r.rest
  {
    hide ReadString, ReadInt, CStr;
    var value := TakeString(input);
    if value.Short? { return Short; }
    var fileName := TakeString(input);
    if fileName.Short? { return Short; }
    var contentType := TakeString(input);
    if contentType.Short? { return Short; }
    var len := TakeInt(input);
    if len.Short? { return Short; }
    var flag := TakeInt(input);
    if flag.Short? { return Short; }
    r := Got(Fields(value.value, CStr(fileName.value), CStr(contentType.value), len.value, flag.value), flag.rest);
  }

  lemma UploadSplit(flag: int, len: int, t: bytes, content: bytes, rest: bytes)
    requires flag != 0 && content + rest == t && |content| == if len > 0 then len else 0
    ensures ReadUpload(flag, len, t) == Got(Some(content), rest)
  {
    assert t[..|content|] == content && t[|content|..] == rest;
  }

  method TakeEntry(input: File) returns (r: ReadEntry)
    requires input.Valid()
    modifies input`pos
    ensures input.Valid() && r == ReadOneEntry(old(input.Rest()))
    ensures r.EntryRead? ==> input.Rest() == r.rest
  {
    hide ReadString, ReadFields, CStr;
    var attr := TakeString(input);
    if attr.Short? {
      return EntriesEnd;
    }
    var f := TakeFields(input);
    if f.Short? {
      return EntryFails(EnvMemory);
    }
    var u := None;
    if f.value.flag != 0 {
      var ok, content := CopyExactly(input, f.value.len);
      if !ok {
        return EntryFails(EnvIO);
      }
      UploadSplit(f.value.flag, f.value.len, f.rest, content, input.Rest());
      u := Some(content);
    }
    r := EntryRead(FieldsEntry(CStr(attr.value), f.value, u), input.data[input.pos..]);
  }

  /** The list that is still to be read, with the entries read so far in front. */
  ghost predicate Continues(all: ReadList, found: seq<Entry>, rest: ReadList) {
    match rest
    case ListFails(error) => all == rest
    case ListRead(es) => all == ListRead(found + es)
  }

  lemma ContinueWith(all: ReadList, found: seq<Entry>, t: bytes)
    requires Continues(all, found, ReadEntries(t))
    ensures match ReadOneEntry(t)
            case EntriesEnd => all == ListRead(found)
            case EntryFails(error) => all == ListFails(error)
            case EntryRead(e, rest) => Continues(all, found + [e], ReadEntries(rest))
  {
    hide ReadOneEntry;
    match ReadOneEntry(t)
    case EntriesEnd =>
      assert found + [] == found;
    case EntryFails(_) =>
    case EntryRead(e, rest) =>
      match ReadEntries(rest)
      case ListFails(_) =>
      case ListRead(es) =>
        assert found + ([e] + es) == (found + [e]) + es;
  }

  method TakeEntries(input: File, form: Form) returns (failed: Option<EnvError>)
    requires input.Valid() && form.Valid() && form.nodes == []
    modifies input`pos, form`first, form`nodes
    ensures input.Valid() && form.Valid()
    ensures match ReadEntries(old(input.Rest()))
            case ListFails(error) => failed == Some(error) && form.Entries() == []
            case ListRead(es) => failed == None && form.Entries() == es
  {
    hide ReadOneEntry, Form.Entries, ReadEntries, Continues;
    var p: Node? := null;
    ghost var all := ReadEntries(input.Rest());
    assert Continues(all, form.Entries(), all) by { NothingRead(form, all); }
    while true
      invariant input.Valid() && form.Valid() && p == if form.nodes == [] then null else form.nodes[|form.nodes| - 1]
      invariant fresh(set n | n in form.nodes)
      invariant Continues(all, form.Entries(), ReadEntries(input.Rest()))
      decreases |input.Rest()|
    {
      ContinueWith(all, form.Entries(), input.Rest());
      var r := TakeEntry(input);
      match r
      case EntriesEnd =>
        return None;
      case EntryFails(error) =>
        form.Clear();
        return Some(error);
      case EntryRead(e, _) =>
        p := form.AddLast(p, e);
    }
  }

  lemma NothingRead(form: Form, all: ReadList)
    requires form.nodes == []
    ensures Continues(all, form.Entries(), all)
  {
    assert form.Entries() == [];
  }

  /** cgiReadEnvironment on an open file: existing entries are freed first, and none is left
      behind by a failure. */
  method ReadEnvironment(input: File, form: Form)
    returns (failed: Option<EnvError>, strings: seq<cstring>, contentLength: int)
    requires input.Valid() && form.Valid()
    modifies input`pos, form`first, form`nodes
    ensures form.Valid()
    ensures match DecodeEnv(old(input.Rest()))
            case EnvFails(error) => failed == Some(error) && form.Entries() == []
            case EnvRead(env) => failed == None && Env(strings, contentLength, form.Entries()) == env
  {
    hide ReadString, ReadStrings, ReadInt, ReadEntries, Form.Entries, VERSION, CStr;
    failed, strings, contentLength := None, [], 0;
    form.Clear();
    var version := TakeString(input);
    if version.Short? {
      return Some(EnvIO), [], 0;
    }
    if CStr(version.value) != VERSION {
      return Some(EnvWrongVersion), [], 0;
    }
    var ss := TakeStrings(input, STRINGS);
    if ss.Short? {
      return Some(EnvIO), [], 0;
    }
    var length := TakeInt(input);
    if length.Short? {
      return Some(EnvIO), [], 0;
    }
    failed := TakeEntries(input, form);
    strings, contentLength := ss.value, length.value;
  }
}

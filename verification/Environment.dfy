/** cgiWriteEnvironment and cgiReadEnvironment: a CGI request saved to a file and restored. */
module Environment {
  import opened Bytes
  import opened FormEntries

  // ----- The file format

  const INT_LIMIT: int := 0x8000_0000

  predicate IsInt(i: int) {
    -INT_LIMIT <= i < INT_LIMIT
  }

  /** The four bytes of an int, lowest first. */
  function EncodeInt(i: int): (r: bytes)
    requires IsInt(i)
    ensures |r| == 4
  {
    var u := if i < 0 then i + 2 * INT_LIMIT else i;
    [u % 256, u / 256 % 256, u / 65536 % 256, u / 16777216]
  }

  function DecodeInt(b: bytes): int
    requires |b| == 4
  {
    var b0: int, b1: int, b2: int, b3: int := b[0], b[1], b[2], b[3];
    var u := b0 + 256 * b1 + 65536 * b2 + 16777216 * b3;
    if u < INT_LIMIT then u else u - 2 * INT_LIMIT
  }

  lemma DecodeEncodedInt(i: int)
    requires IsInt(i)
    ensures DecodeInt(EncodeInt(i)) == i
  {
    var u := if i < 0 then i + 2 * INT_LIMIT else i;
    assert u == u % 256 + 256 * (u / 256);
    assert u / 256 == u / 256 % 256 + 256 * (u / 256 / 256);
    assert u / 256 / 256 == u / 65536;
    assert u / 65536 == u / 65536 % 256 + 256 * (u / 65536 / 256);
    assert u / 65536 / 256 == u / 16777216;
  }

  function EncodeString(s: cstring): bytes
    requires |s| < INT_LIMIT
  {
    EncodeInt(|s|) + s
  }

  /** The 20 strings, in the order in which both functions name them: cgiServerSoftware,
      cgiServerName, cgiGatewayInterface, cgiServerProtocol, cgiServerPort, cgiRequestMethod,
      cgiPathInfo, cgiPathTranslated, cgiScriptName, cgiQueryString, cgiRemoteHost,
      cgiRemoteAddr, cgiAuthType, cgiRemoteUser, cgiRemoteIdent, cgiContentType, cgiAccept,
      cgiUserAgent, cgiReferrer and cgiCookie. The version is written in front of them. */
  const STRINGS: nat := 20

  const VERSION: cstring := Ascii("CGIC2.0")

  datatype Env = Env(strings: seq<cstring>, contentLength: int, entries: seq<Entry>)

  function EncodeStrings(ss: seq<cstring>): bytes
    requires forall i :: 0 <= i < |ss| ==> |ss[i]| < INT_LIMIT
  {
    if ss == [] then [] else EncodeString(ss[0]) + EncodeStrings(ss[1..])
  }

  /** What cgiFormFileOpen gives access to under a name: the upload of the first entry called so. */
  function UploadOf(es: seq<Entry>, name: cstring): Option<bytes> {
    var m := Matches(es, name, 0);
    if m == [] then None else m[0].upload
  }

  function EncodeUpload(u: Option<bytes>): bytes {
    match u
    case None => EncodeInt(0)
    case Some(b) => EncodeInt(1) + b
  }

  /** The flag in front of an upload, and what follows the flag. */
  function Flag(u: Option<bytes>): int {
    if u.Some? then 1 else 0
  }

  function Contents(u: Option<bytes>): bytes {
    if u.Some? then u.value else []
  }

  predicate EntryFits(e: Entry) {
    |e.attr| < INT_LIMIT && |e.value| < INT_LIMIT && |e.fileName| < INT_LIMIT && |e.contentType| < INT_LIMIT
    && IsInt(e.valueLength)
  }

  function EncodeEntry(e: Entry, u: Option<bytes>): bytes
    requires EntryFits(e)
  {
    EncodeString(e.attr) + EncodeString(CStr(e.value)) + EncodeString(e.fileName) + EncodeString(e.contentType)
    + EncodeInt(e.valueLength) + EncodeUpload(u)
  }

  /** The entries from index i on; uploads are looked up by name in the whole list. */
  function EncodeEntries(es: seq<Entry>, i: nat): bytes
    requires i <= |es| && forall k :: 0 <= k < |es| ==> EntryFits(es[k])
    decreases |es| - i
  {
    if i == |es| then [] else EncodeEntry(es[i], UploadOf(es, es[i].attr)) + EncodeEntries(es, i + 1)
  }

  predicate EnvFits(env: Env) {
    && |env.strings| == STRINGS && (forall i :: 0 <= i < STRINGS ==> |env.strings[i]| < INT_LIMIT)
    && IsInt(env.contentLength) && forall k :: 0 <= k < |env.entries| ==> EntryFits(env.entries[k])
  }

  /** What stands ahead of the entries. */
  function EncodeHead(env: Env): bytes
    requires EnvFits(env)
  {
    EncodeString(VERSION) + (EncodeStrings(env.strings) + EncodeInt(env.contentLength))
  }

  function EncodeEnv(env: Env): bytes
    requires EnvFits(env)
  {
    EncodeHead(env) + EncodeEntries(env.entries, 0)
  }

  // ----- Reading it back

  datatype Read<+T> = Short | Got(value: T, rest: bytes)

  function ReadInt(t: bytes): (r: Read<int>)
    ensures r.Got? ==> |r.rest| + 4 == |t|
  {
    if |t| < 4 then Short else Got(DecodeInt(t[..4]), t[4..])
  }

  function ReadString(t: bytes): (r: Read<bytes>)
    ensures r.Got? ==> |r.value| + |r.rest| + 4 == |t|
  {
    match ReadInt(t)
    case Short => Short
    case Got(n, rest) => if n < 0 || |rest| < n then Short else Got(rest[..n], rest[n..])
  }

  function ReadStrings(t: bytes, n: nat): Read<seq<cstring>> {
    if n == 0 then Got([], t)
    else
      match ReadString(t)
      case Short => Short
      case Got(s, rest) =>
        match ReadStrings(rest, n - 1)
        case Short => Short
        case Got(ss, rest1) => Got([CStr(s)] + ss, rest1)
  }

  datatype EnvError = EnvIO | EnvMemory | EnvWrongVersion

  datatype ReadEntry = EntriesEnd | EntryFails(error: EnvError) | EntryRead(e: Entry, rest: bytes)

  /** The upload behind a nonzero flag has as many bytes as the value length says. */
  function ReadUpload(flag: int, len: int, t: bytes): (r: Read<Option<bytes>>)
    ensures r.Got? ==> |r.rest| <= |t|
  {
    if flag == 0 then Got(None, t)
    else if len <= 0 then Got(Some([]), t)
    else if |t| < len then Short
    else Got(Some(t[..len]), t[len..])
  }

  /** An entry before its upload is read. */
  datatype Fields = Fields(value: bytes, fileName: cstring, contentType: cstring, len: int, flag: int)

  function ReadFields(t: bytes): (r: Read<Fields>)
    ensures r.Got? ==> |r.rest| <= |t|
  {
    match ReadString(t)
    case Short => Short
    case Got(value, t1) =>
      match ReadString(t1)
      case Short => Short
      case Got(fileName, t2) =>
        match ReadString(t2)
        case Short => Short
        case Got(contentType, t3) =>
          match ReadInt(t3)
          case Short => Short
          case Got(len, t4) =>
            match ReadInt(t4)
            case Short => Short
            case Got(flag, t5) => Got(Fields(value, CStr(fileName), CStr(contentType), len, flag), t5)
  }

  function FieldsEntry(attr: cstring, f: Fields, u: Option<bytes>): Entry {
    Entry(attr, f.value, f.len, f.fileName, f.contentType, u)
  }

  /** A name that cannot be read ends the list; anything else that cannot is an error. */
  function ReadOneEntry(t: bytes): (r: ReadEntry)
    ensures r.EntryRead? ==> |r.rest| < |t|
  {
    match ReadString(t)
    case Short => EntriesEnd
    case Got(attr, t1) =>
      match ReadFields(t1)
      case Short => EntryFails(EnvMemory)
      case Got(f, t2) =>
        match ReadUpload(f.flag, f.len, t2)
        case Short => EntryFails(EnvIO)
        case Got(u, t3) => EntryRead(FieldsEntry(CStr(attr), f, u), t3)
  }

  datatype ReadList = ListFails(error: EnvError) | ListRead(entries: seq<Entry>)

  function ReadEntries(t: bytes): ReadList
    decreases |t|
  {
    match ReadOneEntry(t)
    case EntriesEnd => ListRead([])
    case EntryFails(error) => ListFails(error)
    case EntryRead(e, rest) =>
      match ReadEntries(rest)
      case ListFails(error) => ListFails(error)
      case ListRead(es) => ListRead([e] + es)
  }

  datatype ReadEnv = EnvFails(error: EnvError) | EnvRead(env: Env)

  function DecodeEnv(t: bytes): ReadEnv {
    match ReadString(t)
    case Short => EnvFails(EnvIO)
    case Got(version, t1) =>
      if CStr(version) != VERSION then EnvFails(EnvWrongVersion)
      else
        match ReadStrings(t1, STRINGS)
        case Short => EnvFails(EnvIO)
        case Got(strings, t2) =>
          match ReadInt(t2)
          case Short => EnvFails(EnvIO)
          case Got(contentLength, t3) =>
            match ReadEntries(t3)
            case ListFails(error) => EnvFails(error)
            case ListRead(es) => EnvRead(Env(strings, contentLength, es))
  }

  // ----- The round trip

  lemma IntComesBack(i: int, t: bytes)
    requires IsInt(i)
    ensures ReadInt(EncodeInt(i) + t) == Got(i, t)
  {
    DecodeEncodedInt(i);
    assert (EncodeInt(i) + t)[..4] == EncodeInt(i) && (EncodeInt(i) + t)[4..] == t;
  }

  /** Any bytes as a string of the file, with NULs in them or not. */
  function RawString(s: bytes): bytes
    requires |s| < INT_LIMIT
  {
    EncodeInt(|s|) + s
  }

  lemma RawStringComesBack(s: bytes, t: bytes)
    requires |s| < INT_LIMIT
    ensures ReadString(RawString(s) + t) == Got(s, t)
  {
    hide ReadInt, EncodeInt;
    IntComesBack(|s|, s + t);
    assert RawString(s) + t == EncodeInt(|s|) + (s + t);
    assert (s + t)[..|s|] == s && (s + t)[|s|..] == t;
  }

  lemma StringComesBack(s: cstring, t: bytes)
    requires |s| < INT_LIMIT
    ensures ReadString(EncodeString(s) + t) == Got(s, t)
    ensures CStr(s) == s
  {
    hide ReadString, RawString, EncodeInt;
    assert EncodeString(s) == RawString(s) by { RawIsString(s); }
    RawStringComesBack(s, t);
    CStrWhole(s);
  }

  lemma RawIsString(s: cstring)
    requires |s| < INT_LIMIT
    ensures EncodeString(s) == RawString(s)
  {
  }

  lemma {:induction false} StringsComeBack(ss: seq<cstring>, t: bytes)
    requires forall i :: 0 <= i < |ss| ==> |ss[i]| < INT_LIMIT
    ensures ReadStrings(EncodeStrings(ss) + t, |ss|) == Got(ss, t)
  {
    hide ReadString, EncodeString, CStr;
    if ss == [] {
      assert EncodeStrings(ss) + t == t;
    } else {
      var rest := EncodeStrings(ss[1..]) + t;
      assert EncodeStrings(ss) + t == EncodeString(ss[0]) + rest;
      StringComesBack(ss[0], rest);
      StringsComeBack(ss[1..], t);
      assert [ss[0]] + ss[1..] == ss;
    }
  }

  // ----- Entries, whoever wrote them

  /** An entry of the file up to its upload: any four strings, and any two numbers. */
  datatype RawEntry = RawEntry(attr: bytes, value: bytes, fileName: bytes, contentType: bytes, len: int, flag: int)

  predicate RawFits(e: RawEntry) {
    && |e.attr| < INT_LIMIT && |e.value| < INT_LIMIT && |e.fileName| < INT_LIMIT && |e.contentType| < INT_LIMIT
    && IsInt(e.len) && IsInt(e.flag)
  }

  function RawFields(e: RawEntry): bytes
    requires RawFits(e)
  {
    RawString(e.value) + (RawString(e.fileName) + (RawString(e.contentType) + (EncodeInt(e.len) + EncodeInt(e.flag))))
  }

  function EncodeRaw(e: RawEntry): bytes
    requires RawFits(e)
  {
    RawString(e.attr) + RawFields(e)
  }

  /** The entry it is read as, with what upload there is. */
  function RawMeans(e: RawEntry, upload: Option<bytes>): Entry {
    Entry(attr := CStr(e.attr), value := e.value, valueLength := e.len, fileName := CStr(e.fileName),
          contentType := CStr(e.contentType), upload := upload)
  }

  lemma {:induction false} RawFieldsRead(e: RawEntry, t: bytes)
    requires RawFits(e)
    ensures ReadFields(RawFields(e) + t)
         == Got(Fields(e.value, CStr(e.fileName), CStr(e.contentType), e.len, e.flag), t)
  {
    hide ReadString, ReadInt, RawString, EncodeInt, CStr;
    var t4 := EncodeInt(e.flag) + t;
    var t3 := EncodeInt(e.len) + t4;
    var t2 := RawString(e.contentType) + t3;
    var t1 := RawString(e.fileName) + t2;
    assert RawFields(e) + t == RawString(e.value) + t1;
    RawStringComesBack(e.value, t1);
    RawStringComesBack(e.fileName, t2);
    RawStringComesBack(e.contentType, t3);
    IntComesBack(e.len, t4);
    IntComesBack(e.flag, t);
  }

  /** Any entry: without a flag it has no upload; with one it has as many of the following bytes as its value length
      says, none if that is not positive, and it fails if there are not so many. */
  lemma {:induction false} RawEntryRead(e: RawEntry, t: bytes)
    requires RawFits(e)
    ensures ReadOneEntry(EncodeRaw(e) + t) ==
      if e.flag == 0 then EntryRead(RawMeans(e, None), t)
      else if e.len <= 0 then EntryRead(RawMeans(e, Some([])), t)
      else if |t| < e.len then EntryFails(EnvIO)
      else EntryRead(RawMeans(e, Some(t[..e.len])), t[e.len..])
  {
    hide ReadString, ReadFields, RawString, RawFields, CStr;
    assert EncodeRaw(e) + t == RawString(e.attr) + (RawFields(e) + t);
    RawStringComesBack(e.attr, RawFields(e) + t);
    RawFieldsRead(e, t);
  }

  /** What an entry of a form is written as. */
  function AsRaw(e: Entry, u: Option<bytes>): RawEntry {
    RawEntry(e.attr, CStr(e.value), e.fileName, e.contentType, e.valueLength, Flag(u))
  }

  lemma {:induction false} EntryIsRaw(e: Entry, u: Option<bytes>)
    requires EntryFits(e)
    ensures RawFits(AsRaw(e, u)) && EncodeEntry(e, u) == EncodeRaw(AsRaw(e, u)) + Contents(u)
  {
    CStrIsShort(e.value);
    hide EncodeInt, CStr;
    RawIsString(e.attr);
    RawIsString(CStr(e.value));
    RawIsString(e.fileName);
    RawIsString(e.contentType);
    hide EncodeString, RawString;
    assert EncodeUpload(u) == EncodeInt(Flag(u)) + Contents(u);
  }

  lemma CStrIsShort(s: bytes)
    ensures |CStr(s)| <= |s|
  {
  }

  /** What is read where entry e was written with upload u: all fields of e, with the value up to its
      first NUL, and as much upload as the value length of e says. */
  lemma {:induction false} EntryComesBack(e: Entry, u: Option<bytes>, t: bytes)
    requires EntryFits(e)
    ensures ReadOneEntry(EncodeEntry(e, u) + t) ==
      match ReadUpload(Flag(u), e.valueLength, Contents(u) + t)
      case Short => EntryFails(EnvIO)
      case Got(v, rest) => EntryRead(e.(value := CStr(e.value), upload := v), rest)
  {
    EntryIsRaw(e, u);
    CStrWhole(e.attr);
    CStrWhole(e.fileName);
    CStrWhole(e.contentType);
    hide EncodeEntry, EncodeRaw, CStr, Flag, Contents, ReadOneEntry;
    assert EncodeEntry(e, u) + t == EncodeRaw(AsRaw(e, u)) + (Contents(u) + t);
    RawEntryRead(AsRaw(e, u), Contents(u) + t);
  }

  lemma NoEntryLeft()
    ensures ReadOneEntry([]) == EntriesEnd
  {
  }

  /** The strings and the content length come back from any file that begins with them, and the entries as they
      are read from what follows. */
  lemma {:induction false} HeadComesBack(env: Env, t: bytes)
    requires EnvFits(env)
    ensures DecodeEnv(EncodeHead(env) + t) ==
      match ReadEntries(t)
      case ListFails(error) => EnvFails(error)
      case ListRead(es) => EnvRead(env.(entries := es))
  {
    hide ReadString, ReadStrings, ReadInt, ReadEntries, CStr, VERSION;
    hide EncodeString, EncodeStrings, EncodeInt;
    var t2 := EncodeInt(env.contentLength) + t;
    var t1 := EncodeStrings(env.strings) + t2;
    VersionFits();
    assert EncodeHead(env) + t == EncodeString(VERSION) + t1;
    StringComesBack(VERSION, t1);
    StringsComeBack(env.strings, t2);
    IntComesBack(env.contentLength, t);
  }

  /** Saving and restoring gives back every string and the content length, and the entries as they
      are read from what was written for them. */
  lemma {:induction false} SavedComesBack(env: Env)
    requires EnvFits(env)
    ensures DecodeEnv(EncodeEnv(env)) ==
      match ReadEntries(EncodeEntries(env.entries, 0))
      case ListFails(error) => EnvFails(error)
      case ListRead(es) => EnvRead(env.(entries := es))
  {
    hide DecodeEnv, EncodeHead, EncodeEntries, ReadEntries;
    HeadComesBack(env, EncodeEntries(env.entries, 0));
  }

  /** A file of any other version is refused, whatever follows. */
  lemma {:induction false} OtherVersionRefused(v: bytes, t: bytes)
    requires |v| < INT_LIMIT && CStr(v) != Ascii("CGIC2.0")
    ensures DecodeEnv(RawString(v) + t) == EnvFails(EnvWrongVersion)
  {
    hide ReadString, ReadStrings, ReadInt, ReadEntries, CStr, RawString;
    RawStringComesBack(v, t);
  }

  lemma VersionFits()
    ensures |VERSION| < INT_LIMIT
  {
  }

  // ----- Which forms come back

  /** The length of an upload is the value length, as it is in every entry of a parsed form. */
  predicate UploadLengths(es: seq<Entry>) {
    forall k :: 0 <= k < |es| ==> (es[k].upload.Some? ==> es[k].valueLength == |es[k].upload.value|)
  }

  /** The entry finds its own upload, or none if it has none, under its name, and its value has
      no NUL in it. */
  predicate Kept(es: seq<Entry>, k: nat)
    requires k < |es|
  {
    NoNul(es[k].value) && UploadOf(es, es[k].attr) == es[k].upload
  }

  /** The first entry from i on that is not kept. */
  function FirstLost(es: seq<Entry>, i: nat): (k: nat)
    requires i <= |es|
    ensures i <= k <= |es|
    ensures forall j :: i <= j < k ==> Kept(es, j)
    ensures k < |es| ==> !Kept(es, k)
    decreases |es| - i
  {
    if i == |es| || !Kept(es, i) then i else FirstLost(es, i + 1)
  }

  predicate KeepsAll(es: seq<Entry>) {
    forall k :: 0 <= k < |es| ==> Kept(es, k)
  }

  /** An entry k that is read with an upload of another length than the one that was written. Its own
      upload and all entries behind it may still be what the bytes happen to say. */
  predicate SaysTheSame(es: seq<Entry>, k: nat)
    requires k < |es| && forall j :: 0 <= j < |es| ==> EntryFits(es[j])
  {
    var u, own := UploadOf(es, es[k].attr), es[k].upload;
    && NoNul(es[k].value) && u.Some? && own.Some? && |u.value| != |own.value|
    && var t := u.value + EncodeEntries(es, k + 1);
       && own.value <= t
       && ReadEntries(t[|own.value|..]) == ListRead(es[k + 1..])
  }

  function Prepend(front: seq<Entry>, r: ReadList): ReadList {
    match r
    case ListFails(_) => r
    case ListRead(es) => ListRead(front + es)
  }

  lemma PrependIs(front: seq<Entry>, r: ReadList, back: seq<Entry>)
    ensures Prepend(front, r) == ListRead(front + back) <==> r == ListRead(back)
  {
    if r.ListRead? && front + r.entries == front + back {
      assert r.entries == (front + r.entries)[|front|..] == (front + back)[|front|..] == back;
    }
  }

  lemma ReadOwnUpload(u: Option<bytes>, len: int, t: bytes)
    requires u.Some? ==> len == |u.value|
    ensures ReadUpload(Flag(u), len, Contents(u) + t) == Got(u, t)
  {
    if u.Some? {
      assert (u.value + t)[..len] == u.value && (u.value + t)[len..] == t;
    } else {
      assert Contents(u) + t == t;
    }
  }

  lemma CutAtNul(s: bytes)
    ensures CStr(s) == s <==> NoNul(s)
  {
    if NoNul(s) {
      CStrWhole(s);
    }
  }

  /** The entries from i up to k. */
  function EncodeRange(es: seq<Entry>, i: nat, k: nat): bytes
    requires i <= k <= |es| && forall j :: 0 <= j < |es| ==> EntryFits(es[j])
    decreases k - i
  {
    if i == k then [] else EncodeEntry(es[i], UploadOf(es, es[i].attr)) + EncodeRange(es, i + 1, k)
  }

  lemma {:induction false} RangeAhead(es: seq<Entry>, i: nat, k: nat)
    requires i <= k <= |es| && forall j :: 0 <= j < |es| ==> EntryFits(es[j])
    ensures EncodeEntries(es, i) == EncodeRange(es, i, k) + EncodeEntries(es, k)
    decreases k - i
  {
    hide EncodeEntry, UploadOf, EntryFits;
    if i < k {
      RangeAhead(es, i + 1, k);
    } else {
      assert [] + EncodeEntries(es, k) == EncodeEntries(es, k);
    }
  }

  /** Entries that are kept come back, in front of whatever the rest is read as. */
  lemma {:induction false} KeptAhead(es: seq<Entry>, i: nat, k: nat, t: bytes)
    requires i <= k <= |es| && UploadLengths(es) && forall j :: 0 <= j < |es| ==> EntryFits(es[j])
    requires forall j :: i <= j < k ==> Kept(es, j)
    ensures ReadEntries(EncodeRange(es, i, k) + t) == Prepend(es[i..k], ReadEntries(t))
    decreases k - i
  {
    hide ReadEntries, EncodeEntry, EncodeRange, UploadOf, EntryFits, NoNul, Prepend;
    if i == k {
      RangeEnds(es, k);
      assert es[i..k] == [] && [] + t == t;
      EmptyFront(ReadEntries(t));
    } else {
      var e, rest := es[i], EncodeRange(es, i + 1, k) + t;
      assert Kept(es, i);
      RangeStep(es, i, k, t);
      KeptEntry(e, rest);
      KeptAhead(es, i + 1, k, t);
      assert es[i..k] == [e] + es[i + 1..k];
      FrontTwice(e, es[i + 1..k], ReadEntries(t));
    }
  }

  lemma {:induction false} KeptEntry(e: Entry, rest: bytes)
    requires EntryFits(e) && NoNul(e.value) && (e.upload.Some? ==> e.valueLength == |e.upload.value|)
    ensures ReadEntries(EncodeEntry(e, e.upload) + rest) == Prepend([e], ReadEntries(rest))
  {
    hide ReadOneEntry, EncodeEntry, CStr, EntryFits, ReadUpload, Flag, Contents;
    CutAtNul(e.value);
    EntryComesBack(e, e.upload, rest);
    ReadOwnUpload(e.upload, e.valueLength, rest);
  }

  lemma RangeEnds(es: seq<Entry>, k: nat)
    requires k <= |es| && forall j :: 0 <= j < |es| ==> EntryFits(es[j])
    ensures EncodeRange(es, k, k) == []
  {
  }

  lemma RangeStep(es: seq<Entry>, i: nat, k: nat, t: bytes)
    requires i < k <= |es| && forall j :: 0 <= j < |es| ==> EntryFits(es[j])
    ensures EncodeRange(es, i, k) + t
         == EncodeEntry(es[i], UploadOf(es, es[i].attr)) + (EncodeRange(es, i + 1, k) + t)
  {
    hide EncodeEntry, UploadOf, EntryFits;
  }

  lemma FrontTwice(e: Entry, front: seq<Entry>, r: ReadList)
    ensures Prepend([e], Prepend(front, r)) == Prepend([e] + front, r)
  {
    if r.ListRead? {
      assert [e] + (front + r.entries) == ([e] + front) + r.entries;
    }
  }

  lemma {:induction false} KeptComeBack(es: seq<Entry>, i: nat, k: nat)
    requires i <= k <= |es| && UploadLengths(es) && forall j :: 0 <= j < |es| ==> EntryFits(es[j])
    requires forall j :: i <= j < k ==> Kept(es, j)
    ensures ReadEntries(EncodeEntries(es, i)) == Prepend(es[i..k], ReadEntries(EncodeEntries(es, k)))
  {
    hide ReadEntries, EncodeEntries, EncodeRange, EntryFits, Kept;
    RangeAhead(es, i, k);
    KeptAhead(es, i, k, EncodeEntries(es, k));
  }

  lemma EmptyFront(r: ReadList)
    ensures Prepend([], r) == r
  {
    if r.ListRead? {
      assert [] + r.entries == r.entries;
    }
  }

  /** What becomes of the first entry that is not kept decides. */
  lemma {:induction false} LostComesBackIff(es: seq<Entry>, k: nat)
    requires k < |es| && UploadLengths(es) && forall j :: 0 <= j < |es| ==> EntryFits(es[j])
    requires !Kept(es, k)
    ensures ReadEntries(EncodeEntries(es, k)) == ListRead(es[k..]) <==> SaysTheSame(es, k)
  {
    hide ReadOneEntry, EncodeEntry, UploadOf, CStr, EntryFits, NoNul;
    var e, u, rest := es[k], UploadOf(es, es[k].attr), EncodeEntries(es, k + 1);
    EntryComesBack(e, u, rest);
    CutAtNul(e.value);
    assert es[k..] == [e] + es[k + 1..];
    var r := ReadUpload(Flag(u), e.valueLength, Contents(u) + rest);
    if r.Got? && e.(value := CStr(e.value), upload := r.value) == e {
      assert NoNul(e.value) && r.value == e.upload && e.upload.Some? == u.Some?;
      LostUpload(u, e.upload, e.valueLength, rest);
      FrontEntry(e, ReadEntries(r.rest), es[k + 1..]);
    } else if SaysTheSame(es, k) {
      LostUpload(u, e.upload, e.valueLength, rest);
      assert false;
    }
  }

  lemma FrontEntry(e: Entry, r: ReadList, back: seq<Entry>)
    ensures Prepend([e], r) == ListRead([e] + back) <==> r == ListRead(back)
  {
    PrependIs([e], r, back);
  }

  /** When an upload that is not u is read from u and the bytes behind it. */
  lemma LostUpload(u: Option<bytes>, own: Option<bytes>, len: int, rest: bytes)
    requires u.Some? && own.Some? && len == |own.value| && u != own
    ensures var t, r := u.value + rest, ReadUpload(Flag(u), len, Contents(u) + rest);
      && (own.value <= t ==> r == Got(own, t[|own.value|..]) && |u.value| != |own.value|)
      && (r.Got? && r.value == own ==> own.value <= t)
  {
    var t := u.value + rest;
    assert t[..|u.value|] == u.value;
    if own.value <= t {
      assert t[..|own.value|] == own.value;
    }
  }

  /** Which forms come back. If every entry is kept, the form does. If not, the first entry that is not
      kept decides: a NUL in its value, an upload where it has none, none where it has one, or another
      upload of the same length is never undone; where the lengths differ, it is up to the bytes. */
  lemma {:induction false} RoundTripIff(env: Env)
    requires EnvFits(env) && UploadLengths(env.entries)
    ensures var k := FirstLost(env.entries, 0);
      DecodeEnv(EncodeEnv(env)) == EnvRead(env) <==> k == |env.entries| || SaysTheSame(env.entries, k)
  {
    hide DecodeEnv, EncodeEnv, UploadOf, CStr, ReadEntries, EntryFits, Kept, SaysTheSame, FirstLost;
    var es := env.entries;
    var k := FirstLost(es, 0);
    SavedComesBack(env);
    KeptComeBack(es, 0, k);
    assert es == es[..k] + es[k..];
    PrependIs(es[..k], ReadEntries(EncodeEntries(es, k)), es[k..]);
    if k == |es| {
      NothingToRead(es);
    } else {
      LostComesBackIff(es, k);
    }
  }

  lemma NothingToRead(es: seq<Entry>)
    requires forall j :: 0 <= j < |es| ==> EntryFits(es[j])
    ensures ReadEntries(EncodeEntries(es, |es|)) == ListRead(es[|es|..])
  {
    NoEntryLeft();
  }

  /** Two entries of a name whose uploads have different lengths, the first of which is found for both. */
  predicate LengthsDiffer(es: seq<Entry>, k: nat)
    requires k < |es|
  {
    var u, own := UploadOf(es, es[k].attr), es[k].upload;
    u.Some? && own.Some? && |u.value| != |own.value|
  }

  /** Unless it is lengths that differ, a form comes back if and only if every entry is kept. */
  lemma KeptIff(env: Env)
    requires EnvFits(env) && UploadLengths(env.entries)
    requires var k := FirstLost(env.entries, 0); k < |env.entries| ==> !LengthsDiffer(env.entries, k)
    ensures DecodeEnv(EncodeEnv(env)) == EnvRead(env) <==> KeepsAll(env.entries)
  {
    hide DecodeEnv, EncodeEnv, UploadOf, Kept, EnvFits, EntryFits;
    RoundTripIff(env);
  }

  lemma {:induction false} NoMatchBelow(es: seq<Entry>, name: cstring, i: nat, k: nat)
    requires i <= k < |es| && es[k].attr == name && forall j :: i <= j < k ==> es[j].attr != name
    ensures Matches(es, name, i) != [] && Matches(es, name, i)[0] == es[k]
    decreases k - i
  {
    if i < k {
      NoMatchBelow(es, name, i + 1, k);
    }
  }

  /** No upload shares its name with another entry; text fields may share theirs. */
  predicate UploadNamesUnique(es: seq<Entry>) {
    forall i, j :: 0 <= i < |es| && 0 <= j < |es| && i != j && es[i].upload.Some? ==> es[i].attr != es[j].attr
  }

  function FirstNamed(es: seq<Entry>, name: cstring, i: nat): (k: nat)
    requires i <= |es|
    ensures i <= k <= |es| && (forall j :: i <= j < k ==> es[j].attr != name)
    ensures k < |es| ==> es[k].attr == name
    decreases |es| - i
  {
    if i == |es| || es[i].attr == name then i else FirstNamed(es, name, i + 1)
  }

  lemma UniqueUploadsKept(es: seq<Entry>, k: nat)
    requires UploadNamesUnique(es) && k < |es| && NoNul(es[k].value)
    ensures Kept(es, k)
  {
    var i := FirstNamed(es, es[k].attr, 0);
    assert i <= k;
    NoMatchBelow(es, es[k].attr, 0, i);
    assert es[i].upload.Some? || es[k].upload.Some? ==> i == k;
  }

  /** The saved form comes back if the names of uploads are unique and no value has a NUL in it. */
  lemma {:induction false} UniqueUploadsComeBack(env: Env)
    requires EnvFits(env) && UploadLengths(env.entries) && UploadNamesUnique(env.entries)
    requires forall k :: 0 <= k < |env.entries| ==> NoNul(env.entries[k].value)
    ensures DecodeEnv(EncodeEnv(env)) == EnvRead(env)
  {
    hide DecodeEnv, EncodeEnv, Kept, EnvFits, UploadNamesUnique;
    var k := FirstLost(env.entries, 0);
    if k < |env.entries| {
      UniqueUploadsKept(env.entries, k);
    }
    RoundTripIff(env);
  }

  /** A field and an upload under one name, in either order: the form does not come back. */
  lemma {:induction false} FieldAndUploadLost(env: Env, i: nat, k: nat)
    requires EnvFits(env) && UploadLengths(env.entries) && i < k < |env.entries|
    requires env.entries[i].attr == env.entries[k].attr
    requires env.entries[i].upload.Some? != env.entries[k].upload.Some?
    requires forall j :: 0 <= j < k ==> Kept(env.entries, j)
    ensures DecodeEnv(EncodeEnv(env)) != EnvRead(env)
  {
    hide DecodeEnv, EncodeEnv, EnvFits, UploadOf;
    assert Kept(env.entries, i);
    assert !Kept(env.entries, k);
    assert FirstLost(env.entries, 0) == k;
    RoundTripIff(env);
  }

  // ----- Forms that show it

  function TwoUploads(name: cstring, a: bytes, b: bytes): seq<Entry> {
    [Entry(name, [], |a|, [], [], Some(a)), Entry(name, [], |b|, [], [], Some(b))]
  }

  lemma TwoUploadsLost(name: cstring, a: bytes, b: bytes)
    requires a != b
    ensures FirstLost(TwoUploads(name, a, b), 0) == 1 && UploadLengths(TwoUploads(name, a, b))
    ensures UploadOf(TwoUploads(name, a, b), name) == Some(a)
  {
    var es := TwoUploads(name, a, b);
    NoMatchBelow(es, name, 0, 0);
    assert Kept(es, 0) && !Kept(es, 1);
    assert FirstLost(es, 0) == FirstLost(es, 1) == 1;
  }

  /** Two uploads of one name and size: the second comes back as a copy of the first. */
  lemma {:induction false} SecondUploadLost(strings: seq<cstring>, name: cstring, a: bytes, b: bytes)
    requires a != b && |a| == |b| && EnvFits(Env(strings, 0, TwoUploads(name, a, b)))
    ensures var env := Env(strings, 0, TwoUploads(name, a, b)); DecodeEnv(EncodeEnv(env)) != EnvRead(env)
  {
    hide DecodeEnv, EncodeEnv, EnvFits, UploadOf, FirstLost;
    TwoUploadsLost(name, a, b);
    RoundTripIff(Env(strings, 0, TwoUploads(name, a, b)));
  }

  /** Two uploads of one name, the first with up to three bytes more than the second, which it begins
      with: the form comes back although the second upload was never written. */
  lemma {:induction false} SecondUploadByChance(strings: seq<cstring>, name: cstring, b: bytes, more: bytes)
    requires 0 < |more| < 4 && EnvFits(Env(strings, 0, TwoUploads(name, b + more, b)))
    ensures var env := Env(strings, 0, TwoUploads(name, b + more, b));
      !KeepsAll(env.entries) && DecodeEnv(EncodeEnv(env)) == EnvRead(env)
  {
    hide DecodeEnv, EncodeEnv, UploadOf, FirstLost;
    var es := TwoUploads(name, b + more, b);
    TwoUploadsLost(name, b + more, b);
    assert EncodeEntries(es, 2) == [];
    var t := (b + more) + [];
    assert t[|b|..] == more && t[..|b|] == b;
    assert ReadEntries(more) == ListRead([]) == ListRead(es[2..]);
    assert SaysTheSame(es, 1);
    RoundTripIff(Env(strings, 0, es));
  }

  // ----- Files that were cut off

  lemma CutSum(a: bytes, b: bytes, n: nat)
    requires n <= |a + b|
    ensures (a + b)[..n] == if n < |a| then a[..n] else a + b[..n - |a|]
  {
  }

  lemma RawStringLength(s: bytes)
    requires |s| < INT_LIMIT
    ensures |RawString(s)| == 4 + |s|
  {
  }

  lemma {:induction false} RawStringCut(s: bytes, n: nat)
    requires |s| < INT_LIMIT && n < |RawString(s)|
    ensures ReadString(RawString(s)[..n]) == Short
  {
    hide EncodeInt, DecodeInt;
    if n >= 4 {
      CutSum(EncodeInt(|s|), s, n);
      IntComesBack(|s|, s[..n - 4]);
    }
  }

  /** A string ahead of more text, when the text is cut off in one of the two. */
  lemma {:induction false} StringThenCut(s: bytes, b: bytes, n: nat)
    requires |s| < INT_LIMIT && n <= |RawString(s) + b|
    ensures ReadString((RawString(s) + b)[..n])
         == if n < |RawString(s)| then Short else Got(s, b[..n - |RawString(s)|])
  {
    hide RawString, ReadString;
    CutSum(RawString(s), b, n);
    if n < |RawString(s)| {
      RawStringCut(s, n);
    } else {
      RawStringComesBack(s, b[..n - |RawString(s)|]);
    }
  }

  lemma {:induction false} IntThenCut(i: int, b: bytes, n: nat)
    requires IsInt(i) && n <= |EncodeInt(i) + b|
    ensures ReadInt((EncodeInt(i) + b)[..n]) == if n < 4 then Short else Got(i, b[..n - 4])
  {
    hide EncodeInt, DecodeInt;
    CutSum(EncodeInt(i), b, n);
    if n >= 4 {
      IntComesBack(i, b[..n - 4]);
    }
  }

  lemma {:induction false} RawFieldsCut(e: RawEntry, n: nat)
    requires RawFits(e) && n < |RawFields(e)|
    ensures ReadFields(RawFields(e)[..n]) == Short
  {
    hide ReadString, ReadInt, RawString, EncodeInt, CStr;
    var t4 := EncodeInt(e.flag);
    var t3 := EncodeInt(e.len) + t4;
    var t2 := RawString(e.contentType) + t3;
    var t1 := RawString(e.fileName) + t2;
    StringThenCut(e.value, t1, n);
    if n >= |RawString(e.value)| {
      var n1 := n - |RawString(e.value)|;
      StringThenCut(e.fileName, t2, n1);
      if n1 >= |RawString(e.fileName)| {
        var n2 := n1 - |RawString(e.fileName)|;
        StringThenCut(e.contentType, t3, n2);
        if n2 >= |RawString(e.contentType)| {
          NumbersCut(e.len, e.flag, n2 - |RawString(e.contentType)|);
        }
      }
    }
  }

  lemma {:induction false} NumbersCut(len: int, flag: int, n: nat)
    requires IsInt(len) && IsInt(flag) && n < |EncodeInt(len) + EncodeInt(flag)|
    ensures match ReadInt((EncodeInt(len) + EncodeInt(flag))[..n])
            case Short => true
            case Got(_, rest) => ReadInt(rest) == Short
  {
    IntThenCut(len, EncodeInt(flag), n);
  }

  /** An entry cut off within its name ends the list; within its other fields, it is an error. */
  lemma {:induction false} RawEntryCut(e: RawEntry, n: nat)
    requires RawFits(e) && n < |EncodeRaw(e)|
    ensures ReadOneEntry(EncodeRaw(e)[..n]) == if n < 4 + |e.attr| then EntriesEnd else EntryFails(EnvMemory)
  {
    hide ReadOneEntry, EncodeRaw;
    if n < 4 + |e.attr| {
      CutInName(e, n);
    } else {
      CutInFields(e, n);
    }
  }

  lemma {:induction false} CutInName(e: RawEntry, n: nat)
    requires RawFits(e) && n < 4 + |e.attr| && n <= |EncodeRaw(e)|
    ensures ReadOneEntry(EncodeRaw(e)[..n]) == EntriesEnd
  {
    RawStringLength(e.attr);
    hide ReadString, ReadFields, RawString, RawFields, ReadOneEntry;
    StringThenCut(e.attr, RawFields(e), n);
    EntryBroken(EncodeRaw(e)[..n]);
  }

  lemma {:induction false} CutInFields(e: RawEntry, n: nat)
    requires RawFits(e) && 4 + |e.attr| <= n < |EncodeRaw(e)|
    ensures ReadOneEntry(EncodeRaw(e)[..n]) == EntryFails(EnvMemory)
  {
    RawStringLength(e.attr);
    hide ReadString, ReadFields, RawString, RawFields, ReadOneEntry;
    var m := n - 4 - |e.attr|;
    StringThenCut(e.attr, RawFields(e), n);
    assert ReadString(EncodeRaw(e)[..n]) == Got(e.attr, RawFields(e)[..m]);
    hide EncodeRaw;
    RawFieldsCut(e, m);
    EntryBroken(EncodeRaw(e)[..n]);
  }

  lemma EntryBroken(t: bytes)
    ensures ReadString(t).Short? ==> ReadOneEntry(t) == EntriesEnd
    ensures ReadString(t).Got? && ReadFields(ReadString(t).rest).Short? ==> ReadOneEntry(t) == EntryFails(EnvMemory)
  {
    hide ReadString, ReadFields, ReadUpload, CStr;
  }

  /** The same of an entry with its upload, cut off anywhere. */
  lemma {:induction false} EntryCut(e: Entry, n: nat)
    requires EntryFits(e) && (e.upload.Some? ==> e.valueLength == |e.upload.value|) && n < |EncodeEntry(e, e.upload)|
    ensures ReadOneEntry(EncodeEntry(e, e.upload)[..n]) ==
      if n < 4 + |e.attr| then EntriesEnd
      else if n < |EncodeEntry(e, e.upload)| - |Contents(e.upload)| then EntryFails(EnvMemory)
      else EntryFails(EnvIO)
  {
    EntryIsRaw(e, e.upload);
    var raw, u := AsRaw(e, e.upload), Contents(e.upload);
    CutSum(EncodeRaw(raw), u, n);
    assert |EncodeRaw(raw)| >= 4 + |e.attr|;
    hide EncodeEntry, EncodeRaw, ReadOneEntry, CStr;
    if n < |EncodeRaw(raw)| {
      RawEntryCut(raw, n);
    } else {
      RawEntryRead(raw, u[..n - |EncodeRaw(raw)|]);
    }
  }

  lemma {:induction false} StringsCut(ss: seq<cstring>, n: nat)
    requires (forall i :: 0 <= i < |ss| ==> |ss[i]| < INT_LIMIT) && n < |EncodeStrings(ss)|
    ensures ReadStrings(EncodeStrings(ss)[..n], |ss|) == Short
  {
    hide ReadString, RawString, EncodeString, CStr;
    RawIsString(ss[0]);
    StringThenCut(ss[0], EncodeStrings(ss[1..]), n);
    if n >= |RawString(ss[0])| {
      StringsCut(ss[1..], n - |RawString(ss[0])|);
    }
  }

  lemma {:induction false} StringsThenCut(ss: seq<cstring>, b: bytes, n: nat)
    requires (forall i :: 0 <= i < |ss| ==> |ss[i]| < INT_LIMIT) && n <= |EncodeStrings(ss) + b|
    ensures ReadStrings((EncodeStrings(ss) + b)[..n], |ss|)
         == if n < |EncodeStrings(ss)| then Short else Got(ss, b[..n - |EncodeStrings(ss)|])
  {
    hide EncodeStrings, ReadStrings;
    CutSum(EncodeStrings(ss), b, n);
    if n < |EncodeStrings(ss)| {
      StringsCut(ss, n);
    } else {
      StringsComeBack(ss, b[..n - |EncodeStrings(ss)|]);
    }
  }

  /** A file cut off ahead of its entries is an I/O error. */
  lemma {:induction false} HeadCut(env: Env, n: nat)
    requires EnvFits(env) && n < |EncodeHead(env)|
    ensures DecodeEnv(EncodeHead(env)[..n]) == EnvFails(EnvIO)
  {
    hide ReadString, ReadStrings, ReadInt, ReadEntries, RawString, EncodeString, EncodeStrings, EncodeInt;
    hide CStr, VERSION;
    VersionFits();
    var t2 := EncodeInt(env.contentLength);
    var t1 := EncodeStrings(env.strings) + t2;
    RawIsString(VERSION);
    StringThenCut(VERSION, t1, n);
    if n >= |RawString(VERSION)| {
      var n1 := n - |RawString(VERSION)|;
      CStrWhole(VERSION);
      StringsThenCut(env.strings, t2, n1);
      if n1 >= |EncodeStrings(env.strings)| {
        LengthCut(env.contentLength, n1 - |EncodeStrings(env.strings)|);
      }
    }
  }

  lemma LengthCut(i: int, n: nat)
    requires IsInt(i) && n < |EncodeInt(i)|
    ensures ReadInt(EncodeInt(i)[..n]) == Short
  {
  }

  /** The file up to n bytes of entry k. */
  function FileUpTo(env: Env, k: nat, n: nat): bytes
    requires EnvFits(env) && k < |env.entries|
    requires n <= |EncodeEntry(env.entries[k], UploadOf(env.entries, env.entries[k].attr))|
  {
    EncodeHead(env) + (EncodeRange(env.entries, 0, k)
                       + EncodeEntry(env.entries[k], UploadOf(env.entries, env.entries[k].attr))[..n])
  }

  lemma {:induction false} FileUpToIsPrefix(env: Env, k: nat, n: nat)
    requires EnvFits(env) && k < |env.entries|
    requires n <= |EncodeEntry(env.entries[k], UploadOf(env.entries, env.entries[k].attr))|
    ensures FileUpTo(env, k, n) <= EncodeEnv(env)
  {
    hide EncodeHead, EncodeEntry, EncodeRange, UploadOf, EntryFits;
    var es := env.entries;
    RangeAhead(es, 0, k);
    var one := EncodeEntry(es[k], UploadOf(es, es[k].attr));
    assert EncodeEnv(env) == FileUpTo(env, k, n) + (one[n..] + EncodeEntries(es, k + 1)) by {
      assert one == one[..n] + one[n..];
    }
  }

  /** A file cut off in entry k: in its name, the form ends ahead of it without an error; in its other fields or its
      upload it is an error. */
  lemma {:induction false} FileCut(env: Env, k: nat, n: nat)
    requires EnvFits(env) && UploadLengths(env.entries) && k < |env.entries|
    requires forall j :: 0 <= j <= k ==> Kept(env.entries, j)
    requires n < |EncodeEntry(env.entries[k], UploadOf(env.entries, env.entries[k].attr))|
    ensures var e := env.entries[k];
      DecodeEnv(FileUpTo(env, k, n)) ==
      if n < 4 + |e.attr| then EnvRead(env.(entries := env.entries[..k]))
      else if n < |EncodeEntry(e, e.upload)| - |Contents(e.upload)| then EnvFails(EnvMemory)
      else EnvFails(EnvIO)
  {
    hide DecodeEnv, EncodeHead, EncodeEntry, EncodeRange, UploadOf, ReadOneEntry, EntryFits, Contents;
    var es, e := env.entries, env.entries[k];
    assert Kept(es, k);
    var t := EncodeEntry(e, e.upload)[..n];
    HeadComesBack(env, EncodeRange(es, 0, k) + t);
    KeptAhead(es, 0, k, t);
    assert EntryFits(e);
    EntryCut(e, n);
    assert es[0..k] + [] == es[..k];
  }
}

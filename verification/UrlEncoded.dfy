/** URL-encoded forms (HTML 4.01, section 17.13.4.1; RFC 3986, section 2.1). */
module UrlEncoded {
  import opened Bytes
  import opened FormEntries

  // ----- What the text means

  function HexValue(c: byte): (v: nat)
    ensures v < 16
  {
    if 48 <= c <= 57 then c - 48
    else if 65 <= c <= 70 then c - 55
    else if 97 <= c <= 102 then c - 87
    else 0
  }

  /** Any two bytes behind a percent sign count as digits; an escape cut short is dropped. */
  function Decode(s: bytes): bytes {
    if s == [] then []
    else if s[0] == PERCENT then
      if |s| < 3 then [] else [16 * HexValue(s[1]) + HexValue(s[2])] + Decode(s[3..])
    else if s[0] == PLUS then [SPACE] + Decode(s[1..])
    else [s[0]] + Decode(s[1..])
  }

  function Segments(d: bytes): seq<bytes> {
    var i := IndexOf(d, AMPERSAND);
    if i == |d| then [d] else [d[..i]] + Segments(d[i + 1..])
  }

  function NamePart(segment: bytes): bytes {
    segment[..IndexOf(segment, EQUALS)]
  }

  function ValuePart(segment: bytes): bytes {
    var i := IndexOf(segment, EQUALS);
    if i < |segment| then segment[i + 1..] else []
  }

  function TextEntry(attr: cstring, value: cstring): Entry {
    Entry(attr, value, |value|, [], [], None)
  }

  function PairOf(segment: bytes): Entry {
    TextEntry(CStr(Decode(NamePart(segment))), CStr(Decode(ValuePart(segment))))
  }

  /** The pairs up to the first segment with an empty name, which ends the parse. */
  function NamedPairs(segments: seq<bytes>): seq<Entry> {
    if segments == [] || NamePart(segments[0]) == [] then []
    else [PairOf(segments[0])] + NamedPairs(segments[1..])
  }

  function FormPairs(d: bytes): seq<Entry> {
    NamedPairs(Segments(d))
  }

  // ----- Encoded text is decoded again

  /** How one byte is written: as itself, as the plus sign of a space, or as an escape with
      digits in either case. */
  datatype Spelling = Literal | Plus | Escape(upperHigh: bool, upperLow: bool)

  function HexDigit(v: nat, upper: bool): byte
    requires v < 16
  {
    if v < 10 then 48 + v else if upper then 55 + v else 87 + v
  }

  predicate Allowed(c: byte, sp: Spelling, inName: bool) {
    match sp
    case Literal => c != PERCENT && c != PLUS && c != AMPERSAND && (inName ==> c != EQUALS)
    case Plus => c == SPACE
    case Escape(_, _) => true
  }

  function Spell(c: byte, sp: Spelling): bytes {
    match sp
    case Literal => [c]
    case Plus => [PLUS]
    case Escape(h, l) => [PERCENT, HexDigit(c / 16, h), HexDigit(c % 16, l)]
  }

  datatype Spelled = Spelled(c: byte, sp: Spelling)

  function Plain(t: seq<Spelled>): bytes {
    if t == [] then [] else [t[0].c] + Plain(t[1..])
  }

  function Encode(t: seq<Spelled>): bytes {
    if t == [] then [] else Spell(t[0].c, t[0].sp) + Encode(t[1..])
  }

  predicate Legal(t: seq<Spelled>, inName: bool) {
    forall i :: 0 <= i < |t| ==> Allowed(t[i].c, t[i].sp, inName)
  }

  /** A field as it is sent; an empty value may be sent without its equals sign. */
  datatype Field = Field(name: seq<Spelled>, value: seq<Spelled>, bare: bool)

  predicate LegalField(f: Field) {
    Legal(f.name, true) && Legal(f.value, false) && f.name != [] && (f.bare ==> f.value == [])
  }

  function EncodeField(f: Field): bytes {
    Encode(f.name) + if f.bare then [] else [EQUALS] + Encode(f.value)
  }

  function EncodeForm(fs: seq<Field>): bytes {
    if fs == [] then []
    else if |fs| == 1 then EncodeField(fs[0])
    else EncodeField(fs[0]) + [AMPERSAND] + EncodeForm(fs[1..])
  }

  /** What becomes of a field: name and value are C strings, so that they end at their first NUL. */
  function FieldEntry(f: Field): Entry {
    var name, value := CStr(Plain(f.name)), CStr(Plain(f.value));
    Entry(attr := name, value := value, valueLength := |value|, fileName := [], contentType := [], upload := None)
  }

  function FieldEntries(fs: seq<Field>): (r: seq<Entry>)
    ensures |r| == |fs| && forall i :: 0 <= i < |fs| ==> r[i] == FieldEntry(fs[i])
  {
    if fs == [] then [] else [FieldEntry(fs[0])] + FieldEntries(fs[1..])
  }

  lemma SpelledByte(c: byte, sp: Spelling, inName: bool, t: bytes)
    requires Allowed(c, sp, inName)
    ensures Decode(Spell(c, sp) + t) == [c] + Decode(t)
    ensures Spell(c, sp) != []
    ensures forall i :: 0 <= i < |Spell(c, sp)| ==> Spell(c, sp)[i] != AMPERSAND
    ensures inName ==> forall i :: 0 <= i < |Spell(c, sp)| ==> Spell(c, sp)[i] != EQUALS
  {
    var s := Spell(c, sp) + t;
    if sp.Escape? {
      assert s[3..] == t;
      assert 16 * (c / 16) + c % 16 == c;
    } else {
      assert s[1..] == t;
    }
  }

  lemma {:induction false} DecodeEncoded(t: seq<Spelled>, inName: bool)
    requires Legal(t, inName)
    ensures Decode(Encode(t)) == Plain(t) && (t != [] ==> Encode(t) != [])
    ensures forall i :: 0 <= i < |Encode(t)| ==> Encode(t)[i] != AMPERSAND
    ensures inName ==> forall i :: 0 <= i < |Encode(t)| ==> Encode(t)[i] != EQUALS
  {
    hide Decode, Spell;
    if t == [] {
      assert Decode([]) == [] by { DecodeNothing(); }
    } else {
      DecodeEncoded(t[1..], inName);
      SpelledByte(t[0].c, t[0].sp, inName, Encode(t[1..]));
    }
  }

  lemma DecodeNothing()
    ensures Decode([]) == []
  {
  }

  lemma FieldComesBack(f: Field)
    requires LegalField(f)
    ensures PairOf(EncodeField(f)) == FieldEntry(f)
    ensures NamePart(EncodeField(f)) != []
    ensures forall i :: 0 <= i < |EncodeField(f)| ==> EncodeField(f)[i] != AMPERSAND
  {
    hide Decode, Encode, Plain, CStr;
    DecodeEncoded(f.name, true);
    DecodeEncoded(f.value, false);
    var s := EncodeField(f);
    IndexOfIs(s, EQUALS, |Encode(f.name)|);
    assert s[..|Encode(f.name)|] == Encode(f.name);
    if f.bare {
      assert Encode(f.value) == [] by { EncodeNothing(); }
    } else {
      assert s[|Encode(f.name)| + 1..] == Encode(f.value);
    }
  }

  lemma EncodeNothing()
    ensures Encode([]) == []
  {
  }

  /** A field with an ampersand behind it: its entry comes ahead of what follows. */
  lemma {:induction false} OneField(f: Field, d: bytes)
    requires LegalField(f)
    ensures FormPairs(EncodeField(f) + ([AMPERSAND] + d)) == [FieldEntry(f)] + FormPairs(d)
    ensures FormPairs(EncodeField(f)) == [FieldEntry(f)]
  {
    hide EncodeField, PairOf, NamePart, LegalField, FieldEntry;
    var e := EncodeField(f);
    var long := e + ([AMPERSAND] + d);
    FieldComesBack(f);
    IndexOfIs(long, AMPERSAND, |e|);
    IndexOfIs(e, AMPERSAND, |e|);
    hide IndexOf;
    assert long[..|e|] == e && long[|e| + 1..] == d;
    assert Segments(long) == [e] + Segments(d) && Segments(long)[1..] == Segments(d);
    assert Segments(e) == [e] && Segments(e)[1..] == [];
    assert NamedPairs(Segments(e)[1..]) == [];
  }

  /** Fields come back in order, ahead of whatever follows them. */
  lemma {:induction false} FieldsAhead(fs: seq<Field>, d: bytes)
    requires fs != [] && forall i :: 0 <= i < |fs| ==> LegalField(fs[i])
    ensures FormPairs(EncodeForm(fs) + ([AMPERSAND] + d)) == FieldEntries(fs) + FormPairs(d)
    ensures FormPairs(EncodeForm(fs)) == FieldEntries(fs)
  {
    hide EncodeField, FormPairs, LegalField, FieldEntry;
    var f := EncodeField(fs[0]);
    if |fs| == 1 {
      OneField(fs[0], d);
      assert FieldEntries(fs[1..]) == [] && FieldEntries(fs) == [FieldEntry(fs[0])];
    } else {
      var rest := EncodeForm(fs[1..]);
      FieldsAhead(fs[1..], d);
      OneField(fs[0], rest);
      OneField(fs[0], rest + ([AMPERSAND] + d));
      assert EncodeForm(fs) == f + ([AMPERSAND] + rest);
      assert EncodeForm(fs) + ([AMPERSAND] + d) == f + ([AMPERSAND] + (rest + ([AMPERSAND] + d)));
      assert [FieldEntry(fs[0])] + (FieldEntries(fs[1..]) + FormPairs(d)) == FieldEntries(fs) + FormPairs(d);
    }
  }

  /** A field without a name ends the form, whatever follows; so does an ampersand at the end. */
  lemma {:induction false} NamelessEnds(d: bytes)
    requires d == [] || d[0] == EQUALS || d[0] == AMPERSAND
    ensures FormPairs(d) == []
  {
    hide PairOf;
    var segment := Segments(d)[0];
    IndexOfIs(segment, EQUALS, 0);
  }

  lemma {:induction false} FieldsBehindAreLost(fs: seq<Field>, d: bytes)
    requires fs != [] && (forall i :: 0 <= i < |fs| ==> LegalField(fs[i]))
    requires d == [] || d[0] == EQUALS || d[0] == AMPERSAND
    ensures FormPairs(EncodeForm(fs) + ([AMPERSAND] + d)) == FieldEntries(fs)
  {
    hide FormPairs, EncodeForm, LegalField, FieldEntries;
    FieldsAhead(fs, d);
    NamelessEnds(d);
    assert FieldEntries(fs) + [] == FieldEntries(fs);
  }

  /** URL-encoded round trip: every legal spelling of a form parses to that form. */
  lemma {:induction false} FormRoundTrip(fs: seq<Field>)
    requires forall i :: 0 <= i < |fs| ==> LegalField(fs[i])
    ensures FormPairs(EncodeForm(fs)) == FieldEntries(fs)
  {
    if fs == [] {
      NoPairs();
    } else {
      FieldsAhead(fs, []);
    }
  }

  // ----- Text that no encoder writes

  const DIGITS: string := "0123456789ABCDEF"
  const SMALL_DIGITS: string := "0123456789abcdef"

  /** Hexadecimal digits have their values in either case, and every other byte counts as 0. */
  lemma {:induction false} HexValueIs(c: byte)
    ensures forall v :: 0 <= v < 16 && (c == DIGITS[v] as int || c == SMALL_DIGITS[v] as int) ==> HexValue(c) == v
    ensures HexValue(c) == 0 || c == DIGITS[HexValue(c)] as int || c == SMALL_DIGITS[HexValue(c)] as int
  {
  }

  /** A percent sign takes any two bytes behind it as digits; at the end of the text, where there are not two, it is
      dropped with what there is. */
  lemma {:induction false} EscapeTakesTwo(a: byte, b: byte, s: bytes)
    ensures Decode([PERCENT, a, b] + s) == [16 * HexValue(a) + HexValue(b)] + Decode(s)
    ensures Decode([PERCENT, a]) == [] && Decode([PERCENT]) == []
  {
    assert ([PERCENT, a, b] + s)[3..] == s;
  }

  /** Encoded text is decoded independently of what follows. */
  lemma {:induction false} DecodeAhead(t: seq<Spelled>, inName: bool, s: bytes)
    requires Legal(t, inName)
    ensures Decode(Encode(t) + s) == Plain(t) + Decode(s)
  {
    hide Decode, Spell;
    if t == [] {
      assert Encode(t) + s == s && Plain(t) + Decode(s) == Decode(s);
    } else {
      DecodeAhead(t[1..], inName, s);
      SpelledByte(t[0].c, t[0].sp, inName, Encode(t[1..]) + s);
      assert Encode(t) + s == Spell(t[0].c, t[0].sp) + (Encode(t[1..]) + s);
    }
  }

  lemma NoPairs()
    ensures FormPairs([]) == []
  {
  }

  // ----- The code

  /** The table of cgiSetupConstants. */
  method SetupConstants() returns (hexValue: array<nat>)
    ensures fresh(hexValue) && hexValue.Length == 256
    ensures forall c: byte :: hexValue[c] == HexValue(c)
  {
    hexValue := new nat[256];
    var i := 0;
    while i < 256
      invariant i <= 256 && forall j :: 0 <= j < i ==> hexValue[j] == 0
    {
      hexValue[i] := 0;
      i := i + 1;
    }
    SetDigits(hexValue, 48, [0, 1, 2, 3, 4, 5, 6, 7, 8, 9]);
    SetDigits(hexValue, 65, [10, 11, 12, 13, 14, 15]);
    SetDigits(hexValue, 97, [10, 11, 12, 13, 14, 15]);
  }

  /** The assignments for the digits with consecutive codes from `code` on. */
  method SetDigits(hexValue: array<nat>, code: nat, values: seq<nat>)
    requires code + |values| <= hexValue.Length
    modifies hexValue
    ensures forall c :: 0 <= c < hexValue.Length ==>
      hexValue[c] == if code <= c < code + |values| then values[c - code] else old(hexValue[c])
  {
    forall i | 0 <= i < |values| {
      hexValue[code + i] := values[i];
    }
  }

  datatype EscapeState = EscapeRest | EscapeFirst | EscapeSecond

  /** How many bytes of an escape have been read in a state. */
  function Pending(st: EscapeState): nat {
    match st case EscapeRest => 0 case EscapeFirst => 1 case EscapeSecond => 2
  }

  lemma DecodeStep(cp: bytes, at: nat)
    requires at < |cp|
    ensures cp[at] != PERCENT ==>
      Decode(cp[at..]) == [if cp[at] == PLUS then SPACE else cp[at]] + Decode(cp[at + 1..])
    ensures cp[at] == PERCENT ==>
      Decode(cp[at..]) == if at + 2 >= |cp| then []
                          else [16 * HexValue(cp[at + 1]) + HexValue(cp[at + 2])] + Decode(cp[at + 3..])
  {
    hide HexValue;
    var t := cp[at..];
    assert t[1..] == cp[at + 1..];
    if at + 2 < |cp| {
      assert t[3..] == cp[at + 3..];
    }
  }

  /** cgiUnescapeChars: len bytes of cp are decoded into a new block of len + 1 bytes. */
  method UnescapeChars(hexValue: array<nat>, cp: bytes) returns (s: array<byte>, dstPos: nat)
    requires hexValue.Length == 256 && forall c: byte :: hexValue[c] == HexValue(c)
    ensures fresh(s) && s.Length == |cp| + 1 && dstPos <= |cp|
    ensures s[..dstPos] == Decode(cp) && s[dstPos] == NUL
  {
    hide Decode, HexValue;
    s := new byte[|cp| + 1];
    var state, escapedValue, srcPos := EscapeRest, 0, 0;
    dstPos := 0;
    assert cp[0..] == cp;
    while srcPos < |cp|
      invariant srcPos <= |cp| && dstPos + Pending(state) <= srcPos
      invariant state != EscapeRest ==> cp[srcPos - Pending(state)] == PERCENT
      invariant state == EscapeSecond ==> escapedValue == 16 * HexValue(cp[srcPos - 1])
      invariant s[..dstPos] + Decode(cp[srcPos - Pending(state)..]) == Decode(cp)
    {
      var ch := cp[srcPos];
      DecodeStep(cp, srcPos - Pending(state));
      ghost var before := s[..dstPos];
      match state {
        case EscapeRest =>
          if ch == PERCENT {
            state := EscapeFirst;
          } else if ch == PLUS {
            s[dstPos] := SPACE;
            dstPos := dstPos + 1;
          } else {
            s[dstPos] := ch;
            dstPos := dstPos + 1;
          }
        case EscapeFirst =>
          escapedValue := hexValue[ch] * 16;
          state := EscapeSecond;
        case EscapeSecond =>
          escapedValue := escapedValue + hexValue[ch];
          s[dstPos] := escapedValue;
          dstPos := dstPos + 1;
          state := EscapeRest;
      }
      srcPos := srcPos + 1;
      assert s[..|before|] == before;
    }
    if state != EscapeRest {
      DecodeStep(cp, srcPos - Pending(state));
    } else {
      assert cp[srcPos..] == [];
      DecodeNothing();
    }
    s[dstPos] := NUL;
  }

  /** The segment that starts at pos, and what the pairs of the text from pos on come to. */
  lemma PairsFrom(data: bytes, pos: nat, end: nat)
    requires pos <= |data| && end == pos + IndexOf(data[pos..], AMPERSAND) <= |data|
    ensures FormPairs(data[pos..]) ==
      if NamePart(data[pos..end]) == [] then []
      else [PairOf(data[pos..end])] + if end < |data| then FormPairs(data[end + 1..]) else []
  {
    hide IndexOf, PairOf, NamePart;
    SliceOfRest(data, pos, end - pos);
    if end < |data| {
      SliceOfRest(data, pos, end - pos + 1);
    } else {
      assert data[pos..end] == data[pos..];
      assert Segments(data[pos..])[1..] == [];
      assert NamedPairs(Segments(data[pos..])[1..]) == [];
    }
  }

  /** Scans the name of the pair at pos: up to an ampersand, or past an equals sign. */
  method ScanAttr(data: bytes, pos: nat) returns (len: nat, next: nat)
    requires pos <= |data|
    ensures pos + len <= next <= |data|
    ensures forall i :: pos <= i < pos + len ==> data[i] != AMPERSAND && data[i] != EQUALS
    ensures if pos + len < |data| && data[pos + len] == EQUALS then next == pos + len + 1
            else next == pos + len && (next < |data| ==> data[next] == AMPERSAND)
  {
    len, next := 0, pos;
    while next != |data|
      invariant next == pos + len <= |data|
      invariant forall i :: pos <= i < next ==> data[i] != AMPERSAND && data[i] != EQUALS
      decreases |data| - next
    {
      if data[next] == AMPERSAND {
        break;
      }
      if data[next] == EQUALS {
        next := next + 1;
        break;
      }
      next := next + 1;
      len := len + 1;
    }
  }

  /** Scans the value at pos: up to the next ampersand, which is skipped. */
  method ScanText(data: bytes, pos: nat) returns (len: nat, next: nat, foundAmp: bool)
    requires pos <= |data|
    ensures len == IndexOf(data[pos..], AMPERSAND) && pos + len <= |data|
    ensures foundAmp == (pos + len < |data|) && next == if foundAmp then pos + len + 1 else pos + len
  {
    len, next, foundAmp := 0, pos, false;
    while next != |data|
      invariant !foundAmp && next == pos + len <= |data|
      invariant forall i :: pos <= i < next ==> data[i] != AMPERSAND
      decreases |data| - next
    {
      if data[next] == AMPERSAND {
        foundAmp := true;
        next := next + 1;
        break;
      }
      next := next + 1;
      len := len + 1;
    }
    IndexOfIs(data[pos..], AMPERSAND, len);
  }

  /** A segment ends where its value does. */
  lemma {:induction false} SegmentEnd(data: bytes, pos: nat, valueAt: nat, end: nat)
    requires pos <= valueAt <= end <= |data|
    requires forall i :: pos <= i < valueAt ==> data[i] != AMPERSAND
    requires end == valueAt + IndexOf(data[valueAt..], AMPERSAND)
    ensures end == pos + IndexOf(data[pos..], AMPERSAND)
  {
    var u := data[valueAt..];
    forall i | valueAt <= i < end ensures data[i] != AMPERSAND {
      assert u[i - valueAt] != AMPERSAND;
    }
    assert end < |data| ==> u[end - valueAt] == AMPERSAND;
    IndexOfIs(data[pos..], AMPERSAND, end - pos);
  }

  /** The name and the value of a segment, where the scans found them. */
  lemma {:induction false} SegmentParts(data: bytes, pos: nat, len: nat, valueAt: nat, end: nat)
    requires pos + len <= valueAt <= end <= |data|
    requires forall i :: pos <= i < pos + len ==> data[i] != AMPERSAND && data[i] != EQUALS
    requires if pos + len < |data| && data[pos + len] == EQUALS then valueAt == pos + len + 1
             else valueAt == pos + len && (valueAt < |data| ==> data[valueAt] == AMPERSAND)
    requires end == valueAt + IndexOf(data[valueAt..], AMPERSAND)
    ensures end == pos + IndexOf(data[pos..], AMPERSAND)
    ensures NamePart(data[pos..end]) == data[pos..pos + len]
    ensures ValuePart(data[pos..end]) == data[valueAt..end]
  {
    SegmentEnd(data, pos, valueAt, end);
    if valueAt == pos + len && valueAt < |data| {
      IndexOfIs(data[valueAt..], AMPERSAND, 0);
    }
    hide IndexOf;
    SplitAtEquals(data[pos..end], len);
    if len < end - pos {
      assert data[pos..end][len] == data[pos + len];
    }
    assert data[pos..end][..len] == data[pos..pos + len];
    assert valueAt == pos + len + 1 ==> data[pos..end][len + 1..] == data[valueAt..end];
  }

  /** A segment whose first equals sign stands at len, or that has none. */
  lemma {:induction false} SplitAtEquals(s: bytes, len: nat)
    requires len <= |s| && (forall i :: 0 <= i < len ==> s[i] != EQUALS) && (len < |s| ==> s[len] == EQUALS)
    ensures NamePart(s) == s[..len] && ValuePart(s) == if len < |s| then s[len + 1..] else []
  {
    IndexOfIs(s, EQUALS, len);
  }

  lemma NoPairsAtEnd(data: bytes)
    ensures FormPairs(data[|data|..]) == []
  {
    assert data[|data|..] == [];
  }

  /** Finds the name and the value of the pair at pos, and the place behind the pair. */
  method ScanPair(data: bytes, pos: nat) returns (len: nat, valueAt: nat, valueLen: nat, next: nat, foundAmp: bool)
    requires pos < |data|
    ensures pos + len <= valueAt && valueAt + valueLen <= next <= |data| && pos < next
    ensures foundAmp || next == |data|
    ensures len == 0 ==> FormPairs(data[pos..]) == []
    ensures len > 0 ==>
      (var pair := TextEntry(CStr(Decode(data[pos..pos + len])), CStr(Decode(data[valueAt..valueAt + valueLen])));
       FormPairs(data[pos..]) == [pair] + FormPairs(data[next..]))
  {
    hide IndexOf, Decode, NamePart, ValuePart, FormPairs, CStr;
    len, valueAt := ScanAttr(data, pos);
    valueLen, next, foundAmp := ScanText(data, valueAt);
    SegmentParts(data, pos, len, valueAt, valueAt + valueLen);
    PairsFrom(data, pos, valueAt + valueLen);
    NoPairsAtEnd(data);
  }

  /** Decodes a name and a value and links the pair behind the entries found so far. */
  method AddPair(hexValue: array<nat>, name: bytes, text: bytes, form: Form, l: Node?) returns (last: Node)
    requires hexValue.Length == 256 && forall c: byte :: hexValue[c] == HexValue(c)
    requires form.Valid() && l == if form.nodes == [] then null else form.nodes[|form.nodes| - 1]
    modifies form`first, form`nodes, form.nodes
    ensures form.Valid() && fresh(last) && form.nodes == old(form.nodes) + [last]
    ensures form.Entries() == old(form.Entries()) + [TextEntry(CStr(Decode(name)), CStr(Decode(text)))]
  {
    hide Decode, HexValue, CStr, Form.Entries;
    var attr, attrEnd := UnescapeChars(hexValue, name);
    var value, valueEnd := UnescapeChars(hexValue, text);
    CStrTerminated(attr[..attrEnd], attr[..]);
    CStrTerminated(value[..valueEnd], value[..]);
    last := form.AddLast(l, TextEntry(CStr(attr[..]), CStr(value[..])));
  }

  /** cgiParseFormInput: the list holds exactly the pairs of the text, whatever the text. */
  method ParseFormInput(hexValue: array<nat>, data: bytes, form: Form)
    requires hexValue.Length == 256 && forall c: byte :: hexValue[c] == HexValue(c)
    requires form.Valid() && form.nodes == []
    modifies form`first, form`nodes
    ensures form.Valid() && form.Entries() == FormPairs(data)
  {
    hide Decode, FormPairs, HexValue, CStr, Form.Entries, Collected;
    var pos := 0;
    var l: Node? := null;
    assert data[0..] == data;
    NoEntries(form);
    NoPairsAtEnd(data);
    CollectAll([], FormPairs(data));
    while pos != |data|
      invariant pos <= |data|
      invariant form.Valid() && l == if form.nodes == [] then null else form.nodes[|form.nodes| - 1]
      invariant fresh(set n | n in form.nodes)
      invariant Collected(form.Entries(), FormPairs(data[pos..]), FormPairs(data))
      decreases |data| - pos
    {
      var len, valueAt, valueLen, next, foundAmp := ScanPair(data, pos);
      if len == 0 {
        CollectAll(form.Entries(), FormPairs(data));
        return;
      }
      var name, text := data[pos..pos + len], data[valueAt..valueAt + valueLen];
      ghost var e := TextEntry(CStr(Decode(name)), CStr(Decode(text)));
      CollectOne(form.Entries(), e, FormPairs(data[next..]), FormPairs(data));
      pos := next;
      l := AddPair(hexValue, name, text, form, l);
      if !foundAmp {
        break;
      }
    }
    CollectAll(form.Entries(), FormPairs(data));
  }

  lemma NoEntries(form: Form)
    requires form.nodes == []
    ensures form.Entries() == []
  {
  }
}

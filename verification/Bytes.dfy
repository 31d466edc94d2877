/** Bytes, C strings and the few character classes of <ctype.h> the form engine uses. */
module Bytes {

  type byte = b: int | 0 <= b < 256
  type bytes = seq<byte>

  const NUL: byte := 0
  const LF: byte := 10
  const CR: byte := 13
  const SPACE: byte := 32
  const QUOTE: byte := 34
  const PERCENT: byte := 37
  const AMPERSAND: byte := 38
  const PLUS: byte := 43
  const DASH: byte := 45
  const COLON: byte := 58
  const SEMICOLON: byte := 59
  const EQUALS: byte := 61

  /** The text a NUL-terminated char pointer denotes: bytes without a NUL. */
  type cstring = s: bytes | NoNul(s)

  predicate NoNul(s: bytes) {
    forall i :: 0 <= i < |s| ==> s[i] != NUL
  }

  /** What `*p` reads when p points i bytes into s: the terminator lies right behind the text. */
  function CharAt(s: cstring, i: nat): byte {
    if i < |s| then s[i] else NUL
  }

  function Ascii(s: string): (r: bytes)
    requires forall i :: 0 <= i < |s| ==> 0 < s[i] as int < 128
    ensures |r| == |s| && NoNul(r)
    ensures forall i :: 0 <= i < |s| ==> r[i] == s[i] as int
  {
    seq(|s|, i requires 0 <= i < |s| => s[i] as int)
  }

  predicate IsSpace(b: byte) {
    b == SPACE || 9 <= b <= 13
  }

  predicate IsAlpha(b: byte) {
    65 <= b <= 90 || 97 <= b <= 122
  }

  predicate IsAlnum(b: byte) {
    IsAlpha(b) || 48 <= b <= 57
  }

  function Lower(b: byte): byte {
    if 65 <= b <= 90 then b + 32 else b
  }

  /** Index of the first c in s, or |s|. */
  function IndexOf(s: bytes, c: byte): (n: nat)
    ensures n <= |s|
    ensures forall i :: 0 <= i < n ==> s[i] != c
    ensures n < |s| ==> s[n] == c
  {
    if s == [] || s[0] == c then 0 else 1 + IndexOf(s[1..], c)
  }

  /** Length of the leading run of white space. */
  function SpaceRun(s: bytes): (n: nat)
    ensures n <= |s|
    ensures forall i :: 0 <= i < n ==> IsSpace(s[i])
    ensures n < |s| ==> !IsSpace(s[n])
  {
    if s == [] || !IsSpace(s[0]) then 0 else 1 + SpaceRun(s[1..])
  }

  /** Length of the leading run of letters and digits. */
  function AlnumRun(s: bytes): (n: nat)
    ensures n <= |s|
    ensures forall i :: 0 <= i < n ==> IsAlnum(s[i])
    ensures n < |s| ==> !IsAlnum(s[n])
  {
    if s == [] || !IsAlnum(s[0]) then 0 else 1 + AlnumRun(s[1..])
  }

  lemma IndexOfIs(s: bytes, c: byte, n: nat)
    requires n <= |s|
    requires forall i :: 0 <= i < n ==> s[i] != c
    requires n < |s| ==> s[n] == c
    ensures IndexOf(s, c) == n
  {
    var m := IndexOf(s, c);
  }

  lemma SpaceRunIs(s: bytes, n: nat)
    requires n <= |s|
    requires forall i :: 0 <= i < n ==> IsSpace(s[i])
    requires n < |s| ==> !IsSpace(s[n])
    ensures SpaceRun(s) == n
  {
    var m := SpaceRun(s);
  }

  lemma AlnumRunIs(s: bytes, n: nat)
    requires n <= |s|
    requires forall i :: 0 <= i < n ==> IsAlnum(s[i])
    requires n < |s| ==> !IsAlnum(s[n])
    ensures AlnumRun(s) == n
  {
    var m := AlnumRun(s);
  }

  /** The C string that starts at the beginning of a buffer. */
  function CStr(buffer: bytes): (s: cstring)
    ensures |s| <= |buffer|
  {
    buffer[..IndexOf(buffer, NUL)]
  }

  lemma CStrWhole(s: cstring)
    ensures CStr(s) == s
  {
    IndexOfIs(s, NUL, |s|);
  }

  /** A terminator behind raw bytes ends the string there, unless one of them ends it earlier. */
  lemma CStrTerminated(raw: bytes, buffer: bytes)
    requires |raw| < |buffer| && buffer[..|raw|] == raw && buffer[|raw|] == NUL
    ensures CStr(buffer) == CStr(raw)
  {
    var n := IndexOf(raw, NUL);
    assert forall i :: 0 <= i < |raw| ==> buffer[i] == raw[i];
    IndexOfIs(buffer, NUL, n);
    assert buffer[..n] == raw[..n];
  }

  method Terminate(buffer: array<byte>, len: nat)
    requires len < buffer.Length
    modifies buffer
    ensures CStr(buffer[..]) == CStr(old(buffer[..len]))
  {
    ghost var raw := buffer[..len];
    buffer[len] := NUL;
    CStrTerminated(raw, buffer[..]);
  }

  /** A text cut to at most n bytes. */
  function Cut(s: bytes, n: nat): (r: bytes)
    ensures NoNul(s) ==> NoNul(r)
  {
    if |s| <= n then s else s[..n]
  }

  lemma CutAppend(s: bytes, c: byte, n: nat)
    ensures Cut(Cut(s, n) + [c], n) == Cut(s + [c], n)
  {
  }

  lemma SliceOfRest(s: bytes, i: nat, k: nat)
    requires i + k <= |s|
    ensures s[i..][..k] == s[i..i + k] && s[i..][k..] == s[i + k..]
  {
  }

  lemma RestOfRest(s: bytes, i: nat, k: nat)
    requires i + k <= |s|
    ensures s[i..][k..] == s[i + k..]
  {
  }

  /** A text around one of its bytes. */
  lemma Around(a: bytes, c: byte, b: bytes)
    ensures var h := a + [c] + b; h[..|a|] == a && h[|a|] == c && h[|a| + 1..] == b && h[|a|..] == [c] + b
  {
  }

  /** Taking one byte off a rest. */
  lemma {:induction false} DropStep(s: bytes, i: nat, c: byte, rest: bytes)
    requires i < |s| && s[i..] == [c] + rest
    ensures s[i] == c && s[i + 1..] == rest
  {
    assert s[i] == s[i..][0];
    assert s[i + 1..] == s[i..][1..];
  }

  /** Equality up to the case of ASCII letters. */
  predicate EqNc(a: bytes, b: bytes) {
    |a| == |b| && forall i :: 0 <= i < |a| ==> Lower(a[i]) == Lower(b[i])
  }

  /** Is p a prefix of a, up to the case of ASCII letters? */
  predicate BeginsNc(a: bytes, p: bytes) {
    |p| <= |a| && EqNc(a[..|p|], p)
  }

  /** An upper case letter and the same letter in lower case. */
  predicate CasePair(upper: byte, lower: byte) {
    'A' as int <= upper <= 'Z' as int && lower == upper + ('a' as int - 'A' as int)
  }

  predicate SameUpToCase(a: byte, b: byte) {
    a == b || CasePair(a, b) || CasePair(b, a)
  }

  lemma LowerIff(a: byte, b: byte)
    ensures Lower(a) == Lower(b) <==> SameUpToCase(a, b)
  {
  }

  /** Texts are equal up to case if and only if their bytes are, one by one. */
  lemma EqNcIff(a: bytes, b: bytes)
    ensures EqNc(a, b) <==> |a| == |b| && forall i :: 0 <= i < |a| ==> SameUpToCase(a[i], b[i])
  {
    hide Lower, SameUpToCase;
    forall i | 0 <= i < |a| && i < |b| ensures Lower(a[i]) == Lower(b[i]) <==> SameUpToCase(a[i], b[i]) {
      LowerIff(a[i], b[i]);
    }
  }

  lemma BeginsNcIff(a: bytes, p: bytes)
    ensures BeginsNc(a, p) <==> |p| <= |a| && forall i :: 0 <= i < |p| ==> SameUpToCase(a[i], p[i])
  {
    hide Lower, SameUpToCase;
    if |p| <= |a| {
      EqNcIff(a[..|p|], p);
    }
  }

  /** The classes of isspace and isalnum, character by character. */
  lemma CharacterClasses(c: char)
    requires c as int < 128
    ensures IsSpace(c as int) <==> c in " \t\n\r\U{0B}\U{0C}"
    ensures IsAlpha(c as int) <==> 'a' <= c <= 'z' || 'A' <= c <= 'Z'
    ensures IsAlnum(c as int) <==> IsAlpha(c as int) || '0' <= c <= '9'
  {
  }

  lemma ByteNames()
    ensures [CR, LF, SPACE, QUOTE, PERCENT, AMPERSAND] == Ascii("\r\n \"%&")
    ensures [PLUS, DASH, COLON, SEMICOLON, EQUALS] == Ascii("+-:;=")
  {
  }

  /** cgiStrEqNc. */
  method StrEqNc(s1: cstring, s2: cstring) returns (equal: bool)
    ensures equal == EqNc(s1, s2)
  {
    var i := 0;
    while true
      invariant i <= |s1| && i <= |s2|
      invariant forall j :: 0 <= j < i ==> Lower(s1[j]) == Lower(s2[j])
      decreases |s1| - i
    {
      if CharAt(s1, i) == NUL {
        return CharAt(s2, i) == NUL;
      } else if CharAt(s2, i) == NUL {
        return false;
      }
      if IsAlpha(s1[i]) {
        if Lower(s1[i]) != Lower(s2[i]) {
          return false;
        }
      } else if s1[i] != s2[i] {
        return false;
      }
      i := i + 1;
    }
  }

  /** cgiStrBeginsNc. */
  method StrBeginsNc(s1: cstring, s2: cstring) returns (begins: bool)
    ensures begins == BeginsNc(s1, s2)
  {
    var i := 0;
    while true
      invariant i <= |s1| && i <= |s2|
      invariant forall j :: 0 <= j < i ==> Lower(s1[j]) == Lower(s2[j])
      decreases |s2| - i
    {
      if CharAt(s2, i) == NUL {
        return true;
      } else if CharAt(s1, i) == NUL {
        return false;
      }
      if IsAlpha(s1[i]) {
        if Lower(s1[i]) != Lower(s2[i]) {
          return false;
        }
      } else if s1[i] != s2[i] {
        return false;
      }
      i := i + 1;
    }
  }

  /** The APPEND macro: the byte is stored if room for it and a terminator remains. */
  method Append(buffer: array<byte>, len: nat, c: byte) returns (newLen: nat)
    requires len < buffer.Length
    modifies buffer
    ensures len <= newLen < buffer.Length
    ensures buffer[..newLen] == Cut(old(buffer[..len]) + [c], buffer.Length - 1)
  {
    newLen := len;
    if len + 1 < buffer.Length {
      buffer[len] := c;
      newLen := len + 1;
    }
  }
}

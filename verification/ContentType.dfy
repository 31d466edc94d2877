/** How main cuts the boundary out of the content type (the buffer cgiContentTypeData). */
module ContentType {
  import opened Bytes
  import opened HeaderParams
  import opened BoundarySearch
  import opened BoundaryReader

  const BUFFER_SIZE: nat := 1024
  const BOUNDARY_KEY: cstring := Ascii("boundary=")

  /** Length of the leading run without white space. */
  function WordRun(s: bytes): (n: nat)
    ensures n <= |s|
    ensures forall i :: 0 <= i < n ==> !IsSpace(s[i])
    ensures n < |s| ==> IsSpace(s[n])
  {
    if s == [] || IsSpace(s[0]) then 0 else 1 + WordRun(s[1..])
  }

  lemma WordRunIs(s: bytes, n: nat)
    requires n <= |s|
    requires forall i :: 0 <= i < n ==> !IsSpace(s[i])
    requires n < |s| ==> IsSpace(s[n])
    ensures WordRun(s) == n
  {
    var m := WordRun(s);
  }

  function FirstWord(s: cstring): (w: cstring)
    ensures NoSpace(w) && |w| <= |s|
  {
    s[..WordRun(s)]
  }

  function BehindKey(s: cstring): (r: cstring)
    requires BeginsNc(s, BOUNDARY_KEY)
    ensures |r| + |BOUNDARY_KEY| == |s|
  {
    s[|BOUNDARY_KEY|..]
  }

  /** What stands behind the first semicolon and any white space. */
  function BehindSemicolon(t: cstring): (a: cstring)
    requires IndexOf(t, SEMICOLON) < |t|
    ensures |a| < |t|
  {
    SkipWhite(t[IndexOf(t, SEMICOLON) + 1..])
  }

  /** The word behind the key of the first parameter that begins with the key. Its contract is
      why the ring is large enough, and why carriage return can only be the first byte of the
      delimiter. */
  function BoundaryOf(t: cstring): (b: cstring)
    ensures NoSpace(b) && (b == [] || |b| + |BOUNDARY_KEY| < |t|)
    decreases |t|
  {
    if IndexOf(t, SEMICOLON) == |t| then []
    else
      var a := BehindSemicolon(t);
      if BeginsNc(a, BOUNDARY_KEY) then FirstWord(BehindKey(a)) else BoundaryOf(a)
  }

  function MediaType(t: cstring): cstring {
    t[..IndexOf(t, SEMICOLON)]
  }

  // ----- A rendered content type is read back

  /** A parameter other than the boundary, with the white space ahead of it. */
  predicate OtherParam(s: cstring) {
    (forall i :: 0 <= i < |s| ==> s[i] != SEMICOLON) && !BeginsNc(SkipWhite(s), BOUNDARY_KEY)
  }

  /** `;p1;p2;...;` and then white space, the key of the boundary in any case, and the boundary. */
  function RenderKeyed(others: seq<cstring>, white: cstring, key: cstring, b: cstring): cstring {
    [SEMICOLON] + if others == [] then white + (key + b) else others[0] + RenderKeyed(others[1..], white, key, b)
  }

  /** Other parameters only. */
  function RenderOthers(others: seq<cstring>): cstring {
    if others == [] then [] else [SEMICOLON] + (others[0] + RenderOthers(others[1..]))
  }

  lemma KeyIsWhole()
    ensures |BOUNDARY_KEY| == 9 && !IsSpace(BOUNDARY_KEY[0]) && BOUNDARY_KEY == Ascii("boundary=")
    ensures forall i :: 0 <= i < |BOUNDARY_KEY| ==> Lower(BOUNDARY_KEY[i]) != SEMICOLON
  {
  }

  /** A semicolon cannot be part of the key. */
  lemma {:induction false} OtherParamIsNoKey(s: cstring, t: cstring)
    requires !BeginsNc(s, BOUNDARY_KEY) && (t == [] || t[0] == SEMICOLON)
    ensures !BeginsNc(s + t, BOUNDARY_KEY)
  {
    KeyIsWhole();
    var k := BOUNDARY_KEY;
    hide BOUNDARY_KEY;
    if |s| < |k| {
      assert |k| <= |s + t| ==> (s + t)[..|k|][|s|] == SEMICOLON;
    } else {
      assert (s + t)[..|k|] == s[..|k|];
    }
  }

  lemma {:induction false} KeyedWord(key: cstring, b: cstring)
    requires EqNc(key, BOUNDARY_KEY)
    ensures BeginsNc(key + b, BOUNDARY_KEY) && BehindKey(key + b) == b
    ensures !IsSpace(key[0])
  {
    KeyIsWhole();
    assert |key| == |BOUNDARY_KEY|;
    LowerIff(key[0], BOUNDARY_KEY[0]);
    hide BOUNDARY_KEY;
    assert (key + b)[..|key|] == key && (key + b)[|key|..] == b;
  }

  /** What stands behind the first semicolon, when it is known what precedes it. */
  lemma {:induction false} BehindMedia(media: cstring, u: cstring)
    requires forall i :: 0 <= i < |media| ==> media[i] != SEMICOLON
    ensures var t: cstring := media + ([SEMICOLON] + u);
      MediaType(t) == media && IndexOf(t, SEMICOLON) < |t| && BehindSemicolon(t) == SkipWhite(u)
  {
    hide SpaceRun, SkipWhite;
    var t: cstring := media + ([SEMICOLON] + u);
    IndexOfIs(t, SEMICOLON, |media|);
    hide IndexOf;
    assert t == media + [SEMICOLON] + u;
    Around(media, SEMICOLON, u);
  }

  lemma {:induction false} WhiteAhead(s: cstring, t: cstring)
    requires t == [] || t[0] == SEMICOLON
    ensures SkipWhite(s + t) == SkipWhite(s) + t
  {
    var n := SpaceRun(s);
    SpaceRunIs(s + t, n);
    assert (s + t)[n..] == s[n..] + t;
  }

  lemma OtherParamText(s: cstring)
    requires OtherParam(s)
    ensures forall i :: 0 <= i < |SkipWhite(s)| ==> SkipWhite(s)[i] != SEMICOLON
    ensures !BeginsNc(SkipWhite(s), BOUNDARY_KEY)
  {
  }

  /** The boundary is found behind any other parameters, up to the first white space behind its key, and
      the media type is what precedes them. */
  lemma {:induction false} BoundaryOfRendered(media: cstring, others: seq<cstring>, white: cstring, key: cstring,
                                              b: cstring)
    requires forall i :: 0 <= i < |media| ==> media[i] != SEMICOLON
    requires forall k :: 0 <= k < |others| ==> OtherParam(others[k])
    requires White(white) && EqNc(key, BOUNDARY_KEY)
    ensures MediaType(media + RenderKeyed(others, white, key, b)) == media
    ensures BoundaryOf(media + RenderKeyed(others, white, key, b)) == FirstWord(b)
    decreases |others|
  {
    hide BOUNDARY_KEY, FirstWord, BehindKey, BeginsNc, OtherParam, BehindSemicolon, MediaType, SkipWhite, EqNc;
    KeyIsWhole();
    if others == [] {
      KeyedWord(key, b);
      KeyIsNotEmpty(key);
      SkipsAll(white, key + b);
      BehindMedia(media, white + (key + b));
    } else {
      var s, rest := others[0], RenderKeyed(others[1..], white, key, b);
      OtherParamText(s);
      WhiteAhead(s, rest);
      BehindMedia(media, s + rest);
      OtherParamIsNoKey(SkipWhite(s), rest);
      BoundaryOfRendered(SkipWhite(s), others[1..], white, key, b);
    }
  }

  lemma KeyIsNotEmpty(key: cstring)
    requires EqNc(key, BOUNDARY_KEY)
    ensures key != []
  {
  }

  /** The longest boundary that the buffer has room for. */
  lemma {:induction false} LongestBoundary(b: cstring)
    requires |b| == MAX_BOUNDARY && NoSpace(b)
    ensures BoundaryOf(Cut(Ascii(";boundary=") + b, BUFFER_SIZE - 1)) == b
    ensures |Ascii(";boundary=") + b| == BUFFER_SIZE - 1 == 1023
  {
    KeyIsWhole();
    assert Ascii(";boundary=") == [SEMICOLON] + BOUNDARY_KEY;
    hide BOUNDARY_KEY, EqNc, FirstWord;
    var t: cstring := [] + RenderKeyed([], [], BOUNDARY_KEY, b);
    assert t == [SEMICOLON] + BOUNDARY_KEY + b;
    SameText(BOUNDARY_KEY);
    BoundaryOfRendered([], [], [], BOUNDARY_KEY, b);
    BoundaryUnchangedIff(b, []);
    assert b + [] == b;
  }

  lemma SameText(s: bytes)
    ensures EqNc(s, s)
  {
  }

  /** Without a parameter that begins with the key there is no boundary. */
  lemma {:induction false} NoBoundaryAmong(media: cstring, others: seq<cstring>)
    requires forall i :: 0 <= i < |media| ==> media[i] != SEMICOLON
    requires forall k :: 0 <= k < |others| ==> OtherParam(others[k])
    ensures MediaType(media + RenderOthers(others)) == media && BoundaryOf(media + RenderOthers(others)) == []
    decreases |others|
  {
    hide BOUNDARY_KEY, FirstWord, BehindKey, BeginsNc, OtherParam, BehindSemicolon, MediaType, SkipWhite;
    if others == [] {
      assert media + [] == media;
      OnlyMedia(media);
    } else {
      var s, rest := others[0], RenderOthers(others[1..]);
      OtherParamText(s);
      WhiteAhead(s, rest);
      BehindMedia(media, s + rest);
      OtherParamIsNoKey(SkipWhite(s), rest);
      NoBoundaryAmong(SkipWhite(s), others[1..]);
    }
  }

  lemma OnlyMedia(media: cstring)
    requires forall i :: 0 <= i < |media| ==> media[i] != SEMICOLON
    ensures MediaType(media) == media && BoundaryOf(media) == []
  {
    IndexOfIs(media, SEMICOLON, |media|);
  }

  /** What follows the boundary belongs to it up to the next white space, semicolon or not; so the
      boundary is read as it was sent if and only if nothing follows it or white space does. */
  lemma {:induction false} BoundaryUnchangedIff(b: cstring, tail: cstring)
    requires NoSpace(b)
    ensures FirstWord(b + tail) == b + FirstWord(tail)
    ensures FirstWord(b + tail) == b <==> tail == [] || IsSpace(tail[0])
  {
    var n := WordRun(tail);
    WordRunIs(b + tail, |b| + n);
    assert (b + tail)[..|b| + n] == b + tail[..n];
    if n > 0 {
      assert |FirstWord(b + tail)| > |b|;
    } else {
      assert b + tail[..0] == b;
    }
  }

  // ----- The code of main

  /** strchr(data + from, c); the result is the place of the terminator where C returns null. */
  method StrChr(data: array<byte>, from: nat, c: byte, ghost t: cstring) returns (at: nat)
    requires from <= |t| < data.Length && data[|t|] == NUL && c != NUL
    requires forall i :: from <= i < |t| ==> data[i] == t[i]
    ensures at == from + IndexOf(t[from..], c)
  {
    at := from;
    while data[at] != NUL && data[at] != c
      invariant from <= at <= |t|
      invariant forall i :: from <= i < at ==> t[i] != c
      decreases |t| - at
    {
      at := at + 1;
    }
    IndexOfIs(t[from..], c, at - from);
  }

  /** Where the first white space or the terminator stands. */
  method WordEnd(data: array<byte>, from: nat, ghost t: cstring) returns (end: nat)
    requires from <= |t| < data.Length && data[|t|] == NUL
    requires forall i :: from <= i < |t| ==> data[i] == t[i]
    ensures end == from + WordRun(t[from..])
  {
    end := from;
    while data[end] != NUL && !IsSpace(data[end])
      invariant from <= end <= |t|
      invariant forall i :: from <= i < end ==> !IsSpace(t[i])
      decreases |t| - end
    {
      end := end + 1;
    }
    WordRunIs(t[from..], end - from);
  }

  method SkipBufferWhite(data: array<byte>, from: nat, ghost t: cstring) returns (end: nat)
    requires from <= |t| < data.Length && data[|t|] == NUL
    requires forall i :: from <= i < |t| ==> data[i] == t[i]
    ensures from <= end <= |t| && t[end..] == SkipWhite(t[from..])
  {
    end := from;
    while IsSpace(data[end])
      invariant from <= end <= |t|
      invariant forall i :: from <= i < end ==> IsSpace(t[i])
      decreases |t| - end
    {
      end := end + 1;
    }
    SpaceRunIs(t[from..], end - from);
    SliceOfRest(t, from, end - from);
  }

  /** A terminator written behind bytes of t makes them a string of their own. */
  lemma CStrRange(data: bytes, t: cstring, a: nat, end: nat)
    requires a <= end <= |t| && end < |data| && data[end] == NUL
    requires forall i :: a <= i < end ==> data[i] == t[i]
    ensures CStr(data[a..]) == t[a..end]
  {
    IndexOfIs(data[a..], NUL, end - a);
  }

  /** Cuts the word that starts at `at` and returns it. */
  method CutWord(data: array<byte>, at: nat, ghost t: cstring) returns (word: cstring)
    requires at <= |t| < data.Length && data[|t|] == NUL
    requires forall i :: at <= i < |t| ==> data[i] == t[i]
    modifies data
    ensures word == FirstWord(t[at..])
    ensures forall i :: 0 <= i < at ==> data[i] == old(data[i])
  {
    hide CStr, WordRun;
    var end := WordEnd(data, at, t);
    SliceOfRest(t, at, end - at);
    data[end] := NUL;
    CStrRange(data[..], t, at, end);
    word := CStr(data[at..]);
  }

  /** The search for the key may start anywhere up to the next semicolon. */
  lemma BoundaryFrom(t: cstring, from: nat, semi: nat)
    requires from <= |t| && semi == from + IndexOf(t[from..], SEMICOLON) <= |t|
    ensures BoundaryOf(t[semi..]) == BoundaryOf(t[from..])
    ensures semi < |t| ==> t[semi] == SEMICOLON
  {
    hide BOUNDARY_KEY, BeginsNc, BehindKey, FirstWord, SkipWhite;
    if semi < |t| {
      SliceOfRest(t, from, semi - from);
      SliceOfRest(t, semi, 1);
      SliceOfRest(t, from, semi - from + 1);
      assert t[from..][semi - from] == t[semi];
      IndexOfIs(t[semi..], SEMICOLON, 0);
    }
  }

  /** A parameter that starts at `at`, behind a semicolon and white space. */
  lemma BoundaryAt(t: cstring, semi: nat, at: nat)
    requires semi < |t| && t[semi] == SEMICOLON && at <= |t| && t[at..] == SkipWhite(t[semi + 1..])
    ensures BoundaryOf(t[semi..]) ==
      if BeginsNc(t[at..], BOUNDARY_KEY) then FirstWord(BehindKey(t[at..])) else BoundaryOf(t[at..])
  {
    hide SkipWhite, BeginsNc, BOUNDARY_KEY, FirstWord, BehindKey;
    IndexOfIs(t[semi..], SEMICOLON, 0);
    SliceOfRest(t, semi, 1);
  }

  /** The loop: every semicolon on the way is overwritten with a terminator, up to the parameter
      that begins with the key. */
  method FindKey(data: array<byte>, ghost t: cstring) returns (found: bool, at: nat)
    requires |t| < data.Length && data[|t|] == NUL
    requires forall i :: 0 <= i < |t| ==> data[i] == t[i]
    modifies data
    ensures at <= |t| && data[|t|] == NUL && forall i :: at <= i < |t| ==> data[i] == t[i]
    ensures CStr(data[..]) == MediaType(t) && IndexOf(t, SEMICOLON) <= at
    ensures IndexOf(t, SEMICOLON) == |t| || data[IndexOf(t, SEMICOLON)] == NUL
    ensures forall i :: 0 <= i < IndexOf(t, SEMICOLON) ==> data[i] == t[i]
    ensures if found then BeginsNc(t[at..], BOUNDARY_KEY) && BoundaryOf(t) == FirstWord(BehindKey(t[at..]))
            else BoundaryOf(t) == []
  {
    hide BoundaryOf, IndexOf, SkipWhite, FirstWord, BeginsNc, CStr, BOUNDARY_KEY;
    found := false;
    assert t[0..] == t;
    at := StrChr(data, 0, SEMICOLON, t);
    BoundaryFrom(t, 0, at);
    ghost var first := at;
    while data[at] != NUL
      invariant first <= at <= |t| && first == IndexOf(t, SEMICOLON)
      invariant data[|t|] == NUL && forall i :: at <= i < |t| ==> data[i] == t[i]
      invariant forall i :: 0 <= i < first ==> data[i] == t[i]
      invariant first < at ==> data[first] == NUL
      invariant at < |t| ==> t[at] == SEMICOLON
      invariant BoundaryOf(t[at..]) == BoundaryOf(t)
      decreases |t| - at
    {
      data[at] := NUL;
      ghost var semi := at;
      at := SkipBufferWhite(data, at + 1, t);
      BoundaryAt(t, semi, at);
      CStrRange(data[..], t, at, |t|);
      assert t[at..|t|] == t[at..];
      found := StrBeginsNc(CStr(data[at..]), BOUNDARY_KEY);
      if found {
        break;
      }
      ghost var from := at;
      at := StrChr(data, at, SEMICOLON, t);
      BoundaryFrom(t, from, at);
    }
    if !found {
      NoBoundary(t);
    }
    CStrRange(data[..], t, 0, first);
  }

  /** The content type is copied, truncated to its buffer, and cut in place. */
  method ExtractBoundary(env: cstring) returns (contentType: cstring, multipartBoundary: cstring)
    ensures contentType == MediaType(Cut(env, BUFFER_SIZE - 1))
    ensures multipartBoundary == BoundaryOf(Cut(env, BUFFER_SIZE - 1))
    ensures NoSpace(multipartBoundary) && |multipartBoundary| <= MAX_BOUNDARY
  {
    hide BoundaryOf, IndexOf, FirstWord, BeginsNc, CStr, BOUNDARY_KEY;
    var t: cstring := Cut(env, BUFFER_SIZE - 1);
    var data := new byte[BUFFER_SIZE](i => if 0 <= i < |t| then t[i] else NUL);
    KeyIsWhole();
    multipartBoundary := [];
    var found, at := FindKey(data, t);
    if found {
      BeginsLength(t[at..]);
      SliceOfRest(t, at, |BOUNDARY_KEY|);
      multipartBoundary := CutWord(data, at + |BOUNDARY_KEY|, t);
      CStrRange(data[..], t, 0, IndexOf(t, SEMICOLON));
    }
    contentType := CStr(data[..]);
  }

  lemma BeginsLength(s: bytes)
    requires BeginsNc(s, BOUNDARY_KEY)
    ensures |s| >= |BOUNDARY_KEY|
  {
  }

  lemma NoBoundary(t: cstring)
    ensures BoundaryOf(t[|t|..]) == []
  {
  }
}

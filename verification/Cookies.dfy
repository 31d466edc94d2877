/** cgiCookieString and cgiCookies over the Cookie header (RFC 6265, section 4.2.1). */
module Cookies {
  import opened Bytes
  import opened FormEntries
  import opened HeaderParams
  import opened FormText

  // ----- Looking a cookie up

  /** Where the first semicolon stands, or the end. */
  function SemiAt(s: bytes): (n: nat)
    ensures n <= |s|
  {
    IndexOf(s, SEMICOLON)
  }

  /** Where the first equals sign stands, or the end. */
  function EqualsAt(s: bytes): (n: nat)
    ensures n <= |s|
  {
    IndexOf(s, EQUALS)
  }

  lemma SemiAtIs(s: bytes, n: nat)
    requires n <= |s| && (forall i :: 0 <= i < n ==> s[i] != SEMICOLON) && (n < |s| ==> s[n] == SEMICOLON)
    ensures SemiAt(s) == n
  {
    IndexOfIs(s, SEMICOLON, n);
  }

  lemma EqualsAtIs(s: bytes, n: nat)
    requires n <= |s| && (forall i :: 0 <= i < n ==> s[i] != EQUALS) && (n < |s| ==> s[n] == EQUALS)
    ensures EqualsAt(s) == n
  {
    IndexOfIs(s, EQUALS, n);
  }

  lemma FoundThere(s: bytes)
    ensures SemiAt(s) < |s| ==> s[SemiAt(s)] == SEMICOLON
    ensures EqualsAt(s) < |s| ==> s[EqualsAt(s)] == EQUALS
  {
  }

  function CommonPrefix(a: bytes, b: bytes): (k: nat)
    ensures k <= |a| && k <= |b|
  {
    if a == [] || b == [] || a[0] != b[0] then 0 else 1 + CommonPrefix(a[1..], b[1..])
  }

  lemma {:induction false} CommonPrefixSpec(a: bytes, b: bytes)
    ensures var k := CommonPrefix(a, b);
      && (forall i :: 0 <= i < k ==> a[i] == b[i])
      && (k < |a| && k < |b| ==> a[k] != b[k])
  {
    if a != [] && b != [] && a[0] == b[0] {
      CommonPrefixSpec(a[1..], b[1..]);
    }
  }

  datatype Lookup = CookieFound(value: bytes) | CookieAbsent | CookieMalformed

  /** What one piece of the header comes to: the answer, or the text of the next piece. */
  datatype Scanned = LookedUp(result: Lookup) | Skipped(rest: bytes)

  function ScanPiece(h: bytes, name: bytes): (r: Scanned)
    requires h != []
    ensures r.Skipped? ==> |r.rest| < |h|
  {
    var k := CommonPrefix(h, name);
    if k == |h| && k == |name| then LookedUp(CookieMalformed)
    else if k == |name| && h[k] == EQUALS then
      LookedUp(CookieFound(h[k + 1..][..SemiAt(h[k + 1..])]))
    else
      var j := SemiAt(h[k..]);
      if j == |h[k..]| then LookedUp(CookieAbsent) else Skipped(SkipWhite(h[k..][j + 1..]))
  }

  /** Every piece is compared with the name; a piece equal to the name that ends the header is
      a malformed header. */
  function LookUp(h: bytes, name: bytes): Lookup
    decreases |h|
  {
    if h == [] then CookieAbsent
    else
      match ScanPiece(h, name)
      case LookedUp(r) => r
      case Skipped(rest) => LookUp(rest, name)
  }

  // ----- Listing the names

  /** The name of one piece, if it has one, and the text behind the piece. */
  datatype Named = Named(names: seq<bytes>, last: bool, rest: bytes)

  /** The text up to an equals sign is a name; it is followed by a value up to a semicolon. */
  function NamePiece(h: bytes): (r: Named)
    ensures !r.last ==> |r.rest| < |h|
  {
    var a := SkipWhite(h);
    var k := EqualsAt(a);
    if k == |a| then Named(if a == [] then [] else [a], true, [])
    else
      var v := a[k + 1..];
      var j := SemiAt(v);
      Named(if k > 0 then [a[..k]] else [], j == |v|, if j == |v| then [] else v[j + 1..])
  }

  function CookieNames(h: bytes): seq<bytes>
    decreases |h|
  {
    var r := NamePiece(h);
    r.names + if r.last then [] else CookieNames(r.rest)
  }

  /** The slots the counting pass reserves, without the one for the null at the end. */
  function Slots(h: bytes): nat {
    Count(h, EQUALS)
  }

  /** Well-formed cookies, one after the other, and then a piece that is not blank and has no
      equals sign. */
  predicate EndsInBareName(h: bytes)
    decreases |h|
  {
    var a := SkipWhite(h);
    var k := EqualsAt(a);
    if k == |a| then a != []
    else
      var v := a[k + 1..];
      var j := SemiAt(v);
      k > 0 && EqualsAt(v[..j]) == j && j < |v| && EndsInBareName(v[j + 1..])
  }

  lemma {:induction false} NoneCounted(s: bytes, c: byte)
    requires IndexOf(s, c) == |s|
    ensures Count(s, c) == 0
  {
    if s != [] {
      assert s[0] != c;
      IndexOfIs(s[1..], c, |s| - 1);
      NoneCounted(s[1..], c);
    }
  }

  lemma {:induction false} SomeCounted(s: bytes, c: byte)
    requires IndexOf(s, c) < |s|
    ensures Count(s, c) > 0
  {
    if s[0] != c {
      SomeCounted(s[1..], c);
    }
  }

  lemma SplitCount(s: bytes, i: nat, c: byte)
    requires i <= |s|
    ensures Count(s, c) == Count(s[..i], c) + Count(s[i..], c)
  {
    assert s == s[..i] + s[i..];
    CountAppend(s[..i], s[i..], c);
  }

  /** White space in front of a piece and the name itself hold no equals sign. */
  lemma CountPiece(h: bytes)
    ensures var a := SkipWhite(h);
            var k := EqualsAt(a);
            && (k == |a| ==> Count(h, EQUALS) == 0)
            && (k < |a| ==> Count(h, EQUALS) == 1 + Count(a[k + 1..], EQUALS))
  {
    hide Count;
    var w := SpaceRun(h);
    var a := SkipWhite(h);
    var k := EqualsAt(a);
    SplitCount(h, w, EQUALS);
    IndexOfIs(h[..w], EQUALS, w);
    NoneCounted(h[..w], EQUALS);
    SplitCount(a, k, EQUALS);
    IndexOfIs(a[..k], EQUALS, k);
    NoneCounted(a[..k], EQUALS);
    if k < |a| {
      assert a[k..] == [EQUALS] + a[k + 1..];
      CountFirst(a[k..], EQUALS);
    } else {
      NoneCounted(a, EQUALS);
    }
  }

  lemma CountFirst(s: bytes, c: byte)
    requires s != [] && s[0] == c
    ensures Count(s, c) == 1 + Count(s[1..], c)
  {
  }

  lemma CountBehind(v: bytes, j: nat)
    requires j == SemiAt(v)
    ensures Count(v, EQUALS) == Count(v[..j], EQUALS) + if j < |v| then Count(v[j + 1..], EQUALS) else 0
  {
    hide Count, SemiAt, EqualsAt;
    SplitCount(v, j, EQUALS);
    FoundThere(v);
    if j < |v| {
      assert v[j..] == [SEMICOLON] + v[j + 1..];
      CountOther(v[j..], EQUALS);
    } else {
      assert v[j..] == [];
      NothingCounted(EQUALS);
    }
  }

  lemma NothingCounted(c: byte)
    ensures Count([], c) == 0
  {
  }

  lemma CountOther(s: bytes, c: byte)
    requires s != [] && s[0] != c
    ensures Count(s, c) == Count(s[1..], c)
  {
  }

  lemma NoneIffNone(s: bytes)
    ensures Count(s, EQUALS) == 0 <==> EqualsAt(s) == |s|
  {
    if EqualsAt(s) == |s| {
      NoneCounted(s, EQUALS);
    } else {
      SomeCounted(s, EQUALS);
    }
  }

  /** Where the pieces of a header lie, and how many equals signs they hold. */
  lemma PieceCounts(h: bytes)
    ensures var a := SkipWhite(h);
            var k := EqualsAt(a);
            if k == |a| then Slots(h) == 0
            else
              var v := a[k + 1..];
              var j := SemiAt(v);
              && Slots(h) == 1 + Count(v[..j], EQUALS) + (if j < |v| then Slots(v[j + 1..]) else 0)
              && (Count(v[..j], EQUALS) == 0 <==> EqualsAt(v[..j]) == j)
  {
    hide Count, SemiAt, EqualsAt, SkipWhite;
    var a := SkipWhite(h);
    var k := EqualsAt(a);
    CountPiece(h);
    if k < |a| {
      var v := a[k + 1..];
      CountBehind(v, SemiAt(v));
      NoneIffNone(v[..SemiAt(v)]);
    }
  }

  /** The list of cookie names loses its null terminator exactly on the headers that end in a
      bare name behind well-formed cookies: then all reserved slots are filled and one more. */
  lemma {:induction false} TerminatedUnlessBareName(h: bytes)
    ensures |CookieNames(h)| <= Slots(h) + 1
    ensures |CookieNames(h)| == Slots(h) + 1 <==> EndsInBareName(h)
    decreases |h|
  {
    hide Count, Slots, SemiAt, EqualsAt, SkipWhite;
    var a := SkipWhite(h);
    var k := EqualsAt(a);
    PieceCounts(h);
    if k < |a| {
      var v := a[k + 1..];
      var j := SemiAt(v);
      if j < |v| {
        TerminatedUnlessBareName(v[j + 1..]);
      }
    }
  }

  const BARE_HEADER: cstring := Ascii("abc")

  /** The shortest kind of such a header: no slot is reserved for its one name. */
  lemma BareHeaderIsNotTerminated()
    ensures CookieNames(BARE_HEADER) == [BARE_HEADER] && Slots(BARE_HEADER) == 0
  {
    var h := BARE_HEADER;
    SpaceRunIs(h, 0);
    EqualsAtIs(h, 3);
    NoneCounted(h, EQUALS);
  }

  // ----- A rendered header

  datatype Cookie = Cookie(name: bytes, value: bytes)

  /** `name=value`, with what stands behind it. */
  function Piece(c: Cookie, u: bytes): bytes {
    c.name + [EQUALS] + (c.value + u)
  }

  /** `n1=v1; n2=v2; ...` */
  function RenderCookies(cs: seq<Cookie>): bytes {
    if cs == [] then []
    else Piece(cs[0], if |cs| == 1 then [] else [SEMICOLON, SPACE] + RenderCookies(cs[1..]))
  }

  /** A name of a cookie someone can ask for. */
  predicate NameText(name: bytes) {
    name != [] && forall i :: 0 <= i < |name| ==> !IsSpace(name[i]) && name[i] != EQUALS && name[i] != SEMICOLON
  }

  predicate CookieText(c: Cookie) {
    NameText(c.name) && forall i :: 0 <= i < |c.value| ==> c.value[i] != SEMICOLON
  }

  function CookieNamesOf(cs: seq<Cookie>): (r: seq<bytes>)
    ensures |r| == |cs|
  {
    if cs == [] then [] else [cs[0].name] + CookieNamesOf(cs[1..])
  }

  /** The places a parser finds in a piece. */
  lemma PieceName(c: Cookie, u: bytes)
    requires CookieText(c)
    ensures var h := Piece(c, u);
      && h != [] && SkipWhite(h) == h && EqualsAt(h) == |c.name| < |h|
      && h[..|c.name|] == c.name && h[|c.name| + 1..] == c.value + u
  {
    hide SpaceRun, SemiAt, EqualsAt, SkipWhite;
    var h := Piece(c, u);
    NoWhite(h);
    EqualsAtIs(h, |c.name|);
  }

  lemma ValueEnd(c: Cookie, u: bytes)
    requires CookieText(c) && (u == [] || u[0] == SEMICOLON)
    ensures SemiAt(c.value + u) == |c.value|
    ensures (c.value + u)[..|c.value|] == c.value && (u != [] ==> (c.value + u)[|c.value| + 1..] == u[1..])
  {
    hide SemiAt, EqualsAt;
    SemiAtIs(c.value + u, |c.value|);
  }

  lemma NamesOfPiece(c: Cookie, u: bytes)
    requires CookieText(c) && (u == [] || u[0] == SEMICOLON)
    ensures NamePiece(Piece(c, u)) == Named([c.name], u == [], if u == [] then [] else u[1..])
  {
    hide SkipWhite, SemiAt, EqualsAt, CookieText, Piece;
    PieceName(c, u);
    ValueEnd(c, u);
    NameIsNotEmpty(c);
  }

  lemma NameIsNotEmpty(c: Cookie)
    requires CookieText(c)
    ensures |c.name| > 0
  {
  }

  /** Leading white space does not matter. */
  lemma NamesBehindSpace(h: bytes, a: bytes)
    requires SkipWhite(h) == SkipWhite(a)
    ensures CookieNames(h) == CookieNames(a) && EndsInBareName(h) == EndsInBareName(a)
  {
    SamePiece(h, a);
    BareBehindSpace(h, a);
    hide NamePiece, EndsInBareName, SkipWhite;
  }

  lemma SamePiece(h: bytes, a: bytes)
    requires SkipWhite(h) == SkipWhite(a)
    ensures NamePiece(h) == NamePiece(a)
  {
    hide SkipWhite, SemiAt, EqualsAt;
  }

  lemma BareBehindSpace(h: bytes, a: bytes)
    requires SkipWhite(h) == SkipWhite(a)
    ensures EndsInBareName(h) == EndsInBareName(a)
  {
    hide SkipWhite, SemiAt, EqualsAt;
  }

  lemma RenderedStartsPlain(cs: seq<Cookie>)
    requires forall i :: 0 <= i < |cs| ==> CookieText(cs[i])
    ensures SkipWhite([SPACE] + RenderCookies(cs)) == RenderCookies(cs) == SkipWhite(RenderCookies(cs))
  {
    if cs != [] {
      assert CookieText(cs[0]);
    }
    SkipsOne(RenderCookies(cs));
    NoWhite(RenderCookies(cs));
  }

  /** cgiCookies on a rendered header: exactly the names, in order, and a null behind them. */
  lemma {:induction false} NamesOfRendered(cs: seq<Cookie>)
    requires forall i :: 0 <= i < |cs| ==> CookieText(cs[i])
    ensures CookieNames(RenderCookies(cs)) == CookieNamesOf(cs)
    ensures !EndsInBareName(RenderCookies(cs))
  {
    hide SkipWhite, SemiAt, EqualsAt, CookieText, Piece, NamePiece, EndsInBareName;
    if cs == [] {
      EmptyHeader();
    } else if |cs| == 1 {
      NamesOfPiece(cs[0], []);
      PieceIsNoBareName(cs[0], []);
      assert CookieNamesOf(cs[1..]) == [];
    } else {
      var rest := RenderCookies(cs[1..]);
      var u: bytes := [SEMICOLON, SPACE] + rest;
      assert u[1..] == [SPACE] + rest;
      NamesOfPiece(cs[0], u);
      PieceIsNoBareName(cs[0], u);
      RenderedStartsPlain(cs[1..]);
      NamesBehindSpace([SPACE] + rest, rest);
      NamesOfRendered(cs[1..]);
    }
  }

  lemma EmptyHeader()
    ensures CookieNames([]) == [] && !EndsInBareName([])
  {
  }

  lemma PieceIsNoBareName(c: Cookie, u: bytes)
    requires CookieText(c) && (u == [] || u[0] == SEMICOLON)
    ensures EndsInBareName(Piece(c, u)) ==> u != [] && EndsInBareName(u[1..])
  {
    hide SkipWhite, SemiAt, EqualsAt, CookieText, Piece;
    PieceName(c, u);
    ValueEnd(c, u);
  }

  // ----- Looking up what was listed

  lemma {:induction false} CommonPrefixIs(a: bytes, b: bytes, k: nat)
    requires k <= |a| && k <= |b| && forall i :: 0 <= i < k ==> a[i] == b[i]
    requires k < |a| && k < |b| ==> a[k] != b[k]
    ensures CommonPrefix(a, b) == k
  {
    if k > 0 {
      CommonPrefixIs(a[1..], b[1..], k - 1);
    }
  }

  lemma SemicolonOfPiece(c: Cookie, u: bytes, k: nat)
    requires CookieText(c) && (u == [] || u[0] == SEMICOLON) && k <= |c.name|
    ensures var h, j := Piece(c, u), |c.name| + 1 + |c.value| - k;
      && k <= |h| && j <= |h[k..]| && SemiAt(h[k..]) == j
      && (u == [] ==> j == |h[k..]|)
      && (u != [] ==> j < |h[k..]| && h[k..][j + 1..] == u[1..])
  {
    var h, j := Piece(c, u), |c.name| + 1 + |c.value| - k;
    SemiAtIs(h[k..], j);
  }

  lemma PrefixOfPiece(c: Cookie, u: bytes, name: bytes)
    requires CookieText(c) && NameText(name)
    ensures var h, k := Piece(c, u), CommonPrefix(Piece(c, u), name);
      && k <= |c.name| < |h|
      && (k == |name| && h[k] == EQUALS <==> name == c.name)
  {
    hide CommonPrefix;
    var h, k, n := Piece(c, u), CommonPrefix(Piece(c, u), name), |c.name|;
    CommonPrefixSpec(h, name);
    assert h[n] == EQUALS;
    assert forall i :: 0 <= i < n ==> h[i] == c.name[i];
    if name == c.name {
      CommonPrefixIs(h, name, n);
    } else {
      assert k == n == |name| ==> name == c.name;
    }
  }

  /** A piece is either the cookie that is asked for or skipped altogether. */
  lemma LookUpPiece(c: Cookie, u: bytes, name: bytes)
    requires CookieText(c) && NameText(name) && (u == [] || u[0] == SEMICOLON)
    ensures Piece(c, u) != []
    ensures ScanPiece(Piece(c, u), name) ==
      if name == c.name then LookedUp(CookieFound(c.value))
      else if u == [] then LookedUp(CookieAbsent) else Skipped(SkipWhite(u[1..]))
  {
    hide SkipWhite, SemiAt, EqualsAt, CookieText, Piece, NameText, CommonPrefix;
    PieceName(c, u);
    ValueEnd(c, u);
    PrefixOfPiece(c, u, name);
    SemicolonOfPiece(c, u, CommonPrefix(Piece(c, u), name));
    if name == c.name {
      PrefixWhole(c, u);
    }
  }

  lemma PrefixWhole(c: Cookie, u: bytes)
    requires CookieText(c)
    ensures CommonPrefix(Piece(c, u), c.name) == |c.name| && Piece(c, u)[|c.name|] == EQUALS
  {
    CommonPrefixIs(Piece(c, u), c.name, |c.name|);
  }

  predicate FirstOfName(cs: seq<Cookie>, i: nat)
    requires i < |cs|
  {
    forall j :: 0 <= j < i ==> cs[j].name != cs[i].name
  }

  /** cgiCookieString on a rendered header finds the first cookie of that name, and no other. */
  lemma {:induction false} LookUpRendered(cs: seq<Cookie>, name: bytes)
    requires forall i :: 0 <= i < |cs| ==> CookieText(cs[i])
    requires NameText(name)
    ensures match LookUp(RenderCookies(cs), name)
            case CookieFound(v) => exists i :: 0 <= i < |cs| && cs[i] == Cookie(name, v) && FirstOfName(cs, i)
            case CookieAbsent => forall i :: 0 <= i < |cs| ==> cs[i].name != name
            case CookieMalformed => false
  {
    hide SkipWhite, SemiAt, EqualsAt, CookieText, Piece, NameText, ScanPiece;
    if cs == [] {
      LookUpNothing(name);
    } else if |cs| == 1 {
      LookUpPiece(cs[0], [], name);
    } else {
      var rest := RenderCookies(cs[1..]);
      var u: bytes := [SEMICOLON, SPACE] + rest;
      assert u[1..] == [SPACE] + rest;
      LookUpPiece(cs[0], u, name);
      RenderedStartsPlain(cs[1..]);
      LookUpRendered(cs[1..], name);
      if name != cs[0].name {
        match LookUp(rest, name)
        case CookieFound(v) =>
          var i :| 0 <= i < |cs[1..]| && cs[1..][i] == Cookie(name, v) && FirstOfName(cs[1..], i);
          assert cs[i + 1] == Cookie(name, v);
          forall j | 0 <= j < i + 1 ensures cs[j].name != name {
            assert j > 0 ==> cs[j] == cs[1..][j - 1];
          }
          assert FirstOfName(cs, i + 1);
        case CookieAbsent =>
          forall i | 0 <= i < |cs| ensures cs[i].name != name {
            assert i > 0 ==> cs[i] == cs[1..][i - 1];
          }
      }
    }
  }

  /** Lookup agrees with listing: with distinct names, every listed cookie is found with its value. */
  lemma {:induction false} ListedIsFound(cs: seq<Cookie>, i: nat)
    requires forall k :: 0 <= k < |cs| ==> CookieText(cs[k])
    requires forall k, j :: 0 <= k < j < |cs| ==> cs[k].name != cs[j].name
    requires i < |cs|
    ensures CookieNames(RenderCookies(cs)) == CookieNamesOf(cs)
    ensures CookieNamesOf(cs)[i] == cs[i].name
    ensures LookUp(RenderCookies(cs), cs[i].name) == CookieFound(cs[i].value)
  {
    hide LookUp, CookieNames, RenderCookies;
    assert CookieText(cs[i]);
    NamesOfRendered(cs);
    LookUpRendered(cs, cs[i].name);
    NameAt(cs, i);
  }

  lemma {:induction false} NameAt(cs: seq<Cookie>, i: nat)
    requires i < |cs|
    ensures CookieNamesOf(cs)[i] == cs[i].name
  {
    if i > 0 {
      NameAt(cs[1..], i - 1);
    }
  }

  lemma LookUpNothing(name: bytes)
    ensures LookUp([], name) == CookieAbsent
  {
  }

  // ----- Any header, piece by piece

  /** The piece asked for: its value goes up to the next semicolon, equals signs and all. */
  lemma {:induction false} FoundPiece(name: bytes, v: bytes, rest: bytes)
    requires SEMICOLON !in v && (rest == [] || rest[0] == SEMICOLON)
    ensures LookUp(name + [EQUALS] + v + rest, name) == CookieFound(v)
  {
    hide SemiAt, EqualsAt, SkipWhite;
    var h := name + [EQUALS] + v + rest;
    CommonPrefixIs(h, name, |name|);
    hide CommonPrefix;
    assert h[|name|] == EQUALS && h[|name| + 1..] == v + rest;
    SemiAtIs(v + rest, |v|);
    assert (v + rest)[..|v|] == v;
  }

  /** A header that ends in the name asked for, with no equals sign, is malformed. */
  lemma {:induction false} BareNameAtEnd(name: bytes)
    requires name != []
    ensures LookUp(name, name) == CookieMalformed
  {
    hide SemiAt, EqualsAt, SkipWhite;
    CommonPrefixIs(name, name, |name|);
  }

  lemma SemiBehind(a: bytes, b: bytes)
    requires SEMICOLON !in a && (b == [] || b[0] == SEMICOLON)
    ensures SemiAt(a + b) == |a|
  {
    SemiAtIs(a + b, |a|);
  }

  lemma EqualsBehind(a: bytes, b: bytes)
    requires EQUALS !in a && (b == [] || b[0] == EQUALS)
    ensures EqualsAt(a + b) == |a|
  {
    EqualsAtIs(a + b, |a|);
  }

  /** Every other piece is passed over, with the white space behind its semicolon. */
  lemma {:induction false} PassedPiece(piece: bytes, white: bytes, rest: bytes, name: bytes)
    requires SEMICOLON !in piece && SEMICOLON !in name && !(name + [EQUALS] <= piece)
    requires (forall i :: 0 <= i < |white| ==> IsSpace(white[i])) && (rest == [] || !IsSpace(rest[0]))
    ensures LookUp(piece + [SEMICOLON] + (white + rest), name) == LookUp(rest, name)
  {
    hide SemiAt, EqualsAt, SkipWhite, CommonPrefix, ScanPiece;
    var behind := white + rest;
    var h := piece + [SEMICOLON] + behind;
    var k := CommonPrefix(h, name);
    assert h == piece + ([SEMICOLON] + behind);
    PassedPrefix(piece, [SEMICOLON] + behind, name);
    assert h[k..] == piece[k..] + ([SEMICOLON] + behind);
    SemiBehind(piece[k..], [SEMICOLON] + behind);
    Around(piece[k..], SEMICOLON, behind);
    assert h[k..] == piece[k..] + [SEMICOLON] + behind;
    SkipsAll(white, rest);
    ScanMiss(h, name, k, |piece| - k);
  }

  /** The comparison with the name ends within a piece that is not the one asked for. */
  lemma {:induction false} PassedPrefix(piece: bytes, behind: bytes, name: bytes)
    requires SEMICOLON !in piece && SEMICOLON !in name && !(name + [EQUALS] <= piece)
    requires behind == [] || behind[0] == SEMICOLON
    ensures var h, k := piece + behind, CommonPrefix(piece + behind, name);
      k <= |piece| && (k == |name| && k < |h| ==> h[k] != EQUALS)
  {
    hide CommonPrefix;
    var h := piece + behind;
    var k := CommonPrefix(h, name);
    CommonPrefixSpec(h, name);
    if |piece| < |name| && behind != [] {
      assert h[|piece|] == SEMICOLON && name[|piece|] != SEMICOLON;
    }
    assert k == |name| && k <= |piece| ==> piece[..k] == name;
    if |name| < |piece| && name <= piece {
      assert piece[..|name| + 1] == name + [piece[|name|]];
    }
  }

  /** At the last piece, if it is neither the name with a value nor the bare name, the lookup gives up. */
  lemma {:induction false} LastPiece(piece: bytes, name: bytes)
    requires SEMICOLON !in piece && SEMICOLON !in name && !(name + [EQUALS] <= piece) && piece != name
    ensures LookUp(piece, name) == CookieAbsent
  {
    hide SemiAt, EqualsAt, SkipWhite, CommonPrefix, ScanPiece;
    if piece != [] {
      assert piece + [] == piece;
      PassedPrefix(piece, [], name);
      var k := CommonPrefix(piece, name);
      CommonPrefixSpec(piece, name);
      assert piece[k..] + [] == piece[k..];
      SemiBehind(piece[k..], []);
      assert k == |piece| == |name| ==> piece == name;
      LastScan(piece, name, k);
    }
  }

  lemma LastScan(h: bytes, name: bytes, k: nat)
    requires h != [] && k == CommonPrefix(h, name) && SemiAt(h[k..]) == |h| - k
    requires !(k == |h| && k == |name|) && (k == |name| && k < |h| ==> h[k] != EQUALS)
    ensures ScanPiece(h, name) == LookedUp(CookieAbsent)
  {
    hide SemiAt, EqualsAt, SkipWhite, CommonPrefix;
  }

  /** Listing, at any piece: what stands ahead of the next equals sign is a name, unless it is empty; then a value
      is passed over up to the next semicolon. */
  lemma {:induction false} ListedPiece(white: bytes, name: bytes, v: bytes, rest: bytes)
    requires forall i :: 0 <= i < |white| ==> IsSpace(white[i])
    requires EQUALS !in name && (name != [] ==> !IsSpace(name[0])) && SEMICOLON !in v
    ensures CookieNames(white + (name + [EQUALS] + (v + [SEMICOLON] + rest)))
         == (if name == [] then [] else [name]) + CookieNames(rest)
    ensures CookieNames(white + (name + [EQUALS] + v)) == if name == [] then [] else [name]
  {
    hide SemiAt, NamePiece, SkipWhite;
    var long := v + [SEMICOLON] + rest;
    ListedName(white, name, long);
    ListedName(white, name, v);
    assert long == v + ([SEMICOLON] + rest) && v + [] == v;
    SemiBehind(v, [SEMICOLON] + rest);
    SemiBehind(v, []);
    Around(v, SEMICOLON, rest);
    assert [name] + [] == [name];
  }

  lemma {:induction false} ListedName(white: bytes, name: bytes, behind: bytes)
    requires forall i :: 0 <= i < |white| ==> IsSpace(white[i])
    requires EQUALS !in name && (name != [] ==> !IsSpace(name[0]))
    ensures var j := SemiAt(behind);
      NamePiece(white + (name + [EQUALS] + behind))
      == Named(if name == [] then [] else [name], j == |behind|, if j == |behind| then [] else behind[j + 1..])
  {
    hide SemiAt, EqualsAt, SkipWhite;
    var a := name + [EQUALS] + behind;
    SkipsAll(white, a);
    assert a == name + ([EQUALS] + behind);
    EqualsBehind(name, [EQUALS] + behind);
    Around(name, EQUALS, behind);
  }

  /** Text without an equals sign, at the end, is a name as well. */
  lemma {:induction false} ListedRest(white: bytes, name: bytes)
    requires forall i :: 0 <= i < |white| ==> IsSpace(white[i])
    requires EQUALS !in name && (name != [] ==> !IsSpace(name[0]))
    ensures CookieNames(white + name) == if name == [] then [] else [name]
  {
    hide SemiAt, EqualsAt, SkipWhite;
    SkipsAll(white, name);
    assert name + [] == name;
    EqualsBehind(name, []);
  }

  // ----- The code

  /** How many bytes of the name follow at p, and whether both texts end together. */
  method MatchName(cookie: cstring, p: nat, name: cstring) returns (k: nat)
    requires p <= |cookie|
    ensures k == CommonPrefix(cookie[p..], name)
  {
    k := 0;
    while CharAt(cookie, p + k) == CharAt(name, k) && CharAt(cookie, p + k) != NUL
      invariant p + k <= |cookie| && k <= |name|
      invariant forall i :: 0 <= i < k ==> cookie[p..][i] == name[i]
      decreases |name| - k
    {
      assert cookie[p..][k] == cookie[p + k];
      k := k + 1;
    }
    assert p + k < |cookie| ==> cookie[p..][k] == cookie[p + k];
    CommonPrefixIs(cookie[p..], name, k);
  }

  /** The next semicolon at or behind p, or the end. */
  method NextSemicolon(cookie: cstring, p: nat) returns (at: nat)
    requires p <= |cookie|
    ensures at == p + SemiAt(cookie[p..]) <= |cookie|
    ensures at < |cookie| ==> cookie[at] == SEMICOLON
  {
    at := p;
    while CharAt(cookie, at) != NUL && CharAt(cookie, at) != SEMICOLON
      invariant p <= at <= |cookie|
      invariant forall i :: p <= i < at ==> cookie[i] != SEMICOLON
      decreases |cookie| - at
    {
      at := at + 1;
    }
    SemiAtIs(cookie[p..], at - p);
  }

  /** Copies the value at p up to its semicolon as far as it fits. */
  method CopyValue(cookie: cstring, p: nat, value: array<byte>) returns (r: FormResult)
    requires p <= |cookie|
    modifies value
    ensures var v := cookie[p..][..SemiAt(cookie[p..])];
      && (value.Length > 0 ==> CStr(value[..]) == Cut(v, value.Length - 1))
      && r == if |v| > 0 && |v| >= value.Length then FormTruncated else FormSuccess
  {
    hide SemiAt, EqualsAt, CStr;
    var end := NextSemicolon(cookie, p);
    ghost var v: cstring := cookie[p..end];
    SliceOfRest(cookie, p, end - p);
    var at, len := p, 0;
    while at < end && len + 1 < value.Length
      invariant p <= at <= end && len == at - p && (len == 0 || len < value.Length)
      invariant forall i :: 0 <= i < len ==> value[i] == v[i]
    {
      value[len] := cookie[at];
      len := len + 1;
      at := at + 1;
    }
    if value.Length > 0 {
      assert value[..len] == Cut(v, value.Length - 1);
      Terminate(value, len);
      CStrWhole(Cut(v, value.Length - 1));
    }
    r := if at == end then FormSuccess else FormTruncated;
  }

  /** One round of the lookup, by places in the whole header: the header ends with the name. */
  lemma LookUpEnds(cookie: bytes, p: nat, name: bytes)
    requires p < |cookie| && CommonPrefix(cookie[p..], name) == |name| == |cookie| - p
    ensures ScanPiece(cookie[p..], name) == LookedUp(CookieMalformed)
  {
    hide SemiAt, EqualsAt, SkipWhite, CommonPrefix;
  }

  /** The name and an equals sign. */
  lemma LookUpHit(cookie: bytes, p: nat, name: bytes)
    requires p + |name| < |cookie| && CommonPrefix(cookie[p..], name) == |name| && cookie[p + |name|] == EQUALS
    ensures var v := cookie[p + |name| + 1..];
      ScanPiece(cookie[p..], name) == LookedUp(CookieFound(v[..SemiAt(v)]))
  {
    hide SemiAt, EqualsAt, SkipWhite, CommonPrefix;
    RestOfRest(cookie, p, |name| + 1);
    assert cookie[p..][|name|] == cookie[p + |name|];
  }

  /** Anything else. */
  lemma LookUpMiss(cookie: bytes, p: nat, name: bytes, k: nat, semi: nat)
    requires p < |cookie| && k == CommonPrefix(cookie[p..], name) && p + k <= |cookie|
    requires k == |name| ==> p + k < |cookie| && cookie[p + k] != EQUALS
    requires semi == p + k + SemiAt(cookie[p + k..]) <= |cookie|
    ensures ScanPiece(cookie[p..], name) ==
      if semi == |cookie| then LookedUp(CookieAbsent) else Skipped(SkipWhite(cookie[semi + 1..]))
  {
    hide SemiAt, EqualsAt, SkipWhite, CommonPrefix, ScanPiece;
    var h := cookie[p..];
    RestOfRest(cookie, p, k);
    assert k == |name| ==> h[k] == cookie[p + k];
    ScanMiss(h, name, k, semi - (p + k));
    if semi < |cookie| {
      RestOfRest(cookie, p + k, semi - (p + k) + 1);
    }
  }

  lemma ScanMiss(h: bytes, name: bytes, k: nat, j: nat)
    requires h != [] && k == CommonPrefix(h, name) && j == SemiAt(h[k..])
    requires k == |name| ==> k < |h| && h[k] != EQUALS
    ensures ScanPiece(h, name) ==
      if j == |h[k..]| then LookedUp(CookieAbsent) else Skipped(SkipWhite(h[k..][j + 1..]))
  {
    hide SemiAt, EqualsAt, SkipWhite, CommonPrefix;
  }

  /** cgiCookieString; `space` is the length of the buffer. */
  method CookieString(cookie: cstring, name: cstring, value: array<byte>) returns (r: FormResult)
    modifies value
    ensures match LookUp(cookie, name)
            case CookieFound(v) =>
              && (value.Length > 0 ==> CStr(value[..]) == Cut(v, value.Length - 1))
              && r == (if |v| > 0 && |v| >= value.Length then FormTruncated else FormSuccess)
            case CookieAbsent => r == FormNotFound && (value.Length > 0 ==> CStr(value[..]) == [])
            case CookieMalformed => r == FormNotFound && value[..] == old(value[..])
  {
    hide SemiAt, EqualsAt, CStr, SkipWhite, CommonPrefix, ScanPiece;
    var p := 0;
    assert cookie[0..] == cookie;
    LookUpAtEnd(cookie, name);
    while p < |cookie|
      invariant p <= |cookie| && value[..] == old(value[..])
      invariant LookUp(cookie[p..], name) == LookUp(cookie, name)
      decreases |cookie| - p
    {
      var k := MatchName(cookie, p, name);
      if p + k == |cookie| && k == |name| {
        LookUpEnds(cookie, p, name);
        return FormNotFound;
      }
      if k == |name| && CharAt(cookie, p + k) == EQUALS {
        LookUpHit(cookie, p, name);
        r := CopyValue(cookie, p + k + 1, value);
        return;
      }
      var semi := NextSemicolon(cookie, p + k);
      LookUpMiss(cookie, p, name, k, semi);
      if semi == |cookie| {
        break;
      }
      p := SkipWhiteAt(cookie, semi + 1);
    }
    if value.Length > 0 {
      Terminate(value, 0);
      CStrWhole([]);
    }
    r := FormNotFound;
  }

  lemma LookUpAtEnd(cookie: bytes, name: bytes)
    ensures LookUp(cookie[|cookie|..], name) == CookieAbsent
  {
    assert cookie[|cookie|..] == [];
  }

  /** The counting pass of cgiCookies. */
  method CountSlots(cookie: cstring) returns (total: nat)
    ensures total == Slots(cookie)
  {
    total := 0;
    var p := 0;
    assert cookie[..0] == [];
    while CharAt(cookie, p) != NUL
      invariant p <= |cookie| && total == Count(cookie[..p], EQUALS)
      decreases |cookie| - p
    {
      assert cookie[..p + 1] == cookie[..p] + [cookie[p]];
      CountAppend(cookie[..p], [cookie[p]], EQUALS);
      CountFirstOrNot(cookie[p]);
      if cookie[p] == EQUALS {
        total := total + 1;
      }
      p := p + 1;
    }
    assert cookie[..p] == cookie;
  }

  lemma CountFirstOrNot(b: byte)
    ensures Count([b], EQUALS) == if b == EQUALS then 1 else 0
  {
  }

  method NextEquals(cookie: cstring, p: nat) returns (at: nat)
    requires p <= |cookie|
    ensures at == p + EqualsAt(cookie[p..]) <= |cookie|
  {
    at := p;
    while CharAt(cookie, at) != NUL && CharAt(cookie, at) != EQUALS
      invariant p <= at <= |cookie|
      invariant forall i :: p <= i < at ==> cookie[i] != EQUALS
      decreases |cookie| - at
    {
      at := at + 1;
    }
    EqualsAtIs(cookie[p..], at - p);
  }

  /** One round of the listing, by places in the whole header: the last name has no equals sign. */
  lemma NamesEnd(cookie: bytes, p: nat, n: nat)
    requires p <= n <= |cookie| && cookie[n..] == SkipWhite(cookie[p..])
    requires EqualsAt(cookie[n..]) == |cookie| - n
    ensures NamePiece(cookie[p..]) == Named(if n < |cookie| then [cookie[n..|cookie|]] else [], true, [])
  {
    hide SemiAt, EqualsAt, SkipWhite;
    assert cookie[n..|cookie|] == cookie[n..];
  }

  /** A name, an equals sign and a value. */
  lemma NamesStep(cookie: bytes, p: nat, n: nat, eq: nat, semi: nat)
    requires p <= n <= eq < |cookie| && cookie[n..] == SkipWhite(cookie[p..])
    requires eq == n + EqualsAt(cookie[n..])
    requires semi == eq + SemiAt(cookie[eq..]) <= |cookie|
    ensures NamePiece(cookie[p..]) ==
      Named(if n < eq then [cookie[n..eq]] else [], semi == |cookie|,
        if semi == |cookie| then [] else cookie[semi + 1..])
  {
    hide SemiAt, EqualsAt, SkipWhite, NamePiece;
    var a, k := cookie[n..], eq - n;
    assert a[..k] == cookie[n..eq];
    RestOfRest(cookie, n, k + 1);
    SemicolonBehindEquals(cookie, n, eq, semi);
    NameParts(cookie[p..], a, k, semi - (eq + 1));
    if semi < |cookie| {
      RestOfRest(cookie, eq + 1, semi - eq);
    }
  }

  lemma NameParts(h: bytes, a: bytes, k: nat, j: nat)
    requires a == SkipWhite(h) && k == EqualsAt(a) < |a| && j == SemiAt(a[k + 1..])
    ensures var v := a[k + 1..];
      j <= |v| && NamePiece(h) == Named(if k > 0 then [a[..k]] else [], j == |v|, if j == |v| then [] else v[j + 1..])
  {
    hide SemiAt, EqualsAt, SkipWhite;
  }

  lemma SemicolonBehindEquals(cookie: bytes, n: nat, eq: nat, semi: nat)
    requires n <= eq < |cookie| && eq == n + EqualsAt(cookie[n..])
    requires semi == eq + SemiAt(cookie[eq..])
    ensures semi == eq + 1 + SemiAt(cookie[eq + 1..])
  {
    assert cookie[n..][eq - n] == EQUALS;
    assert cookie[eq..][0] == EQUALS;
    assert cookie[eq..][1..] == cookie[eq + 1..];
  }

  /** cgiCookies. All names are stored in the order of the header; whether a null is left
      behind them is what TerminatedUnlessBareName tells. */
  method ListCookies(cookie: cstring) returns (result: array<Option<bytes>>)
    ensures fresh(result) && result.Length == Slots(cookie) + 1 && |CookieNames(cookie)| <= result.Length
    ensures forall i :: 0 <= i < |CookieNames(cookie)| ==> result[i] == Some(CookieNames(cookie)[i])
    ensures forall i :: |CookieNames(cookie)| <= i < result.Length ==> result[i] == None
  {
    hide SemiAt, EqualsAt, SkipWhite, CookieNames, Slots, EndsInBareName, Count;
    var total := CountSlots(cookie);
    result := new Option<bytes>[total + 1](_ => None);
    ghost var all := CookieNames(cookie);
    TerminatedUnlessBareName(cookie);
    assert cookie[0..] == cookie && all[0..] == all;
    NoNamesAtEnd(cookie);
    var p, i := 0, 0;
    while CharAt(cookie, p) != NUL
      invariant p <= |cookie| && i <= |all| && all[i..] == CookieNames(cookie[p..])
      invariant forall j :: 0 <= j < i ==> result[j] == Some(all[j])
      invariant forall j :: i <= j < result.Length ==> result[j] == None
      decreases |cookie| - p
    {
      var n, eq, semi := ScanName(cookie, p);
      var rest := if semi == |cookie| then semi else semi + 1;
      if eq != n {
        DropFirst(all, i, cookie[n..eq], CookieNames(cookie[rest..]));
        result[i] := Some(cookie[n..eq]);
        i := i + 1;
      }
      if CharAt(cookie, semi) == NUL {
        break;
      }
      p := semi + 1;
    }
  }

  /** Where the name at p starts and ends, and where its value ends. */
  method ScanName(cookie: cstring, p: nat) returns (n: nat, eq: nat, semi: nat)
    requires p < |cookie|
    ensures p <= n <= eq <= semi <= |cookie| && (semi < |cookie| ==> cookie[semi] == SEMICOLON)
    ensures CookieNames(cookie[p..]) ==
      (if n < eq then [cookie[n..eq]] else [])
      + CookieNames(cookie[if semi == |cookie| then semi else semi + 1..])
  {
    hide SemiAt, EqualsAt, SkipWhite, NamePiece;
    n := SkipWhiteAt(cookie, p);
    eq := NextEquals(cookie, n);
    semi := NextSemicolon(cookie, eq);
    NoNamesAtEnd(cookie);
    if eq == |cookie| {
      NamesEnd(cookie, p, n);
    } else {
      NamesStep(cookie, p, n, eq, semi);
    }
  }

  lemma NoNamesAtEnd(cookie: bytes)
    ensures CookieNames(cookie[|cookie|..]) == []
  {
    assert cookie[|cookie|..] == [];
  }
}

/** decomposeValue: a header value and its parameters, as in `form-data; name="x"`. */
module HeaderParams {
  import opened Bytes

  datatype Token = Token(text: bytes, rest: bytes)

  /** A quoted token ends at the next quote, and whatever stands between that quote and the
      next semicolon is skipped; any other token ends at the next semicolon. */
  function ReadToken(t: bytes): (r: Token)
    ensures |r.rest| <= |t|
    ensures r.rest == [] || r.rest[0] == SEMICOLON
  {
    if t != [] && t[0] == QUOTE then
      var n := IndexOf(t[1..], QUOTE);
      var behind := t[1..][n..];
      Token(t[1..][..n], behind[IndexOf(behind, SEMICOLON)..])
    else
      var n := IndexOf(t, SEMICOLON);
      Token(t[..n], t[n..])
  }

  function SkipWhite(t: bytes): (r: bytes)
    ensures |r| <= |t| && (NoNul(t) ==> NoNul(r))
  {
    t[SpaceRun(t)..]
  }

  const NAME_SPACE: nat := 1023

  datatype Param = Param(name: bytes, value: bytes)

  /** The parameters `; name = token` at the front of t, up to the first malformed one. */
  function Params(t: bytes): seq<Param>
    decreases |t|
  {
    if t == [] || t[0] != SEMICOLON then []
    else
      var a := SkipWhite(t[1..]);
      var n := AlnumRun(a);
      var b := SkipWhite(a[n..]);
      if b == [] || b[0] != EQUALS then []
      else
        var token := ReadToken(SkipWhite(b[1..]));
        [Param(Cut(a[..n], NAME_SPACE), token.text)] + Params(token.rest)
  }

  /** The value of the last parameter with that name in any case; empty if there is none. */
  function LastValue(ps: seq<Param>, name: bytes): bytes {
    if ps == [] then []
    else if EqNc(ps[|ps| - 1].name, name) then ps[|ps| - 1].value
    else LastValue(ps[..|ps| - 1], name)
  }

  /** The value ahead of the parameters, and the parameters themselves. */
  function MainToken(v: bytes): Token {
    ReadToken(SkipWhite(v))
  }

  // ----- Rendered values are read back

  function RenderParam(p: Param): bytes {
    [SEMICOLON, SPACE] + p.name + [EQUALS, QUOTE] + p.value + [QUOTE]
  }

  function RenderParams(ps: seq<Param>): bytes {
    if ps == [] then [] else RenderParam(ps[0]) + RenderParams(ps[1..])
  }

  predicate Renderable(p: Param) {
    && (forall i :: 0 <= i < |p.name| ==> IsAlnum(p.name[i])) && |p.name| <= NAME_SPACE
    && (forall i :: 0 <= i < |p.value| ==> p.value[i] != QUOTE)
  }

  lemma NoWhite(t: bytes)
    requires t == [] || !IsSpace(t[0])
    ensures SkipWhite(t) == t
  {
    SpaceRunIs(t, 0);
  }

  lemma {:induction false} SkipsAll(white: bytes, a: bytes)
    requires (forall i :: 0 <= i < |white| ==> IsSpace(white[i])) && (a == [] || !IsSpace(a[0]))
    ensures SkipWhite(white + a) == a
  {
    SpaceRunIs(white + a, |white|);
    assert (white + a)[|white|..] == a;
  }

  lemma SkipsOne(a: bytes)
    requires a == [] || !IsSpace(a[0])
    ensures SkipWhite([SPACE] + a) == a
  {
    SpaceRunIs([SPACE] + a, 1);
  }

  /** One parameter, with the pieces of text it is read from. */
  lemma ParamStep(t: bytes, name: bytes, behind: bytes)
    requires t != [] && t[0] == SEMICOLON && SkipWhite(t[1..]) == name + behind
    requires AlnumRun(name + behind) == |name|
    ensures var b := SkipWhite(behind);
      if b == [] || b[0] != EQUALS then Params(t) == []
      else var token := ReadToken(SkipWhite(b[1..]));
           Params(t) == [Param(Cut(name, NAME_SPACE), token.text)] + Params(token.rest)
  {
    hide ReadToken, SkipWhite, AlnumRun;
    assert (name + behind)[|name|..] == behind && (name + behind)[..|name|] == name;
  }

  predicate White(s: bytes) {
    forall i :: 0 <= i < |s| ==> IsSpace(s[i])
  }

  /** A parameter in any way it can be written: white space ahead of its name and on both sides of the equals sign,
      its value in quotes or not, and anything but a semicolon behind the closing quote. */
  datatype Written = Written(lead: bytes, name: bytes, mid: bytes, trail: bytes,
                             quoted: bool, value: bytes, junk: bytes)

  function WriteValue(quoted: bool, value: bytes, junk: bytes): bytes {
    if quoted then [QUOTE] + (value + ([QUOTE] + junk)) else value
  }

  function Write(w: Written): bytes {
    [SEMICOLON] + (w.lead + (w.name + (w.mid + ([EQUALS] + (w.trail + WriteValue(w.quoted, w.value, w.junk))))))
  }

  function WriteAll(ws: seq<Written>): bytes {
    if ws == [] then [] else Write(ws[0]) + WriteAll(ws[1..])
  }

  predicate ValueText(quoted: bool, value: bytes, junk: bytes) {
    if quoted then QUOTE !in value && SEMICOLON !in junk
    else SEMICOLON !in value && (value != [] ==> !IsSpace(value[0]) && value[0] != QUOTE)
  }

  predicate WrittenName(w: Written) {
    && White(w.lead) && White(w.mid) && (forall i :: 0 <= i < |w.name| ==> IsAlnum(w.name[i]))
    && (w.name == [] ==> w.mid == [])
  }

  predicate Writable(w: Written) {
    WrittenName(w) && White(w.trail) && ValueText(w.quoted, w.value, w.junk)
  }

  /** What a written parameter means: its value without the quotes, under its name up to 1023 bytes. */
  function Meaning(w: Written): Param {
    Param(Cut(w.name, 1023), w.value)
  }

  function Meanings(ws: seq<Written>): (r: seq<Param>)
    ensures |r| == |ws| && forall i :: 0 <= i < |ws| ==> r[i] == Meaning(ws[i])
  {
    if ws == [] then [] else [Meaning(ws[0])] + Meanings(ws[1..])
  }

  lemma {:induction false} ReadQuoted(value: bytes, junk: bytes, t: bytes)
    requires QUOTE !in value && SEMICOLON !in junk && (t == [] || t[0] == SEMICOLON)
    ensures ReadToken([QUOTE] + (value + ([QUOTE] + (junk + t)))) == Token(value, t)
  {
    hide ReadToken, StopAt;
    var behind := [QUOTE] + (junk + t);
    var s := [QUOTE] + (value + behind);
    StopAtIs(value + behind, QUOTE, |value|);
    StopAtIs(behind, SEMICOLON, 1 + |junk|);
    assert s[1..] == value + behind && (value + behind)[..|value|] == value && (value + behind)[|value|..] == behind;
    assert behind[1 + |junk|..] == t;
    QuotedToken(s);
  }

  /** A value is read up to the next semicolon, without its quotes and what stands behind them. */
  lemma {:induction false} ReadValue(quoted: bool, value: bytes, junk: bytes, t: bytes)
    requires ValueText(quoted, value, junk) && (t == [] || t[0] == SEMICOLON)
    ensures ReadToken(WriteValue(quoted, value, junk) + t) == Token(value, t)
    ensures var s := WriteValue(quoted, value, junk) + t; s == [] || !IsSpace(s[0])
  {
    hide ReadToken;
    if quoted {
      ReadQuoted(value, junk, t);
      assert WriteValue(quoted, value, junk) + t == [QUOTE] + (value + ([QUOTE] + (junk + t)));
    } else {
      ReadBare(value, t);
    }
  }

  lemma {:induction false} ReadBare(value: bytes, t: bytes)
    requires SEMICOLON !in value && (value != [] ==> value[0] != QUOTE) && (t == [] || t[0] == SEMICOLON)
    ensures ReadToken(value + t) == Token(value, t)
  {
    var s := value + t;
    IndexOfIs(s, SEMICOLON, |value|);
    hide IndexOf;
    assert s[..|value|] == value && s[|value|..] == t;
  }

  /** The name of a parameter and what stands behind it. */
  lemma {:induction false} NameIsRead(w: Written, b: bytes)
    requires WrittenName(w) && (b == [] || !(IsSpace(b[0]) || IsAlnum(b[0])))
    ensures var a := w.name + (w.mid + b);
      SkipWhite(w.lead + a) == a && AlnumRun(a) == |w.name| && SkipWhite(w.mid + b) == b
  {
    hide SkipWhite, AlnumRun;
    var a := w.name + (w.mid + b);
    AlnumRunIs(a, |w.name|);
    SkipsAll(w.lead, a);
    SkipsAll(w.mid, b);
  }

  lemma {:induction false} ReadWritten(w: Written, t: bytes)
    requires Writable(w) && (t == [] || t[0] == SEMICOLON)
    ensures Params(Write(w) + t) == [Meaning(w)] + Params(t)
  {
    hide ReadToken, SkipWhite, Params, AlnumRun, WriteValue, ValueText, WrittenName;
    var value := WriteValue(w.quoted, w.value, w.junk) + t;
    ReadValue(w.quoted, w.value, w.junk, t);
    var b := [EQUALS] + (w.trail + value);
    var a := w.name + (w.mid + b);
    var s := [SEMICOLON] + (w.lead + a);
    assert Write(w) + t == s;
    assert s[1..] == w.lead + a && b[1..] == w.trail + value;
    NameIsRead(w, b);
    SkipsAll(w.trail, value);
    ParamStep(s, w.name, w.mid + b);
  }

  /** Parameters come back as what they mean, in order, however they are written. */
  lemma {:induction false} ReadAllWritten(ws: seq<Written>)
    requires forall i :: 0 <= i < |ws| ==> Writable(ws[i])
    ensures Params(WriteAll(ws)) == Meanings(ws)
  {
    hide Params, Writable, Meaning;
    if ws == [] {
      assert Params([]) == [] by { NoParams(); }
    } else {
      ReadAllWritten(ws[1..]);
      ReadWritten(ws[0], WriteAll(ws[1..]));
    }
  }

  /** A parameter without an equals sign ends the list. */
  lemma {:induction false} MalformedEnds(w: Written, x: bytes)
    requires WrittenName(w) && (x == [] || !(IsSpace(x[0]) || IsAlnum(x[0]) || x[0] == EQUALS))
    ensures Params([SEMICOLON] + (w.lead + (w.name + (w.mid + x)))) == []
  {
    hide ReadToken, SkipWhite, Params, AlnumRun, WrittenName;
    var a := w.name + (w.mid + x);
    var s := [SEMICOLON] + (w.lead + a);
    assert s[1..] == w.lead + a;
    NameIsRead(w, x);
    ParamStep(s, w.name, w.mid + x);
  }

  /** The value ahead of the parameters, behind white space, in quotes or not. */
  lemma {:induction false} ReadMain(white: bytes, quoted: bool, value: bytes, junk: bytes, t: bytes)
    requires White(white) && ValueText(quoted, value, junk) && (t == [] || t[0] == SEMICOLON)
    ensures MainToken(white + (WriteValue(quoted, value, junk) + t)) == Token(value, t)
  {
    hide ReadToken, SkipWhite, WriteValue, ValueText;
    ReadValue(quoted, value, junk, t);
    SkipsAll(white, WriteValue(quoted, value, junk) + t);
  }

  /** The usual way to write one. */
  function Usual(p: Param): Written {
    Written([SPACE], p.name, [], [], true, p.value, [])
  }

  lemma {:induction false} ReadParam(p: Param, t: bytes)
    requires Renderable(p) && (t == [] || t[0] == SEMICOLON)
    ensures Params(RenderParam(p) + t) == [p] + Params(t)
  {
    hide Params;
    assert RenderParam(p) == Write(Usual(p));
    ReadWritten(Usual(p), t);
  }

  lemma {:induction false} ReadParams(ps: seq<Param>)
    requires forall i :: 0 <= i < |ps| ==> Renderable(ps[i])
    ensures Params(RenderParams(ps)) == ps
  {
    hide Params;
    if ps == [] {
      assert Params([]) == [] by { NoParams(); }
    } else {
      ReadParams(ps[1..]);
      ReadParam(ps[0], RenderParams(ps[1..]));
      assert ps == [ps[0]] + ps[1..];
    }
  }

  lemma NoParams()
    ensures Params([]) == []
  {
  }

  /** A rendered header value gives back its main value and exactly its parameters. */
  lemma {:induction false} ReadRendered(main: bytes, ps: seq<Param>)
    requires forall i :: 0 <= i < |main| ==> main[i] != SEMICOLON
    requires main != [] && !IsSpace(main[0]) && main[0] != QUOTE
    requires forall i :: 0 <= i < |ps| ==> Renderable(ps[i])
    ensures MainToken(main + RenderParams(ps)) == Token(main, RenderParams(ps))
    ensures Params(MainToken(main + RenderParams(ps)).rest) == ps
  {
    var v := main + RenderParams(ps);
    SpaceRunIs(v, 0);
    IndexOfIs(v, SEMICOLON, |main|);
    assert v[..|main|] == main && v[|main|..] == RenderParams(ps);
    ReadParams(ps);
  }

  /** The last parameter with that name in any case. */
  predicate IsLast(ps: seq<Param>, name: bytes, k: nat)
    requires k < |ps|
  {
    EqNc(ps[k].name, name) && forall j :: k < j < |ps| ==> !EqNc(ps[j].name, name)
  }

  lemma {:induction false} LastValueIsLast(ps: seq<Param>, name: bytes, k: nat)
    requires k < |ps| && IsLast(ps, name, k)
    ensures LastValue(ps, name) == ps[k].value
  {
    if k < |ps| - 1 {
      LastValueIsLast(ps[..|ps| - 1], name, k);
    }
  }

  lemma {:induction false} LastValueAbsent(ps: seq<Param>, name: bytes)
    requires forall k :: 0 <= k < |ps| ==> !EqNc(ps[k].name, name)
    ensures LastValue(ps, name) == []
  {
    if ps != [] {
      LastValueAbsent(ps[..|ps| - 1], name);
    }
  }

  /** A header value, however it is written, answers a request with the last parameter of that name in any case,
      or with nothing if there is none. */
  lemma {:induction false} WrittenAnswer(white: bytes, quoted: bool, main: bytes, junk: bytes, ws: seq<Written>,
                                         argNames: seq<cstring>, k: nat)
    requires White(white) && ValueText(quoted, main, junk) && forall i :: 0 <= i < |ws| ==> Writable(ws[i])
    requires k < |argNames| && FirstAsked(argNames, k)
    ensures var text := white + (WriteValue(quoted, main, junk) + WriteAll(ws));
      var v, ps := Wanted(argNames, Params(MainToken(text).rest), k), Meanings(ws);
      && MainToken(text).text == main
      && (forall i :: 0 <= i < |ps| && IsLast(ps, argNames[k], i) ==> v == ws[i].value)
      && ((forall i :: 0 <= i < |ps| ==> !EqNc(ps[i].name, argNames[k])) ==> v == [])
  {
    ReadMain(white, quoted, main, junk, WriteAll(ws));
    ReadAllWritten(ws);
    hide MainToken, Params, WriteAll, WriteValue, LastValue, EqNc, ValueText, Writable;
    var name, ps := argNames[k], Meanings(ws);
    forall i | 0 <= i < |ps| && IsLast(ps, name, i) ensures LastValue(ps, name) == ws[i].value {
      LastValueIsLast(ps, name, i);
    }
    if forall i :: 0 <= i < |ps| ==> !EqNc(ps[i].name, name) {
      LastValueAbsent(ps, name);
    }
  }

  /** A quote that is not closed: the value goes up to the end. */
  lemma {:induction false} OpenQuote(value: bytes)
    requires QUOTE !in value
    ensures ReadToken([QUOTE] + value) == Token(value, [])
  {
    hide ReadToken, StopAt;
    var s := [QUOTE] + value;
    assert s[1..] == value;
    StopAtIs(value, QUOTE, |value|);
    QuotedToken(s);
    assert value[..|value|] == value && value[|value|..] == [];
  }

  // ----- decomposeValue itself

  lemma CutNothing(n: nat)
    ensures Cut([], n) == []
  {
  }

  /** Copies value from pos up to a stop byte into a buffer, if there is one, and terminates it. */
  method CopyUntil(value: cstring, pos: nat, stop: byte, buffer: array?<byte>) returns (next: nat)
    requires pos <= |value| && stop != NUL
    requires buffer != null ==> buffer.Length > 0
    modifies if buffer == null then {} else {buffer}
    ensures next == pos + IndexOf(value[pos..], stop)
    ensures buffer != null ==> CStr(buffer[..]) == Cut(value[pos..next], buffer.Length - 1)
  {
    hide Cut, CStr, IndexOf;
    next := pos;
    var len := 0;
    CutNothing(if buffer != null then buffer.Length - 1 else 0);
    assert value[pos..next] == [];
    while CharAt(value, next) != NUL && CharAt(value, next) != stop
      invariant pos <= next <= |value|
      invariant forall i :: pos <= i < next ==> value[i] != stop
      invariant buffer != null ==> len < buffer.Length && buffer[..len] == Cut(value[pos..next], buffer.Length - 1)
      decreases |value| - next
    {
      if buffer != null {
        CutAppend(value[pos..next], value[next], buffer.Length - 1);
        assert value[pos..next + 1] == value[pos..next] + [value[next]];
        len := Append(buffer, len, value[next]);
      }
      next := next + 1;
    }
    IndexOfIs(value[pos..], stop, next - pos);
    if buffer != null {
      Terminate(buffer, len);
      CStrWhole(Cut(value[pos..next], buffer.Length - 1));
    }
  }

  /** Where the next c stands, as IndexOf says. */
  function StopAt(s: bytes, c: byte): (n: nat)
    ensures n <= |s|
  {
    IndexOf(s, c)
  }

  lemma StopAtIs(s: bytes, c: byte, n: nat)
    requires n <= |s| && (forall i :: 0 <= i < n ==> s[i] != c) && (n < |s| ==> s[n] == c)
    ensures StopAt(s, c) == n
  {
    IndexOfIs(s, c, n);
  }

  lemma QuotedToken(t: bytes)
    requires t != [] && t[0] == QUOTE
    ensures var n := StopAt(t[1..], QUOTE); var behind := t[1..][n..];
      ReadToken(t) == Token(t[1..][..n], behind[StopAt(behind, SEMICOLON)..])
  {
  }

  lemma {:induction false} QuotedTokenAt(value: cstring, pos: nat, close: nat, end: nat)
    requires pos < |value| && value[pos] == QUOTE
    requires close == pos + 1 + StopAt(value[pos + 1..], QUOTE)
    requires close <= |value| && end == close + StopAt(value[close..], SEMICOLON) <= |value|
    ensures ReadToken(value[pos..]) == Token(value[pos + 1..close], value[end..])
  {
    hide StopAt, ReadToken;
    QuotedToken(value[pos..]);
    SliceOfRest(value, pos, 1);
    SliceOfRest(value, pos + 1, close - (pos + 1));
    SliceOfRest(value, close, end - close);
  }

  lemma PlainTokenAt(value: cstring, pos: nat, end: nat)
    requires pos <= |value| && CharAt(value, pos) != QUOTE
    requires end == pos + IndexOf(value[pos..], SEMICOLON) <= |value|
    ensures ReadToken(value[pos..]) == Token(value[pos..end], value[end..])
  {
    hide IndexOf;
    SliceOfRest(value, pos, end - pos);
  }

  /** Reads the token at pos into a buffer, if there is one. */
  method CopyToken(value: cstring, pos: nat, buffer: array?<byte>) returns (next: nat)
    requires pos <= |value|
    requires buffer != null ==> buffer.Length > 0
    modifies if buffer == null then {} else {buffer}
    ensures next <= |value| && value[next..] == ReadToken(value[pos..]).rest
    ensures buffer != null ==> CStr(buffer[..]) == Cut(ReadToken(value[pos..]).text, buffer.Length - 1)
  {
    hide IndexOf, CStr, ReadToken, Cut;
    if CharAt(value, pos) == QUOTE {
      var close := CopyUntil(value, pos + 1, QUOTE, buffer);
      next := CopyUntil(value, close, SEMICOLON, null);
      QuotedTokenAt(value, pos, close, next);
    } else {
      next := CopyUntil(value, pos, SEMICOLON, buffer);
      PlainTokenAt(value, pos, next);
    }
  }

  method SkipWhiteAt(value: cstring, pos: nat) returns (next: nat)
    requires pos <= |value|
    ensures pos <= next <= |value| && value[next..] == SkipWhite(value[pos..])
  {
    next := pos;
    while CharAt(value, next) != NUL && IsSpace(value[next])
      invariant pos <= next <= |value|
      invariant forall i :: pos <= i < next ==> IsSpace(value[i])
      decreases |value| - next
    {
      next := next + 1;
    }
    SpaceRunIs(value[pos..], next - pos);
    assert value[pos..][next - pos..] == value[next..];
  }

  /** Reads the parameter name at pos. */
  method ReadName(value: cstring, pos: nat) returns (name: cstring, next: nat)
    requires pos <= |value|
    ensures next == pos + AlnumRun(value[pos..])
    ensures next <= |value| && name == Cut(value[pos..next], NAME_SPACE)
  {
    hide Cut, CStr, AlnumRun;
    CutNothing(NAME_SPACE);
    assert value[pos..pos] == [];
    var argName := new byte[NAME_SPACE + 1];
    var argNameLen := 0;
    next := pos;
    while CharAt(value, next) != NUL && IsAlnum(value[next])
      invariant pos <= next <= |value| && argNameLen < argName.Length
      invariant forall i :: pos <= i < next ==> IsAlnum(value[i])
      invariant argName[..argNameLen] == Cut(value[pos..next], NAME_SPACE)
      decreases |value| - next
    {
      CutAppend(value[pos..next], value[next], NAME_SPACE);
      assert value[pos..next + 1] == value[pos..next] + [value[next]];
      argNameLen := Append(argName, argNameLen, value[next]);
      next := next + 1;
    }
    AlnumRunIs(value[pos..], next - pos);
    Terminate(argName, argNameLen);
    CStrWhole(Cut(value[pos..next], NAME_SPACE));
    name := CStr(argName[..]);
  }

  /** The first requested name equal to `name`, or the number of requested names. */
  method FindArg(argNames: seq<cstring>, name: cstring) returns (argNum: nat)
    ensures argNum <= |argNames|
    ensures forall j :: 0 <= j < argNum ==> !EqNc(name, argNames[j])
    ensures argNum < |argNames| ==> EqNc(name, argNames[argNum])
  {
    argNum := 0;
    while argNum < |argNames|
      invariant argNum <= |argNames|
      invariant forall j :: 0 <= j < argNum ==> !EqNc(name, argNames[j])
    {
      var same := StrEqNc(name, argNames[argNum]);
      if same {
        break;
      }
      argNum := argNum + 1;
    }
  }

  /** No name asked for earlier is the same but for case. */
  predicate FirstAsked(argNames: seq<cstring>, k: nat)
    requires k < |argNames|
  {
    forall j :: 0 <= j < k ==> !EqNc(argNames[j], argNames[k])
  }

  /** What the k-th requested parameter comes to after the parameters `seen`. Of several requests for
      one name only the first is served. */
  function Wanted(argNames: seq<cstring>, seen: seq<Param>, k: nat): bytes
    requires k < |argNames|
  {
    if FirstAsked(argNames, k) then LastValue(seen, argNames[k]) else []
  }

  ghost predicate Holds(argNames: seq<cstring>, argValues: seq<array<byte>>, seen: seq<Param>)
    requires |argValues| == |argNames| && forall k :: 0 <= k < |argValues| ==> argValues[k].Length > 0
    reads argValues
  {
    forall k :: 0 <= k < |argNames| ==>
      CStr(argValues[k][..]) == Cut(Wanted(argNames, seen, k), argValues[k].Length - 1)
  }

  lemma LastValueAppend(seen: seq<Param>, p: Param, name: bytes)
    ensures LastValue(seen + [p], name) == if EqNc(p.name, name) then p.value else LastValue(seen, name)
  {
    assert (seen + [p])[..|seen|] == seen;
  }

  lemma {:induction false} WantedAppend(argNames: seq<cstring>, seen: seq<Param>, p: Param, argNum: nat, k: nat)
    requires k < |argNames| && argNum <= |argNames|
    requires forall j :: 0 <= j < argNum ==> !EqNc(p.name, argNames[j])
    requires argNum < |argNames| ==> EqNc(p.name, argNames[argNum])
    ensures Wanted(argNames, seen + [p], k) == if k == argNum then p.value else Wanted(argNames, seen, k)
  {
    hide LastValue;
    LastValueAppend(seen, p, argNames[k]);
    if k == argNum {
      assert FirstAsked(argNames, k);
    } else if argNum < k && EqNc(p.name, argNames[k]) {
      assert EqNc(argNames[argNum], argNames[k]);
    }
  }

  /** Reads the value of the parameter called `name` into the buffer that asked for it. */
  method StoreParam(value: cstring, pos: nat, name: cstring, argNames: seq<cstring>,
                    argValues: seq<array<byte>>, ghost seen: seq<Param>) returns (next: nat)
    requires pos <= |value|
    requires |argValues| == |argNames| && forall k :: 0 <= k < |argValues| ==> argValues[k].Length > 0
    requires forall i, j :: 0 <= i < j < |argValues| ==> argValues[i] != argValues[j]
    requires Holds(argNames, argValues, seen)
    modifies argValues
    ensures next <= |value| && value[next..] == ReadToken(value[pos..]).rest
    ensures Holds(argNames, argValues, seen + [Param(name, ReadToken(value[pos..]).text)])
  {
    hide Cut, CStr, ReadToken, LastValue, Wanted;
    ghost var p := Param(name, ReadToken(value[pos..]).text);
    var argNum := FindArg(argNames, name);
    if argNum < |argNames| {
      next := CopyToken(value, pos, argValues[argNum]);
    } else {
      next := CopyToken(value, pos, null);
    }
    forall k | 0 <= k < |argNames|
      ensures CStr(argValues[k][..]) == Cut(Wanted(argNames, seen + [p], k), argValues[k].Length - 1)
    {
      WantedAppend(argNames, seen, p, argNum, k);
      if k != argNum {
        assert argValues[k][..] == old(argValues[k][..]);
      }
    }
  }

  /** `; name =` up to the parameter's value; the line is malformed if the equals sign is missing. */
  method ReadParamName(value: cstring, pos: nat) returns (ok: bool, name: cstring, next: nat)
    requires pos < |value| && value[pos] == SEMICOLON
    ensures pos < next <= |value|
    ensures !ok ==> Params(value[pos..]) == []
    ensures ok ==>
      Params(value[pos..]) == [Param(name, ReadToken(value[next..]).text)] + Params(ReadToken(value[next..]).rest)
  {
    hide Params, ReadToken, SkipWhite, AlnumRun, Cut;
    next := SkipWhiteAt(value, pos + 1);
    ghost var start := next;
    name, next := ReadName(value, next);
    ghost var behind := next;
    SliceOfRest(value, pos, 1);
    assert value[start..] == value[start..behind] + value[behind..];
    ParamStep(value[pos..], value[start..behind], value[behind..]);
    next := SkipWhiteAt(value, next);
    ok := CharAt(value, next) == EQUALS;
    if ok {
      SliceOfRest(value, next, 1);
      next := SkipWhiteAt(value, next + 1);
    }
  }

  lemma NoParamsAt(t: bytes)
    requires t == [] || t[0] != SEMICOLON
    ensures Params(t) == []
  {
  }

  /** Every requested parameter starts out empty. */
  method ClearAll(argNames: seq<cstring>, argValues: seq<array<byte>>)
    requires |argValues| == |argNames| && forall k :: 0 <= k < |argValues| ==> argValues[k].Length > 0
    modifies argValues
    ensures Holds(argNames, argValues, [])
  {
    hide Cut, CStr;
    var argNum := 0;
    while argNum < |argNames|
      invariant argNum <= |argNames|
      invariant forall k :: 0 <= k < argNum ==> argValues[k][0] == NUL
    {
      argValues[argNum][0] := NUL;
      argNum := argNum + 1;
    }
    forall k | 0 <= k < |argNames| ensures CStr(argValues[k][..]) == Cut([], argValues[k].Length - 1) {
      CStrTerminated([], argValues[k][..]);
      CStrWhole([]);
      CutNothing(argValues[k].Length - 1);
      assert Wanted(argNames, [], k) == [];
    }
  }

  method DecomposeValue(value: cstring, mvalue: array<byte>, argNames: seq<cstring>, argValues: seq<array<byte>>)
    requires mvalue.Length > 0 && mvalue !in argValues
    requires |argValues| == |argNames| && forall k :: 0 <= k < |argValues| ==> argValues[k].Length > 0
    requires forall i, j :: 0 <= i < j < |argValues| ==> argValues[i] != argValues[j]
    modifies mvalue, argValues
    ensures CStr(mvalue[..]) == Cut(MainToken(value).text, mvalue.Length - 1)
    ensures forall k :: 0 <= k < |argNames| ==>
      CStr(argValues[k][..]) == Cut(Wanted(argNames, Params(MainToken(value).rest), k), argValues[k].Length - 1)
  {
    hide Cut, CStr, ReadToken, Params, SkipWhite, Wanted;
    ClearAll(argNames, argValues);
    assert value[0..] == value;
    var pos := SkipWhiteAt(value, 0);
    pos := CopyToken(value, pos, mvalue);
    assert value[pos..] == MainToken(value).rest;
    ghost var all := Params(value[pos..]);
    ghost var seen: seq<Param> := [];
    while CharAt(value, pos) == SEMICOLON
      invariant pos <= |value| && seen + Params(value[pos..]) == all
      invariant CStr(mvalue[..]) == Cut(MainToken(value).text, mvalue.Length - 1)
      invariant Holds(argNames, argValues, seen)
      decreases |value| - pos
    {
      var ok, name, at := ReadParamName(value, pos);
      if !ok {
        assert seen == all;
        return;
      }
      ghost var p := Param(name, ReadToken(value[at..]).text);
      pos := StoreParam(value, at, name, argNames, argValues, seen);
      assert (seen + [p]) + Params(value[pos..]) == seen + ([p] + Params(value[pos..]));
      seen := seen + [p];
    }
    NoParamsAt(value[pos..]);
    assert seen == all;
  }
}

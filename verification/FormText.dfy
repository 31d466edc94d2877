/** cgiFormEntryString: the value of an entry with its line ends normalised, cut to a buffer. */
module FormText {
  import opened Bytes

  predicate IsNewline(b: byte) {
    b == CR || b == LF
  }

  /** Length of the leading burst of carriage returns and line feeds. */
  function Burst(t: bytes): (n: nat)
    ensures n <= |t|
    ensures forall i :: 0 <= i < n ==> IsNewline(t[i])
    ensures n < |t| ==> !IsNewline(t[n])
  {
    if t == [] || !IsNewline(t[0]) then 0 else 1 + Burst(t[1..])
  }

  function Count(t: bytes, c: byte): (n: nat)
    ensures n <= |t|
  {
    if t == [] then 0 else (if t[0] == c then 1 else 0) + Count(t[1..], c)
  }

  function Max(a: nat, b: nat): nat {
    if a > b then a else b
  }

  function Lines(n: nat): (r: bytes)
    ensures |r| == n && forall i :: 0 <= i < n ==> r[i] == LF
  {
    seq(n, _ => LF)
  }

  /** What a burst comes to: the larger number of its two kinds of line ends, or nothing. */
  function BurstLines(burst: bytes, newlines: bool): nat {
    if newlines then Max(Count(burst, CR), Count(burst, LF)) else 0
  }

  function Normal(t: bytes, newlines: bool): bytes
    decreases |t|
  {
    if t == [] then []
    else if IsNewline(t[0]) then Lines(BurstLines(t[..Burst(t)], newlines)) + Normal(t[Burst(t)..], newlines)
    else [t[0]] + Normal(t[1..], newlines)
  }

  // ----- What the normal form is good for

  lemma {:induction false} CountAtMost(t: bytes)
    ensures Count(t, CR) + Count(t, LF) <= |t|
  {
    if t != [] {
      CountAtMost(t[1..]);
    }
  }

  lemma {:induction false} CountAppend(a: bytes, b: bytes, c: byte)
    ensures Count(a + b, c) == Count(a, c) + Count(b, c)
  {
    if a == [] {
      assert a + b == b;
    } else {
      assert (a + b)[1..] == a[1..] + b;
      CountAppend(a[1..], b, c);
    }
  }

  lemma {:induction false} CountLines(n: nat)
    ensures Count(Lines(n), LF) == n && Count(Lines(n), CR) == 0
  {
    if n > 0 {
      assert Lines(n)[1..] == Lines(n - 1);
      CountLines(n - 1);
    }
  }

  lemma BurstIs(t: bytes, n: nat)
    requires n <= |t|
    requires forall i :: 0 <= i < n ==> IsNewline(t[i])
    requires n < |t| ==> !IsNewline(t[n])
    ensures Burst(t) == n
  {
    var m := Burst(t);
  }

  /** Normalising never lengthens a text, leaves no carriage return, and adds no NUL. */
  lemma {:induction false} NormalShrinks(t: bytes, newlines: bool)
    ensures |Normal(t, newlines)| <= |t|
    ensures forall i :: 0 <= i < |Normal(t, newlines)| ==> Normal(t, newlines)[i] != CR
    ensures NoNul(t) ==> NoNul(Normal(t, newlines))
    decreases |t|
  {
    if t != [] {
      if IsNewline(t[0]) {
        CountAtMost(t[..Burst(t)]);
        NormalShrinks(t[Burst(t)..], newlines);
      } else {
        NormalShrinks(t[1..], newlines);
      }
    }
  }

  predicate StartsPlain(t: bytes) {
    t == [] || !IsNewline(t[0])
  }

  lemma NormalOfBurst(b: bytes, t: bytes, newlines: bool)
    requires (forall i :: 0 <= i < |b| ==> IsNewline(b[i])) && StartsPlain(t)
    ensures Normal(b + t, newlines) == Lines(BurstLines(b, newlines)) + Normal(t, newlines)
  {
    var s := b + t;
    if b == [] {
      assert s == t && Lines(BurstLines(b, newlines)) == [];
    } else {
      BurstIs(s, |b|);
      assert s[..|b|] == b && s[|b|..] == t;
    }
  }

  lemma {:induction false} CountIsMultiplicity(t: bytes, c: byte)
    ensures Count(t, c) == multiset(t)[c]
  {
    if t != [] {
      assert t == [t[0]] + t[1..];
      CountIsMultiplicity(t[1..], c);
    }
  }

  /** A burst of c carriage returns and l line feeds, in any order, comes to as many line feeds as the larger of
      the two numbers, or to nothing. */
  lemma {:induction false} BurstBecomes(b: bytes, t: bytes) returns (n: nat)
    requires (forall i :: 0 <= i < |b| ==> b[i] == CR || b[i] == LF) && (t == [] || (t[0] != CR && t[0] != LF))
    ensures var c, l := multiset(b)[CR], multiset(b)[LF]; n >= c && n >= l && (n == c || n == l)
    ensures Normal(b + t, true) == seq(n, _ => LF) + Normal(t, true)
    ensures Normal(b + t, false) == Normal(t, false)
  {
    hide Normal, Count, Burst;
    CountIsMultiplicity(b, CR);
    CountIsMultiplicity(b, LF);
    NormalOfBurst(b, t, true);
    NormalOfBurst(b, t, false);
    n := BurstLines(b, true);
    assert Lines(0) + Normal(t, false) == Normal(t, false);
  }

  /** A blank line stays a blank line. */
  lemma {:induction false} BlankLineStays(a: byte, b: byte)
    requires !IsNewline(a) && !IsNewline(b)
    ensures Normal([a, CR, LF, LF, b], true) == [a, LF, LF, b]
  {
    hide Normal, Burst;
    var burst: bytes := [CR, LF, LF];
    assert [a, CR, LF, LF, b] == [a] + (burst + ([b] + []));
    NormalOfByte(a, burst + ([b] + []), true);
    NormalOfByte(b, [], true);
    NormalOfNothing(true);
    assert multiset(burst)[CR] == 1 && multiset(burst)[LF] == 2;
    var n := BurstBecomes(burst, [b] + []);
  }

  lemma NormalOfByte(c: byte, t: bytes, newlines: bool)
    requires !IsNewline(c)
    ensures Normal([c] + t, newlines) == [c] + Normal(t, newlines)
  {
    assert ([c] + t)[1..] == t;
  }

  lemma NormalStartsPlain(t: bytes, newlines: bool)
    requires StartsPlain(t)
    ensures StartsPlain(Normal(t, newlines))
  {
  }

  /** Normal text is left alone. */
  lemma {:induction false} NormalIdempotent(t: bytes)
    ensures Normal(Normal(t, true), true) == Normal(t, true)
    decreases |t|
  {
    hide BurstLines;
    if t == [] {
    } else if IsNewline(t[0]) {
      var n, rest := BurstLines(t[..Burst(t)], true), t[Burst(t)..];
      NormalIdempotent(rest);
      NormalStartsPlain(rest, true);
      NormalOfBurst(Lines(n), Normal(rest, true), true);
      BurstOfLines(n);
    } else {
      NormalIdempotent(t[1..]);
      NormalOfByte(t[0], Normal(t[1..], true), true);
    }
  }

  lemma BurstOfLines(n: nat)
    ensures BurstLines(Lines(n), true) == n
  {
    CountLines(n);
  }

  /** With newlines stomped, exactly the bytes that are no line ends remain. */
  lemma {:induction false} StompedHasNoNewline(t: bytes)
    ensures forall i :: 0 <= i < |Normal(t, false)| ==> !IsNewline(Normal(t, false)[i])
    ensures Normal(Normal(t, true), false) == Normal(t, false)
    decreases |t|
  {
    if t == [] {
    } else if IsNewline(t[0]) {
      var n, rest := BurstLines(t[..Burst(t)], true), t[Burst(t)..];
      StompedHasNoNewline(rest);
      NormalStartsPlain(rest, true);
      NormalOfBurst(Lines(n), Normal(rest, true), false);
      assert Lines(0) == [];
    } else {
      StompedHasNoNewline(t[1..]);
      NormalOfByte(t[0], Normal(t[1..], true), false);
    }
  }

  /** The spelling of a line end. */
  datatype LineSpelling = UseLf | UseCr | UseCrLf

  function NewlineAs(sp: LineSpelling): bytes {
    match sp case UseLf => [LF] case UseCr => [CR] case UseCrLf => [CR, LF]
  }

  /** A text with line feeds, its line ends spelled in one way throughout. */
  function SpellNewlines(t: bytes, sp: LineSpelling): bytes {
    if t == [] then []
    else (if t[0] == LF then NewlineAs(sp) else [t[0]]) + SpellNewlines(t[1..], sp)
  }

  lemma {:induction false} SpellAppend(a: bytes, b: bytes, sp: LineSpelling)
    ensures SpellNewlines(a + b, sp) == SpellNewlines(a, sp) + SpellNewlines(b, sp)
  {
    if a == [] {
      assert a + b == b;
    } else {
      assert (a + b)[1..] == a[1..] + b;
      SpellAppend(a[1..], b, sp);
    }
  }

  lemma {:induction false} SpellLines(n: nat, sp: LineSpelling)
    ensures var s := SpellNewlines(Lines(n), sp);
      && (forall i :: 0 <= i < |s| ==> IsNewline(s[i]))
      && Max(Count(s, CR), Count(s, LF)) == n
  {
    if n > 0 {
      assert Lines(n)[1..] == Lines(n - 1);
      SpellLines(n - 1, sp);
      SpellCounts(n - 1, sp);
      CountAppend(NewlineAs(sp), SpellNewlines(Lines(n - 1), sp), CR);
      CountAppend(NewlineAs(sp), SpellNewlines(Lines(n - 1), sp), LF);
    }
  }

  lemma {:induction false} SpellCounts(n: nat, sp: LineSpelling)
    ensures Count(SpellNewlines(Lines(n), sp), CR) == if sp == UseLf then 0 else n
    ensures Count(SpellNewlines(Lines(n), sp), LF) == if sp == UseCr then 0 else n
  {
    if n > 0 {
      assert Lines(n)[1..] == Lines(n - 1);
      SpellCounts(n - 1, sp);
      CountAppend(NewlineAs(sp), SpellNewlines(Lines(n - 1), sp), CR);
      CountAppend(NewlineAs(sp), SpellNewlines(Lines(n - 1), sp), LF);
    }
  }

  lemma SplitBurst(t: bytes)
    requires forall i :: 0 <= i < |t| ==> t[i] != CR
    ensures t == Lines(Burst(t)) + t[Burst(t)..]
  {
  }

  /** The LF, CR and CRLF spellings of one text have the same normal form. */
  lemma {:induction false} SpellingDoesNotMatter(t: bytes, sp: LineSpelling, newlines: bool)
    requires forall i :: 0 <= i < |t| ==> t[i] != CR
    ensures Normal(SpellNewlines(t, sp), newlines) == Normal(t, newlines)
    decreases |t|
  {
    hide Count, Max, NewlineAs;
    if t == [] {
    } else if IsNewline(t[0]) {
      var n, rest := Burst(t), t[Burst(t)..];
      SplitBurst(t);
      SpellAppend(Lines(n), rest, sp);
      SpellLines(n, sp);
      CountLines(n);
      SpellLines(n, UseLf);
      SpellingDoesNotMatter(rest, sp, newlines);
      assert StartsPlain(SpellNewlines(rest, sp)) by { SpellStartsPlain(rest, sp); }
      NormalOfBurst(SpellNewlines(Lines(n), sp), SpellNewlines(rest, sp), newlines);
      NormalOfBurst(Lines(n), rest, newlines);
      assert BurstLines(SpellNewlines(Lines(n), sp), newlines) == BurstLines(Lines(n), newlines) by {
        BurstOfLines(n);
      }
    } else {
      SpellingDoesNotMatter(t[1..], sp, newlines);
      NormalOfByte(t[0], SpellNewlines(t[1..], sp), newlines);
    }
  }

  lemma SpellStartsPlain(t: bytes, sp: LineSpelling)
    requires StartsPlain(t)
    ensures StartsPlain(SpellNewlines(t, sp))
  {
  }

  /** Text without carriage returns is already normal. */
  lemma {:induction false} LfTextIsNormal(t: bytes)
    requires forall i :: 0 <= i < |t| ==> t[i] != CR
    ensures Normal(t, true) == t
    decreases |t|
  {
    if t == [] {
    } else if IsNewline(t[0]) {
      SplitBurst(t);
      LfTextIsNormal(t[Burst(t)..]);
      NormalOfBurst(Lines(Burst(t)), t[Burst(t)..], true);
      BurstOfLines(Burst(t));
    } else {
      LfTextIsNormal(t[1..]);
      assert [t[0]] + t[1..] == t;
    }
  }

  // ----- The code

  datatype FormResult = FormSuccess | FormTruncated | FormEmpty | FormNotFound | FormNoSuchChoice

  /** Writes n line feeds, as far as they fit. */
  method WriteLines(result: array<byte>, at: nat, avail: nat, n: nat) returns (len: nat, truncated: bool)
    requires at <= avail < result.Length
    modifies result
    ensures truncated == (at + n > avail)
    ensures len == if truncated then avail else at + n
    ensures result[..len] == Cut(old(result[..at]) + Lines(n), avail)
  {
    len, truncated := at, false;
    var lfsAdd := n;
    while lfsAdd > 0
      invariant !truncated && 0 <= lfsAdd <= n && len == at + (n - lfsAdd) <= avail
      invariant forall i :: 0 <= i < at ==> result[i] == old(result[i])
      invariant forall i :: at <= i < len ==> result[i] == LF
    {
      if len >= avail {
        truncated := true;
        break;
      }
      result[len] := LF;
      lfsAdd := lfsAdd - 1;
      len := len + 1;
    }
  }

  /** The text from b on, when everything up to sp is one burst and the burst ends there. */
  lemma NormalFrom(text: cstring, b: nat, sp: nat, newlines: bool)
    requires b <= sp <= |text|
    requires forall i :: b <= i < sp ==> IsNewline(text[i])
    requires sp < |text| ==> !IsNewline(text[sp])
    ensures Normal(text[b..], newlines) == Lines(BurstLines(text[b..sp], newlines)) + Normal(text[sp..], newlines)
    ensures sp < |text| ==> Normal(text[sp..], newlines) == [text[sp]] + Normal(text[sp + 1..], newlines)
    ensures sp == |text| ==> Normal(text[sp..], newlines) == []
  {
    hide Normal, Burst;
    assert text[b..] == text[b..sp] + text[sp..];
    NormalOfBurst(text[b..sp], text[sp..], newlines);
    if sp == |text| {
      NormalOfNothing(newlines);
    } else {
      assert text[sp..] == [text[sp]] + text[sp + 1..];
      NormalOfByte(text[sp], text[sp + 1..], newlines);
    }
  }

  lemma NormalOfNothing(newlines: bool)
    ensures Normal([], newlines) == []
  {
  }

  lemma CountNext(text: cstring, b: nat, sp: nat, c: byte)
    requires b <= sp < |text|
    ensures Count(text[b..sp + 1], c) == Count(text[b..sp], c) + if text[sp] == c then 1 else 0
  {
    assert text[b..sp + 1] == text[b..sp] + [text[sp]];
    CountAppend(text[b..sp], [text[sp]], c);
    assert Count([text[sp]], c) == if text[sp] == c then 1 else 0;
  }

  lemma CutShort(d: bytes, more: bytes, avail: nat)
    requires |d| == avail
    ensures Cut(d + more, avail) == d && (|d + more| > avail <==> more != [])
  {
  }

  /** Line ends that did not all fit leave the text cut in the middle of them. */
  lemma CutInLines(d: bytes, n: nat, more: bytes, avail: nat)
    requires |d| <= avail && |d| + n > avail
    ensures Cut(d + Lines(n), avail) == Cut(d + (Lines(n) + more), avail)
    ensures |d + (Lines(n) + more)| > avail
  {
  }

  /** At the end of a burst, that is at every other byte: the burst's line feeds are written. */
  method FlushBurst(result: array<byte>, at: nat, avail: nat, crCount: nat, lfCount: nat, newlines: bool,
                    ghost text: cstring, ghost b: nat, ghost sp: nat)
    returns (len: nat, truncated: bool)
    requires at <= avail < result.Length && b <= sp <= |text|
    requires forall i :: b <= i < sp ==> IsNewline(text[i])
    requires sp < |text| ==> !IsNewline(text[sp])
    requires crCount == Count(text[b..sp], CR) && lfCount == Count(text[b..sp], LF)
    modifies result
    ensures len <= avail && (truncated ==> len == avail)
    ensures var full := old(result[..at]) + Normal(text[b..], newlines);
            if truncated then result[..len] == Cut(full, avail) && |full| > avail
            else result[..len] + Normal(text[sp..], newlines) == full
  {
    hide Normal, Count, Burst, BurstLines, IsNewline, Lines;
    ghost var d := result[..at];
    ghost var n := BurstLines(text[b..sp], newlines);
    NormalFrom(text, b, sp, newlines);
    BurstCounts(text[b..sp], crCount, lfCount, newlines);
    len, truncated := at, false;
    if crCount > 0 || lfCount > 0 {
      var lfsAdd := crCount;
      if lfCount > crCount {
        lfsAdd := lfCount;
      }
      if !newlines {
        lfsAdd := 0;
      }
      len, truncated := WriteLines(result, at, avail, lfsAdd);
    }
    if truncated {
      CutInLines(d, n, Normal(text[sp..], newlines), avail);
    } else {
      assert result[..len] == d + Lines(n);
      Regroup(d, Lines(n), Normal(text[sp..], newlines));
    }
  }

  lemma Regroup(a: bytes, b: bytes, c: bytes)
    ensures (a + b) + c == a + (b + c)
  {
  }

  /** How much text there is room for in front of the terminator. A terminator is written even if max
      does not allow for one. */
  function Room(max: int): nat {
    if max > 1 then max - 1 else 0
  }

  /** cgiFormEntryString for a buffer of max bytes: what is stored is the normal form of the
      text cut to the room there is, and the result says whether it was cut or is empty. */
  method EntryString(text: cstring, result: array<byte>, max: int, newlines: bool) returns (r: FormResult)
    requires max <= result.Length && 1 <= result.Length
    modifies result
    ensures CStr(result[..]) == Cut(Normal(text, newlines), Room(max))
    ensures r == if |Normal(text, newlines)| > Room(max) then FormTruncated
                 else if Normal(text, newlines) == [] then FormEmpty else FormSuccess
  {
    hide Normal, Count, CStr, Burst, BurstLines;
    var avail := Room(max); // max - 1 of the C code, which is compared to lengths only
    var sp, len, crCount, lfCount, truncated := 0, 0, 0, 0, false;
    ghost var full, b := Normal(text, newlines), 0;
    assert text[0..] == text && text[0..0] == [];
    CountNone();
    NormalShrinks(text, newlines);
    while true
      invariant b <= sp <= |text| && len <= avail && !truncated
      invariant forall i :: b <= i < sp ==> IsNewline(text[i])
      invariant crCount == Count(text[b..sp], CR) && lfCount == Count(text[b..sp], LF)
      invariant result[..len] + Normal(text[b..], newlines) == full
      decreases |text| - sp
    {
      var ch := CharAt(text, sp);
      if ch == CR || ch == LF {
        CountNext(text, b, sp, CR);
        CountNext(text, b, sp, LF);
        if ch == CR {
          crCount := crCount + 1;
        } else {
          lfCount := lfCount + 1;
        }
      } else {
        len, truncated := FlushBurst(result, len, avail, crCount, lfCount, newlines, text, b, sp);
        crCount, lfCount := 0, 0;
        NormalFrom(text, sp, sp, newlines);
        if ch == NUL {
          assert !truncated ==> result[..len] + [] == full;
          break;
        }
        if len >= avail {
          if !truncated {
            CutShort(result[..len], Normal(text[sp..], newlines), avail);
          }
          truncated := true;
          break;
        }
        b := sp + 1;
        NextByte(result[..len], ch, Normal(text[b..], newlines));
        assert text[b..b] == [];
        ghost var d := result[..len];
        result[len] := ch;
        len := len + 1;
        assert result[..len] == d + [ch];
      }
      sp := sp + 1;
    }
    assert result[..len] == Cut(full, avail) && truncated == (|full| > avail);
    Terminate(result, len);
    CStrWhole(Cut(full, avail));
    r := if truncated then FormTruncated else if len == 0 then FormEmpty else FormSuccess;
  }

  lemma NextByte(d: bytes, ch: byte, more: bytes)
    ensures d + ([ch] + more) == (d + [ch]) + more
  {
  }

  lemma CountNone()
    ensures Count([], CR) == 0 && Count([], LF) == 0
  {
  }

  lemma BurstCounts(burst: bytes, cr: nat, lf: nat, newlines: bool)
    requires cr == Count(burst, CR) && lf == Count(burst, LF)
    ensures BurstLines(burst, newlines) == if newlines then Max(cr, lf) else 0
  {
  }
}

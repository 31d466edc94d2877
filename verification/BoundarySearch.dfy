/** The search for the next multipart boundary, as the machine afterNextBoundary runs. */
module BoundarySearch {
  import opened Bytes
  import opened Streams

  /** The pattern of the opening call and that of all later calls (RFC 2046, section 5.1.1). */
  function Pattern(boundary: cstring, first: bool): (p: cstring)
    ensures |p| == |boundary| + if first then 2 else 4
  {
    if first then [DASH, DASH] + boundary else [CR, LF, DASH, DASH] + boundary
  }

  /** A search under way: the stream, how much of the pattern is matched, and the body so far. */
  datatype Scan = Scan(s: Stream, matched: nat, body: bytes)

  /** One round of the loop. After a false match all but its first byte go back into the queue. */
  function ScanStep(st: Scan, p: bytes): Scan
    requires st.matched < |p| && Size(st.s) > 0
  {
    var d := Flat(st.s)[0];
    var s := Drop(st.s, 1);
    if d == p[st.matched] then
      Scan(s, st.matched + 1, st.body)
    else if st.matched > 0 then
      Scan(PutBack(s, p[1..st.matched] + [d]), 0, st.body + [p[0]])
    else
      Scan(s, 0, st.body + [d])
  }

  datatype ScanEnd = InputEnded | Matched(end: Scan)

  /** The loop. It terminates on every stream. */
  function Run(st: Scan, p: bytes): ScanEnd
    requires st.matched <= |p|
    decreases Size(st.s) + st.matched, |p| - st.matched
  {
    if st.matched == |p| then Matched(st)
    else if Size(st.s) == 0 then InputEnded
    else Run(ScanStep(st, p), p)
  }

  /** The two bytes behind the delimiter: a line end is skipped, a dash is put back, and
      whatever else stands there is skipped as well. */
  function SkipLineEnd(s: Stream): Stream
    requires Size(s) >= 2
  {
    if Flat(s)[0] == DASH then PutBack(Drop(s, 2), Flat(s)[..2]) else Drop(s, 2)
  }

  datatype Search = Missing | Found(body: bytes, s: Stream)

  function SearchFor(s: Stream, p: bytes): Search {
    match Run(Scan(s, 0, []), p)
    case InputEnded => Missing
    case Matched(st) => if Size(st.s) < 2 then Missing else Found(st.body, SkipLineEnd(st.s))
  }

  /** No byte is lost or invented on any stream, whatever order the queue brings them in. */
  lemma {:induction false} RunConserves(st: Scan, p: bytes)
    requires st.matched <= |p|
    ensures Run(st, p).Matched? ==>
      var e := Run(st, p).end;
      |e.body| + |p| + Size(e.s) == |st.body| + st.matched + Size(st.s)
    decreases Size(st.s) + st.matched, |p| - st.matched
  {
    if st.matched < |p| && Size(st.s) > 0 {
      RunConserves(ScanStep(st, p), p);
    }
  }

  /** A successful search consumes at least the delimiter. */
  lemma SearchShrinks(s: Stream, p: bytes)
    ensures SearchFor(s, p).Found? ==> |SearchFor(s, p).body| + |p| + Size(SearchFor(s, p).s) <= Size(s)
  {
    RunConserves(Scan(s, 0, []), p);
  }

  // ----- What a search should find

  predicate OccursAt(t: bytes, p: bytes, i: nat) {
    i + |p| <= |t| && t[i..i + |p|] == p
  }

  ghost predicate NoneBefore(t: bytes, p: bytes, n: nat) {
    forall i: nat :: i < n ==> !OccursAt(t, p, i)
  }

  /** Every put-back of the run finds the queue empty, so that it is a true un-read. */
  ghost predicate ExactRun(st: Scan, p: bytes)
    requires st.matched <= |p|
    decreases Size(st.s) + st.matched, |p| - st.matched
  {
    st.matched == |p| || Size(st.s) == 0 ||
    (&& (st.matched > 0 && Flat(st.s)[0] != p[st.matched] ==> Drop(st.s, 1).queue == [])
     && ExactRun(ScanStep(st, p), p))
  }

  /** A false match rules out an occurrence at its start. */
  lemma FalseMatch(t: bytes, p: bytes, i: nat, m: nat, d: byte, rest: bytes)
    requires m < |p| && d != p[m]
    requires i <= |t| && t[i..] == p[..m] + [d] + rest
    ensures !OccursAt(t, p, i)
  {
    if i + |p| <= |t| {
      assert t[i..i + |p|][m] == t[i..][m] == d;
    }
  }

  ghost predicate Covers(st: Scan, p: bytes, t: bytes)
    requires st.matched <= |p|
  {
    t == st.body + p[..st.matched] + Flat(st.s) && NoneBefore(t, p, |st.body|)
  }

  lemma RegroupMatch(body: bytes, p: bytes, m: nat, rest: bytes)
    requires m < |p|
    ensures body + p[..m] + ([p[m]] + rest) == body + p[..m + 1] + rest
  {
    assert p[..m + 1] == p[..m] + [p[m]];
  }

  lemma RegroupMismatch(body: bytes, p: bytes, m: nat, d: byte, rest: bytes)
    requires 0 < m < |p|
    ensures body + p[..m] + ([d] + rest) == (body + [p[0]]) + p[..0] + ((p[1..m] + [d]) + rest)
  {
    assert p[..m] == [p[0]] + p[1..m];
  }

  /** An exact step keeps the text: body, partial match and stream still make up t. */
  lemma StepKeepsText(st: Scan, p: bytes)
    requires st.matched < |p| && Size(st.s) > 0
    requires st.matched > 0 && Flat(st.s)[0] != p[st.matched] ==> Drop(st.s, 1).queue == []
    ensures var e := ScanStep(st, p);
      e.body + p[..e.matched] + Flat(e.s) == st.body + p[..st.matched] + Flat(st.s)
  {
    hide Flat, Drop;
    var m, d, rest := st.matched, Flat(st.s)[0], Flat(Drop(st.s, 1));
    DropFlat(st.s, 1);
    assert Flat(st.s) == [d] + rest;
    if d == p[m] {
      RegroupMatch(st.body, p, m, rest);
    } else if m > 0 {
      RegroupMismatch(st.body, p, m, d, rest);
      FlatPutBack(Drop(st.s, 1), p[1..m] + [d]);
    } else {
      assert st.body + p[..0] + ([d] + rest) == (st.body + [d]) + p[..0] + rest;
    }
  }

  lemma {:induction false} StepCovers(st: Scan, p: bytes, t: bytes)
    requires st.matched < |p| && Size(st.s) > 0 && Covers(st, p, t)
    requires st.matched > 0 && Flat(st.s)[0] != p[st.matched] ==> Drop(st.s, 1).queue == []
    ensures Covers(ScanStep(st, p), p, t)
  {
    hide Flat, Drop;
    StepKeepsText(st, p);
    var m, d := st.matched, Flat(st.s)[0];
    if d != p[m] {
      assert t[|st.body|..] == p[..m] + [d] + Flat(st.s)[1..];
      FalseMatch(t, p, |st.body|, m, d, Flat(st.s)[1..]);
    }
  }

  lemma {:induction false} ExactRunFindsFirst(st: Scan, p: bytes, t: bytes)
    requires st.matched <= |p| && Covers(st, p, t) && ExactRun(st, p)
    ensures match Run(st, p)
            case InputEnded => NoneBefore(t, p, |t| + 1)
            case Matched(e) =>
              && OccursAt(t, p, |e.body|) && NoneBefore(t, p, |e.body|)
              && |e.body| + |p| + Size(e.s) == |t|
              && e.body == t[..|e.body|] && Flat(e.s) == t[|e.body| + |p|..]
    decreases Size(st.s) + st.matched, |p| - st.matched
  {
    hide Flat, Drop;
    if st.matched == |p| {
      assert p[..|p|] == p;
      assert t[|st.body|..|st.body| + |p|] == p;
    } else if Size(st.s) == 0 {
      forall i: nat | i < |t| + 1 ensures !OccursAt(t, p, i) {
        assert i < |st.body| || i + |p| > |t|;
      }
    } else {
      StepCovers(st, p, t);
      ExactRunFindsFirst(ScanStep(st, p), p, t);
    }
  }

  // ----- Why every put-back behind the opening delimiter is exact

  /** Carriage return stands at index 0 of the pattern and nowhere else. */
  predicate StartsOnlyAtCr(p: bytes) {
    |p| > 0 && p[0] == CR && forall i :: 1 <= i < |p| ==> p[i] != CR
  }

  predicate NoSpace(s: bytes) {
    forall i :: 0 <= i < |s| ==> !IsSpace(s[i])
  }

  lemma DelimiterStartsOnlyAtCr(boundary: cstring)
    requires NoSpace(boundary)
    ensures StartsOnlyAtCr(Pattern(boundary, false))
  {
  }

  /** No carriage return in the queue, save in its last place. */
  predicate CrOnlyLast(queue: bytes) {
    forall i :: 0 <= i < |queue| - 1 ==> queue[i] != CR
  }

  predicate Settled(st: Scan) {
    CrOnlyLast(st.s.queue) && (st.matched > 0 ==> st.s.queue == [])
  }

  lemma StepStaysSettled(st: Scan, p: bytes)
    requires StartsOnlyAtCr(p) && st.matched < |p| && Size(st.s) > 0 && Settled(st)
    ensures Settled(ScanStep(st, p))
    ensures st.matched > 0 ==> Drop(st.s, 1).queue == []
  {
    var q := ScanStep(st, p).s.queue;
    if st.matched > 0 && Flat(st.s)[0] != p[st.matched] {
      assert q == p[1..st.matched] + [Flat(st.s)[0]];
    }
  }

  /** Put-back discipline: once no line end is queued up, no put-back ever overtakes a byte. */
  lemma {:induction false} SettledRunIsExact(st: Scan, p: bytes)
    requires StartsOnlyAtCr(p) && st.matched <= |p| && Settled(st)
    ensures ExactRun(st, p)
    decreases Size(st.s) + st.matched, |p| - st.matched
  {
    if st.matched < |p| && Size(st.s) > 0 {
      StepStaysSettled(st, p);
      SettledRunIsExact(ScanStep(st, p), p);
    }
  }

  // ----- The main results on the search

  /** Where a search ends if the pattern first occurs at i: behind the delimiter, and behind
      two more bytes unless the first of them is a dash. */
  function TailAfter(t: bytes, p: bytes, i: nat): bytes
    requires i + |p| + 2 <= |t|
  {
    if t[i + |p|] == DASH then t[i + |p|..] else t[i + |p| + 2..]
  }

  /** What an exact search must return for the text t. */
  ghost predicate FirstOccurrence(r: Search, t: bytes, p: bytes) {
    match r
    case Missing => forall i: nat :: i + |p| + 2 <= |t| ==> !OccursAt(t, p, i)
    case Found(body, s) =>
      && |body| + |p| + 2 <= |t|
      && body == t[..|body|]
      && OccursAt(t, p, |body|) && NoneBefore(t, p, |body|)
      && Flat(s) == TailAfter(t, p, |body|)
  }

  lemma SkipLineEndFlat(s: Stream)
    requires Size(s) >= 2 && |s.queue| <= 2
    ensures |SkipLineEnd(s).queue| <= 2
    ensures Flat(SkipLineEnd(s)) == if Flat(s)[0] == DASH then Flat(s) else Flat(s)[2..]
  {
    DropFlat(s, 2);
    if Flat(s)[0] == DASH {
      assert Drop(s, 2).queue == [];
      assert Flat(s) == Flat(s)[..2] + Flat(s)[2..];
    }
  }

  lemma {:induction false} RunQueue(st: Scan, p: bytes, bound: nat)
    requires st.matched <= |p| && |p| <= bound + 1
    requires |st.s.queue| + st.matched <= bound || st.s.queue == []
    ensures Run(st, p).Matched? ==> |Run(st, p).end.s.queue| <= if bound < |p| then 0 else bound - |p|
    decreases Size(st.s) + st.matched, |p| - st.matched
  {
    if st.matched < |p| && Size(st.s) > 0 {
      RunQueue(ScanStep(st, p), p, bound);
    }
  }

  /** The queue a search leaves: at most the two bytes put back, or what was left of an old queue. */
  lemma {:induction false} SearchQueue(s: Stream, p: bytes, bound: nat)
    requires |s.queue| <= bound && |p| <= bound + 1
    ensures var r := SearchFor(s, p);
      r.Found? ==> |r.s.queue| <= 2 || |r.s.queue| <= bound - |p|
  {
    RunQueue(Scan(s, 0, []), p, bound);
  }

  lemma MatchIsFirst(e: Scan, p: bytes, t: bytes)
    requires OccursAt(t, p, |e.body|) && NoneBefore(t, p, |e.body|)
    requires |e.body| + |p| + Size(e.s) == |t|
    requires e.body == t[..|e.body|] && Flat(e.s) == t[|e.body| + |p|..]
    requires Size(e.s) >= 2 && |e.s.queue| <= 2
    ensures FirstOccurrence(Found(e.body, SkipLineEnd(e.s)), t, p)
  {
    hide Flat, SkipLineEnd, OccursAt, NoneBefore;
    SkipLineEndFlat(e.s);
    assert Flat(e.s)[0] == t[|e.body| + |p|];
    assert Flat(e.s)[2..] == t[|e.body| + |p| + 2..];
  }

  lemma {:induction false} ExactSearchFindsFirst(s: Stream, p: bytes)
    requires ExactRun(Scan(s, 0, []), p) && |s.queue| <= 2 && |p| >= 1
    ensures FirstOccurrence(SearchFor(s, p), Flat(s), p)
  {
    hide Flat, Run, OccursAt, ExactRun, SkipLineEnd;
    var t, st := Flat(s), Scan(s, 0, []);
    assert [] + p[..0] + t == t;
    ExactRunFindsFirst(st, p, t);
    RunQueue(st, p, |p| + 1);
    match Run(st, p)
    case InputEnded =>
    case Matched(e) =>
      if Size(e.s) >= 2 {
        MatchIsFirst(e, p, t);
      }
  }

  /** First occurrence: behind the opening delimiter the search is exact on every text. It
      succeeds iff some delimiter has two bytes behind it, and then stops at the first one. */
  lemma {:induction false} SearchFindsFirst(s: Stream, boundary: cstring)
    requires NoSpace(boundary) && |s.queue| <= 2 && CrOnlyLast(s.queue)
    ensures var r, p := SearchFor(s, Pattern(boundary, false)), Pattern(boundary, false);
      && FirstOccurrence(r, Flat(s), p)
      && (r.Found? <==> exists i: nat :: OccursAt(Flat(s), p, i) && i + |p| + 2 <= |Flat(s)|)
      && (r.Found? ==> |r.s.queue| <= 2)
  {
    hide Flat, Run, OccursAt, ExactRun, Pattern;
    var p := Pattern(boundary, false);
    DelimiterStartsOnlyAtCr(boundary);
    SettledRunIsExact(Scan(s, 0, []), p);
    ExactSearchFindsFirst(s, p);
    SearchQueue(s, p, |p| + 1);
  }

  // ----- The opening call: a preamble should not contain a long false match

  /** Length of the run of dashes a pattern begins with. */
  function DashRun(p: bytes): (n: nat)
    ensures n <= |p| && (forall i :: 0 <= i < n ==> p[i] == DASH) && (n < |p| ==> p[n] != DASH)
  {
    if p == [] || p[0] != DASH then 0 else 1 + DashRun(p[1..])
  }

  /** The pattern's dashes and the byte behind them. */
  function LeadIn(p: bytes): bytes {
    Cut(p, DashRun(p) + 1)
  }

  /** Ahead of the first delimiter, the pattern's dashes are never followed by its next byte. */
  ghost predicate CleanPreamble(t: bytes, p: bytes) {
    forall i: nat :: OccursAt(t, LeadIn(p), i) ==> exists j: nat :: j <= i && OccursAt(t, p, j)
  }

  predicate DashesQueued(st: Scan, p: bytes) {
    && (forall i :: 0 <= i < |st.s.queue| - 1 ==> st.s.queue[i] == DASH)
    && (st.s.queue == [] || st.matched + |st.s.queue| <= DashRun(p))
  }

  lemma {:induction false} StepKeepsDashes(st: Scan, p: bytes, t: bytes)
    requires st.matched < |p| && Size(st.s) > 0 && Covers(st, p, t)
    requires CleanPreamble(t, p) && DashesQueued(st, p)
    ensures st.matched > 0 && Flat(st.s)[0] != p[st.matched] ==> Drop(st.s, 1).queue == []
    ensures DashesQueued(ScanStep(st, p), p)
  {
    var m, d, r := st.matched, Flat(st.s)[0], DashRun(p);
    if d != p[m] && m > r {
      NoLongFalseMatch(st, p, t);
    } else if d != p[m] && m > 0 {
      assert Drop(st.s, 1).queue == [];
      assert ScanStep(st, p).s.queue == p[1..m] + [d];
    }
  }

  lemma {:induction false} PrefixOccurs(t: bytes, p: bytes, i: nat, m: nat, rest: bytes)
    requires DashRun(p) < m <= |p| && i <= |t| && t[i..] == p[..m] + rest
    ensures OccursAt(t, LeadIn(p), i)
  {
    hide DashRun, OccursAt;
    var k := DashRun(p) + 1;
    assert LeadIn(p) == p[..k];
    PrefixAt(t, p, i, m, k, rest);
  }

  lemma {:induction false} PrefixAt(t: bytes, p: bytes, i: nat, m: nat, k: nat, rest: bytes)
    requires k <= m <= |p| && i <= |t| && t[i..] == p[..m] + rest
    ensures OccursAt(t, p[..k], i)
  {
    SliceOfRest(t, i, k);
    assert (p[..m] + rest)[..k] == p[..k];
  }

  lemma {:induction false} NoLongFalseMatch(st: Scan, p: bytes, t: bytes)
    requires st.matched < |p| && Size(st.s) > 0 && Covers(st, p, t)
    requires CleanPreamble(t, p) && Flat(st.s)[0] != p[st.matched]
    ensures st.matched <= DashRun(p)
  {
    hide Flat, OccursAt, DashRun, LeadIn;
    var m, i, tail := st.matched, |st.body|, Flat(st.s);
    var d, rest := tail[0], tail[1..];
    assert tail == [d] + rest;
    SuffixOf(st.body, p[..m], tail, t);
    assert p[..m] + [d] + rest == p[..m] + tail;
    FalseMatch(t, p, i, m, d, rest);
    if m > DashRun(p) {
      PrefixOccurs(t, p, i, m, tail);
    }
  }

  lemma SuffixOf(a: bytes, b: bytes, c: bytes, t: bytes)
    requires t == a + b + c
    ensures t[|a|..] == b + c
  {
  }

  lemma {:induction false} CleanRunIsExact(st: Scan, p: bytes, t: bytes)
    requires st.matched <= |p| && Covers(st, p, t)
    requires CleanPreamble(t, p) && DashesQueued(st, p)
    ensures ExactRun(st, p)
    decreases Size(st.s) + st.matched, |p| - st.matched
  {
    if st.matched < |p| && Size(st.s) > 0 {
      StepKeepsDashes(st, p, t);
      StepCovers(st, p, t);
      CleanRunIsExact(ScanStep(st, p), p, t);
    }
  }

  /** The opening call finds the first delimiter behind every clean preamble. */
  lemma {:induction false} OpeningFindsFirst(t: bytes, boundary: cstring)
    requires CleanPreamble(t, Pattern(boundary, true))
    ensures FirstOccurrence(SearchFor(Stream([], t), Pattern(boundary, true)), t, Pattern(boundary, true))
    ensures var r := SearchFor(Stream([], t), Pattern(boundary, true)); r.Found? ==> |r.s.queue| <= 2
  {
    var p, st := Pattern(boundary, true), Scan(Stream([], t), 0, []);
    assert [] + t == t && [] + p[..0] + t == t;
    CleanRunIsExact(st, p, t);
    ExactSearchFindsFirst(st.s, p);
    SearchQueue(st.s, p, |p| + 1);
  }

  /** A body that starts with the delimiter has a clean preamble: none at all. */
  lemma NoPreambleIsClean(t: bytes, p: bytes)
    requires OccursAt(t, p, 0)
    ensures CleanPreamble(t, p)
  {
  }

  // ----- Which boundaries the opening call can be trusted with

  ghost predicate OpeningExactOn(t: bytes, boundary: cstring) {
    FirstOccurrence(SearchFor(Stream([], t), Pattern(boundary, true)), t, Pattern(boundary, true))
  }

  /** A stream that begins with m bytes of the pattern. */
  lemma {:induction false} MatchPrefix(st: Scan, p: bytes, m: nat)
    requires st.matched <= m <= |p| && m - st.matched <= Size(st.s)
    requires Flat(st.s)[..m - st.matched] == p[st.matched..m]
    ensures Run(st, p) == Run(Scan(Drop(st.s, m - st.matched), m, st.body), p)
    decreases m - st.matched
  {
    hide Run, Flat, Drop;
    DropNone(st.s);
    if st.matched < m {
      var s, n := Drop(st.s, 1), m - st.matched;
      DropOne(st.s);
      DropAgain(st.s, n);
      assert Flat(st.s)[0] == Flat(st.s)[..n][0] == p[st.matched];
      assert Flat(s)[..n - 1] == Flat(st.s)[..n][1..] == p[st.matched + 1..m];
      RunStep(st, p);
      MatchPrefix(Scan(s, st.matched + 1, st.body), p, m);
    }
  }

  lemma DropNone(s: Stream)
    ensures Drop(s, 0) == s
  {
  }

  lemma DropAgain(s: Stream, n: nat)
    requires 0 < n <= Size(s)
    ensures Size(Drop(s, 1)) == Size(s) - 1 && Drop(Drop(s, 1), n - 1) == Drop(s, n)
  {
  }

  /** A byte d that breaks off a match of m bytes while the queue still holds `left` behind it. */
  lemma {:induction false} BreakMatch(left: bytes, d: byte, rest: bytes, m: nat, body: bytes, p: bytes)
    requires 0 < m < |p| && d != p[m]
    ensures Run(Scan(Stream([d] + left, rest), m, body), p)
         == Run(Scan(Stream(left + p[1..m] + [d], rest), 0, body + [p[0]]), p)
    ensures Run(Scan(Stream([], [d] + rest), m, body), p)
         == Run(Scan(Stream(p[1..m] + [d], rest), 0, body + [p[0]]), p)
  {
    hide Run;
    var a, b := Scan(Stream([d] + left, rest), m, body), Scan(Stream([], [d] + rest), m, body);
    assert Drop(a.s, 1) == Stream(left, rest) && Drop(b.s, 1) == Stream([], rest);
    assert left + (p[1..m] + [d]) == left + p[1..m] + [d] && [] + (p[1..m] + [d]) == p[1..m] + [d];
    RunStep(a, p);
    RunStep(b, p);
  }

  lemma RunStep(st: Scan, p: bytes)
    requires st.matched < |p| && Size(st.s) > 0
    ensures Run(st, p) == Run(ScanStep(st, p), p)
  {
  }

  lemma {:induction false} BodyGrows(st: Scan, p: bytes)
    requires st.matched <= |p|
    ensures Run(st, p).Matched? ==> st.body <= Run(st, p).end.body
    decreases Size(st.s) + st.matched, |p| - st.matched
  {
    if st.matched < |p| && Size(st.s) > 0 {
      BodyGrows(ScanStep(st, p), p);
    }
  }

  /** A match of the lead-in that d breaks off. */
  lemma {:induction false} LeadInBroken(p: bytes, d: byte, rest: bytes, k: nat)
    requires 0 < k + 1 < |p| && d != p[k + 1]
    ensures Run(Scan(Stream([], p[..k + 1] + [d] + rest), 0, []), p)
         == Run(Scan(Stream(p[1..k + 1] + [d], rest), 0, [p[0]]), p)
  {
    hide Run, Flat;
    var t := p[..k + 1] + [d] + rest;
    assert Flat(Stream([], t)) == t by { FlatRest(t); }
    assert t[..k + 1] == p[..k + 1] && Drop(Stream([], t), k + 1) == Stream([], [d] + rest);
    MatchPrefix(Scan(Stream([], t), 0, []), p, k + 1);
    BreakMatch([], d, rest, k + 1, [], p);
    assert [] + [p[0]] == [p[0]];
  }

  /** Dashes, x and d in the queue: x comes behind d. */
  lemma DashesBroken(p: bytes, x: byte, d: byte, rest: bytes, body: bytes, j: nat)
    requires 0 < j < |p| && x != p[j]
    ensures Run(Scan(Stream(p[..j] + [x] + [d], rest), 0, body), p)
         == Run(Scan(Stream([d] + p[1..j] + [x], rest), 0, body + [p[0]]), p)
  {
    hide Run, Flat;
    var s := Stream(p[..j] + [x] + [d], rest);
    FlatQueue(s);
    assert Flat(s)[..j] == s.queue[..j] == p[..j];
    assert Drop(s, j) == Stream([x] + [d], rest);
    MatchPrefix(Scan(s, 0, body), p, j);
    BreakMatch([d], x, rest, j, body, p);
  }

  /** A false match behind the lead-in: the byte d that breaks it off overtakes the bytes that
      are put back a second time. */
  lemma {:induction false} Overtaken(p: bytes, k: nat, d: byte, rest: bytes)
    requires 2 <= k && k + 1 < |p| && d != p[k + 1]
    requires p[k] != DASH && forall i :: 0 <= i < k ==> p[i] == DASH
    ensures Run(Scan(Stream([], p[..k + 1] + [d] + rest), 0, []), p)
         == Run(Scan(Stream([d] + p[1..k - 1] + [p[k]], rest), 0, [DASH, DASH]), p)
  {
    hide Run;
    LeadInBroken(p, d, rest, k);
    assert p[1..k + 1] == p[..k - 1] + [p[k]];
    DashesBroken(p, p[k], d, rest, [p[0]], k - 1);
    assert [p[0]] + [p[0]] == [DASH, DASH];
  }

  lemma FlatRest(t: bytes)
    ensures Flat(Stream([], t)) == t
  {
  }

  lemma FlatQueue(s: Stream)
    ensures |Flat(s)| >= |s.queue| && Flat(s)[..|s.queue|] == s.queue
  {
  }

  /** Dashes that do not make up the pattern's run, and the byte behind them, are given up. */
  lemma {:induction false} DashesGivenUp(p: bytes, j: nat, x: byte, rest: bytes, body: bytes) returns (b: bytes)
    requires j < |p| && x != DASH && forall i :: 0 <= i <= j ==> p[i] == DASH
    ensures Run(Scan(Stream(p[..j] + [x], rest), 0, body), p) == Run(Scan(Stream([], rest), 0, b), p)
  {
    hide Run, Flat;
    var s := Stream(p[..j] + [x], rest);
    FlatQueue(s);
    if j == 0 {
      assert Drop(s, 1) == Stream([], rest) && Flat(s)[0] == x;
      RunStep(Scan(s, 0, body), p);
      b := body + [x];
    } else {
      assert Flat(s)[..j] == s.queue[..j] == p[..j];
      assert Drop(s, j) == Stream([x] + [], rest);
      MatchPrefix(Scan(s, 0, body), p, j);
      BreakMatch([], x, rest, j, body, p);
      assert [] + p[1..j] + [x] == p[..j - 1] + [x];
      b := DashesGivenUp(p, j - 1, x, rest, body + [p[0]]);
    }
  }

  /** The opening call misses the delimiter for every boundary that goes on behind its lead-in with
      something else than a dash: where the lead-in stands directly in front of the delimiter, the
      byte that breaks off the false match is a dash of the delimiter. With the boundary "ab" it
      misses it in "--a--ab\r\n". */
  lemma {:induction false} OpeningMissesDelimiter(boundary: cstring, behind: bytes)
    requires var p := Pattern(boundary, true); DashRun(p) + 1 < |p| && p[DashRun(p) + 1] != DASH
    requires |behind| == 2
    ensures var p := Pattern(boundary, true);
      var t := LeadIn(p) + p + behind;
      OccursAt(t, p, DashRun(p) + 1) && SearchFor(Stream([], t), p).Missing?
  {
    var p := Pattern(boundary, true);
    var k := DashRun(p);
    TwoDashes(boundary);
    hide Run, Pattern, Flat, SkipLineEnd;
    var t, rest := LeadIn(p) + p + behind, p[1..] + behind;
    assert t == LeadIn(p) + (p + behind) == p[..k + 1] + [DASH] + rest;
    OccursInside(LeadIn(p), p, behind);
    Overtaken(p, k, DASH, rest);
    assert [DASH] + p[1..k - 1] + [p[k]] == p[..k - 1] + [p[k]];
    var b := DashesGivenUp(p, k - 1, p[k], rest, [DASH, DASH]);
    RunConserves(Scan(Stream([], rest), 0, b), p);
    BodyGrows(Scan(Stream([], rest), 0, b), p);
  }

  lemma TwoDashes(boundary: cstring)
    ensures 2 <= DashRun(Pattern(boundary, true))
  {
  }

  /** The opening call takes exactly the text ahead of the first delimiter, whatever the input, if and
      only if nothing follows the lead-in: the boundary is dashes, but for its last byte at most. */
  lemma {:induction false} OpeningExactIff(boundary: cstring)
    requires NoSpace(boundary)
    ensures (forall t: bytes :: OpeningExactOn(t, boundary))
       <==> |Pattern(boundary, true)| <= DashRun(Pattern(boundary, true)) + 1
  {
    hide SearchFor, FirstOccurrence, NoSpace;
    var p := Pattern(boundary, true);
    if |p| <= DashRun(p) + 1 {
      forall t: bytes ensures OpeningExactOn(t, boundary) {
        assert LeadIn(p) == p;
        assert CleanPreamble(t, p);
        OpeningFindsFirst(t, boundary);
      }
    } else {
      var a := p[..DashRun(p) + 1] + [CR];
      TwoDashes(boundary);
      PatternHasNoSpace(boundary);
      MixesUp(p, DashRun(p), a);
      assert !OpeningExactOn(a + (p + [CR, LF]), boundary);
    }
  }

  /** A line end behind the lead-in is moved in front of bytes that precede it. */
  lemma {:induction false} MixedBody(p: bytes, k: nat, rest: bytes)
    requires 2 <= k && k + 1 < |p| && NoSpace(p)
    requires p[k] != DASH && forall i :: 0 <= i < k ==> p[i] == DASH
    ensures var r := Run(Scan(Stream([], p[..k + 1] + [CR] + rest), 0, []), p);
      r.Matched? ==> |r.end.body| > 2 && r.end.body[2] == CR
  {
    hide Run, Flat;
    Overtaken(p, k, CR, rest);
    var st := Scan(Stream([CR] + p[1..k - 1] + [p[k]], rest), 0, [DASH, DASH]);
    FlatQueue(st.s);
    assert Flat(st.s)[0] == st.s.queue[0] == CR;
    RunStep(st, p);
    assert ScanStep(st, p).body == [DASH, DASH, CR];
    BodyGrows(ScanStep(st, p), p);
  }

  lemma {:induction false} MixesUp(p: bytes, k: nat, a: bytes)
    requires 2 <= k && k + 1 < |p| && NoSpace(p) && a == p[..k + 1] + [CR]
    requires p[k] != DASH && forall i :: 0 <= i < k ==> p[i] == DASH
    ensures var t := a + (p + [CR, LF]); !FirstOccurrence(SearchFor(Stream([], t), p), t, p)
  {
    hide Run, Flat, OccursAt, FirstOccurrence, SearchFor;
    var t := a + (p + [CR, LF]);
    MixedBody(p, k, p + [CR, LF]);
    assert t[2] == a[2] == p[2] != CR;
    hide NoSpace;
    OccursInside(a, p, [CR, LF]);
    SearchBody(t, p);
    WrongBody(SearchFor(Stream([], t), p), t, p, |a|);
  }

  lemma PatternHasNoSpace(boundary: cstring)
    requires NoSpace(boundary)
    ensures NoSpace(Pattern(boundary, true))
  {
  }

  lemma SearchBody(t: bytes, p: bytes)
    ensures var r, e := SearchFor(Stream([], t), p), Run(Scan(Stream([], t), 0, []), p);
      r.Found? ==> e.Matched? && r.body == e.end.body
  {
  }

  lemma {:induction false} WrongBody(r: Search, t: bytes, p: bytes, i: nat)
    requires OccursAt(t, p, i) && i + |p| + 2 <= |t| && |t| > 2
    requires r.Found? ==> |r.body| > 2 && r.body[2] != t[2]
    ensures !FirstOccurrence(r, t, p)
  {
  }

  lemma OccursInside(a: bytes, p: bytes, b: bytes)
    ensures OccursAt(a + (p + b), p, |a|)
  {
    assert (a + (p + b))[|a|..|a| + |p|] == p;
  }
}

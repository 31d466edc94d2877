/** The accessors that search the form by name, and those that return null-terminated arrays. */
module FormArrays {
  import opened Bytes
  import opened FormEntries
  import opened FormText

  /** A null-terminated array of strings with exactly these elements. */
  ghost predicate Lists(a: array<Option<cstring>>, strings: seq<cstring>)
    reads a
  {
    && a.Length == |strings| + 1
    && (forall i :: 0 <= i < |strings| ==> a[i] == Some(strings[i]))
    && a[|strings|] == None
  }

  /** cgiFormString and cgiFormStringNoNewlines. */
  method FormString(form: Form, name: cstring, result: array<byte>, max: int, newlines: bool) returns (r: FormResult)
    requires form.Valid() && max <= result.Length && 1 <= result.Length
    modifies form`findTarget, form`findPos, form`findIndex, result
    ensures var m := Matches(form.Entries(), name, 0);
      if m == [] then CStr(result[..]) == [] && r == FormNotFound
      else
        var t := Normal(CStr(m[0].value), newlines);
        && CStr(result[..]) == Cut(t, Room(max))
        && r == (if |t| > Room(max) then FormTruncated else if t == [] then FormEmpty else FormSuccess)
  {
    var e := form.FindFirst(name);
    if e == null {
      result[0] := NUL;
      CStrTerminated([], result[..]);
      CStrWhole([]);
      return FormNotFound;
    }
    r := EntryString(CStr(e.entry.value), result, max, newlines);
  }

  /** cgiFormStringSpaceNeeded. */
  method FormStringSpaceNeeded(form: Form, name: cstring) returns (r: FormResult, space: nat)
    requires form.Valid()
    modifies form`findTarget, form`findPos, form`findIndex
    ensures var m := Matches(form.Entries(), name, 0);
      if m == [] then r == FormNotFound && space == 1 else r == FormSuccess && space == |CStr(m[0].value)| + 1
  {
    var e := form.FindFirst(name);
    if e == null {
      return FormNotFound, 1;
    }
    r, space := FormSuccess, |CStr(e.entry.value)| + 1;
  }

  /** A buffer of the size asked for is never too small, whatever becomes of the line ends. */
  lemma SpaceSuffices(text: cstring, newlines: bool)
    ensures |Normal(text, newlines)| <= Room(|text| + 1)
  {
    NormalShrinks(text, newlines);
  }

  // ----- cgiFormStringMultiple

  function NormalText(e: Entry): cstring {
    NormalShrinks(CStr(e.value), true);
    Normal(CStr(e.value), true)
  }

  function NormalTexts(es: seq<Entry>): (r: seq<cstring>)
    ensures |r| == |es|
  {
    if es == [] then [] else [NormalText(es[0])] + NormalTexts(es[1..])
  }

  /** What is listed for entry k: its text with its lines kept. A text without carriage returns is listed as it
      is, line feeds included. */
  lemma {:induction false} ListedText(es: seq<Entry>, k: nat)
    requires k < |es|
    ensures NormalTexts(es)[k] == Normal(CStr(es[k].value), true)
    ensures CR !in CStr(es[k].value) ==> NormalTexts(es)[k] == CStr(es[k].value)
  {
    NormalTextAt(es, k);
    hide Normal, CStr;
    if CR !in CStr(es[k].value) {
      LfTextIsNormal(CStr(es[k].value));
    }
  }

  /** The counting pass. */
  method CountMatches(form: Form, name: cstring) returns (total: nat)
    requires form.Valid()
    modifies form`findTarget, form`findPos, form`findIndex
    ensures total == |Matches(form.Entries(), name, 0)|
  {
    hide Form.Entries, Form.Valid, Form.CursorValid, Form.StandsAt, Matches;
    total := 0;
    ghost var all := Matches(form.Entries(), name, 0);
    var e := form.FindFirst(name);
    form.StandsFacts(e, all, 0);
    while e != null
      invariant form.StandsAt(e, all, total) && total <= |all| && (e == null <==> total == |all|)
      decreases |all| - total
    {
      e := form.FindFollowing(e, all, total);
      total := total + 1;
      form.StandsFacts(e, all, total);
    }
  }

  lemma {:induction false} NormalTextAt(es: seq<Entry>, k: nat)
    requires k < |es|
    ensures NormalTexts(es)[k] == NormalText(es[k])
  {
    hide NormalText;
    if k > 0 {
      NormalTextAt(es[1..], k - 1);
    }
  }

  /** A copy of an entry's text in a buffer of exactly the size it needs. */
  method CopyText(e: Entry) returns (text: cstring)
    ensures text == NormalText(e)
  {
    hide Normal;
    var max := |CStr(e.value)| + 1;
    var buffer := new byte[max];
    SpaceSuffices(CStr(e.value), true);
    var notTruncated := EntryString(CStr(e.value), buffer, max, true);
    text := CStr(buffer[..]);
  }

  /** The first i slots are filled, and the others are still null. */
  ghost predicate Filled(slots: seq<Option<cstring>>, texts: seq<cstring>, i: nat) {
    && i <= |texts| && |slots| == |texts| + 1
    && (forall k :: 0 <= k < i ==> slots[k] == Some(texts[k]))
    && (forall k :: i <= k <= |texts| ==> slots[k] == None)
  }

  lemma FillOne(before: seq<Option<cstring>>, texts: seq<cstring>, i: nat, text: cstring)
    requires i < |texts| && Filled(before, texts, i) && text == texts[i]
    ensures i < |before| && Filled(before[i := Some(text)], texts, i + 1)
  {
  }

  lemma NoneFilled(slots: seq<Option<cstring>>, texts: seq<cstring>)
    requires |slots| == |texts| + 1 && forall k :: 0 <= k < |slots| ==> slots[k] == None
    ensures Filled(slots, texts, 0)
  {
  }

  lemma AllFilled(result: array<Option<cstring>>, texts: seq<cstring>)
    requires Filled(result[..], texts, |texts|)
    ensures Lists(result, texts)
  {
    assert forall k :: 0 <= k < |texts| ==> result[k] == result[..][k];
    assert result[|texts|] == result[..][|texts|];
  }

  lemma ListedTexts(result: array<Option<cstring>>, es: seq<Entry>)
    requires Lists(result, NormalTexts(es))
    ensures forall k :: 0 <= k < |es| ==> result[k].Some? && result[k].value == Normal(CStr(es[k].value), true)
  {
    hide Normal, CStr, NormalTexts;
    forall k | 0 <= k < |es| ensures result[k].Some? && result[k].value == Normal(CStr(es[k].value), true) {
      ListedText(es, k);
    }
  }

  /** cgiFormStringMultiple: every matching value in list order, none of them truncated. */
  method FormStringMultiple(form: Form, name: cstring) returns (r: FormResult, result: array<Option<cstring>>)
    requires form.Valid()
    modifies form`findTarget, form`findPos, form`findIndex
    ensures fresh(result) && Lists(result, NormalTexts(Matches(form.Entries(), name, 0)))
    ensures forall k :: 0 <= k < |Matches(form.Entries(), name, 0)| ==>
      result[k].Some? && result[k].value == Normal(CStr(Matches(form.Entries(), name, 0)[k].value), true)
    ensures r == if Matches(form.Entries(), name, 0) == [] then FormNotFound else FormSuccess
  {
    hide Form.Entries, Form.Valid, Form.CursorValid, Form.StandsAt, Matches, NormalText, NormalTexts, Filled, Lists;
    hide Normal, CStr;
    var total := CountMatches(form, name);
    result := new Option<cstring>[total + 1](_ => None);
    ghost var all := Matches(form.Entries(), name, 0);
    NoneFilled(result[..], NormalTexts(all));
    var i := 0;
    var e := form.FindFirst(name);
    r := if e == null then FormNotFound else FormSuccess;
    form.StandsFacts(e, all, i);
    while e != null
      invariant form.StandsAt(e, all, i) && i <= |all| && (e == null <==> i == |all|)
      invariant e != null ==> all[i] == e.entry
      invariant Filled(result[..], NormalTexts(all), i)
      decreases |all| - i
    {
      var text := CopyText(e.entry);
      NormalTextAt(all, i);
      FillOne(result[..], NormalTexts(all), i, text);
      result[i] := Some(text);
      e := form.FindFollowing(e, all, i);
      i := i + 1;
      form.StandsFacts(e, all, i);
    }
    AllFilled(result, NormalTexts(all));
    ListedTexts(result, all);
  }

  // ----- cgiFormEntries

  /** Has the name of entry k occurred before? */
  ghost predicate Seen(es: seq<Entry>, k: nat)
    requires k < |es|
  {
    exists i :: 0 <= i < k && es[i].attr == es[k].attr
  }

  /** The distinct names among the first k entries, in the order of their first occurrence. */
  ghost function Names(es: seq<Entry>, k: nat): (r: seq<cstring>)
    requires k <= |es|
  {
    if k == 0 then []
    else if Seen(es, k - 1) then Names(es, k - 1)
    else Names(es, k - 1) + [es[k - 1].attr]
  }

  /** Every name occurs, and nothing else does. */
  lemma {:induction false} NamesOccur(es: seq<Entry>, k: nat, n: cstring)
    requires k <= |es|
    ensures n in Names(es, k) <==> exists i :: 0 <= i < k && es[i].attr == n
  {
    if k > 0 {
      NamesOccur(es, k - 1, n);
      var last := es[k - 1].attr;
      assert n in Names(es, k) <==> n in Names(es, k - 1) || (!Seen(es, k - 1) && n == last);
    }
  }

  /** No name is listed twice. */
  lemma {:induction false} NamesDiffer(es: seq<Entry>, k: nat, i: nat, j: nat)
    requires k <= |es| && i < j < |Names(es, k)|
    ensures Names(es, k)[i] != Names(es, k)[j]
  {
    var before := Names(es, k - 1);
    if j < |before| {
      NamesDiffer(es, k - 1, i, j);
    } else {
      assert before[i] in before;
      NamesOccur(es, k - 1, before[i]);
    }
  }

  /** Where a name first occurs. */
  ghost function FirstIndex(es: seq<Entry>, n: cstring): nat
  {
    if es == [] || es[0].attr == n then 0 else 1 + FirstIndex(es[1..], n)
  }

  lemma FirstIndexIs(es: seq<Entry>, n: cstring, i: nat)
    requires i < |es| && es[i].attr == n && forall j :: 0 <= j < i ==> es[j].attr != n
    ensures FirstIndex(es, n) == i
  {
    if i > 0 {
      FirstIndexIs(es[1..], n, i - 1);
    }
  }

  /** The order is that of the first occurrences. */
  lemma {:induction false} NamesInOrder(es: seq<Entry>, k: nat)
    requires k <= |es|
    ensures forall i :: 0 <= i < |Names(es, k)| ==> FirstIndex(es, Names(es, k)[i]) < k
    ensures forall i, j :: 0 <= i < j < |Names(es, k)| ==>
      FirstIndex(es, Names(es, k)[i]) < FirstIndex(es, Names(es, k)[j])
  {
    if k > 0 {
      NamesInOrder(es, k - 1);
      if !Seen(es, k - 1) {
        FirstIndexIs(es, es[k - 1].attr, k - 1);
      }
    }
  }

  /** The inner loop of both passes: is there an earlier entry with the same name? */
  method SeenBefore(form: Form, e: Node, ghost k: nat) returns (seen: bool)
    requires form.Valid() && k < |form.nodes| && e == form.nodes[k]
    ensures seen == Seen(form.Entries(), k)
  {
    hide Form.Valid, Form.Entries;
    ghost var i, es := 0, form.Entries();
    var pe := form.First();
    form.NodeFacts(k);
    while pe != e
      invariant i <= k && pe == form.NodeAt(i)
      invariant forall j :: 0 <= j < i ==> es[j].attr != es[k].attr
      decreases k - i
    {
      form.NodeFacts(i);
      if e.entry.attr == pe.entry.attr {
        return true;
      }
      pe := pe.next;
      i := i + 1;
    }
    form.Distinct(i, k);
    seen := false;
  }

  /** The counting pass. */
  method CountNames(form: Form) returns (total: nat)
    requires form.Valid()
    ensures total == |Names(form.Entries(), |form.nodes|)|
  {
    hide Form.Valid, Form.Entries, Names;
    total := 0;
    ghost var k, es := 0, form.Entries();
    NoNames(es);
    var e := form.First();
    while e != null
      invariant k <= |es| && e == form.NodeAt(k) && total == |Names(es, k)|
      decreases |es| - k
    {
      form.NodeFacts(k);
      NamesStep(es, k);
      var seen := SeenBefore(form, e, k);
      if !seen {
        total := total + 1;
      }
      e := e.next;
      k := k + 1;
    }
  }

  lemma NoNames(es: seq<Entry>)
    ensures Names(es, 0) == []
  {
  }

  lemma NamesStep(es: seq<Entry>, k: nat)
    requires k < |es|
    ensures Names(es, k + 1) == Names(es, k) + if Seen(es, k) then [] else [es[k].attr]
  {
    assert Names(es, k) + [] == Names(es, k);
  }

  lemma {:induction false} NamesGrow(es: seq<Entry>, k: nat, m: nat)
    requires k <= m <= |es|
    ensures |Names(es, k)| <= |Names(es, m)| && Names(es, m)[..|Names(es, k)|] == Names(es, k)
    decreases m - k
  {
    if k < m {
      NamesGrow(es, k, m - 1);
      NamesStep(es, m - 1);
    }
  }

  /** cgiFormEntries: every name once, in the order of first occurrence, and then a null. */
  method ListNames(form: Form) returns (result: array<Option<cstring>>)
    requires form.Valid()
    ensures fresh(result) && Lists(result, Names(form.Entries(), |form.nodes|))
  {
    hide Form.Valid, Form.Entries, Names;
    var total := CountNames(form);
    result := new Option<cstring>[total + 1](_ => None);
    ghost var k, es := 0, form.Entries();
    ghost var all := Names(es, |es|);
    NoNames(es);
    var e := form.First();
    var i := 0;
    while e != null
      invariant k <= |es| && e == form.NodeAt(k) && i == |Names(es, k)| <= |all| && form.Valid()
      invariant result.Length == |all| + 1
      invariant forall j :: 0 <= j < i ==> result[j] == Some(all[j])
      invariant forall j :: i <= j <= |all| ==> result[j] == None
      decreases |es| - k
    {
      form.NodeFacts(k);
      NamesStep(es, k);
      NamesGrow(es, k + 1, |es|);
      var seen := SeenBefore(form, e, k);
      if !seen {
        assert all[..i + 1][i] == e.entry.attr;
        result[i] := Some(e.entry.attr);
        i := i + 1;
      }
      e := e.next;
      k := k + 1;
    }
  }
}

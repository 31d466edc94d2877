/** The accessors for selections, checkboxes and radio buttons. */
module FormChoices {
  import opened Bytes
  import opened FormEntries
  import opened FormText
  import opened FormArrays

  /** The first choice with that text, or |choices|. */
  function ChoiceAt(choices: seq<cstring>, text: cstring): (i: nat)
    ensures i <= |choices|
    ensures forall j :: 0 <= j < i ==> choices[j] != text
    ensures i < |choices| ==> choices[i] == text
  {
    if choices == [] || choices[0] == text then 0 else 1 + ChoiceAt(choices[1..], text)
  }

  lemma ChoiceAtIs(choices: seq<cstring>, text: cstring, i: nat)
    requires i <= |choices| && forall j :: 0 <= j < i ==> choices[j] != text
    requires i < |choices| ==> choices[i] == text
    ensures ChoiceAt(choices, text) == i
  {
    var m := ChoiceAt(choices, text);
  }

  /** Choice i was picked by one of the entries. */
  ghost predicate Picked(ms: seq<Entry>, choices: seq<cstring>, i: nat) {
    exists k :: 0 <= k < |ms| && PickOf(ms, choices, k) == i
  }

  function PickOf(ms: seq<Entry>, choices: seq<cstring>, k: nat): nat
    requires k < |ms|
  {
    ChoiceAt(choices, CStr(ms[k].value))
  }

  /** How many of the first n entries name no choice. */
  function Strangers(ms: seq<Entry>, choices: seq<cstring>, n: nat): (c: nat)
    requires n <= |ms|
    ensures c <= n
  {
    if n == 0 then 0
    else Strangers(ms, choices, n - 1) + if CStr(ms[n - 1].value) in choices then 0 else 1
  }

  /** A choice is picked if an entry has its text, unless an earlier choice has the same text. */
  lemma PickedIff(ms: seq<Entry>, choices: seq<cstring>, i: nat)
    requires i < |choices|
    ensures Picked(ms, choices, i) <==>
      (exists k :: 0 <= k < |ms| && CStr(ms[k].value) == choices[i]) && choices[i] !in choices[..i]
  {
    hide CStr;
    if Picked(ms, choices, i) {
      var k :| 0 <= k < |ms| && PickOf(ms, choices, k) == i;
      assert CStr(ms[k].value) == choices[i];
    }
    if choices[i] !in choices[..i] {
      forall j | 0 <= j < i ensures choices[j] != choices[i] {
        assert choices[j] == choices[..i][j];
      }
      if k :| 0 <= k < |ms| && CStr(ms[k].value) == choices[i] {
        ChoiceAtIs(choices, CStr(ms[k].value), i);
        assert PickOf(ms, choices, k) == i;
      }
    }
  }

  /** All entries are strangers if and only if no choice is picked. */
  lemma {:induction false} AllStrangersIff(ms: seq<Entry>, choices: seq<cstring>, n: nat)
    requires n <= |ms|
    ensures Strangers(ms, choices, n) == n <==> forall k :: 0 <= k < n ==> CStr(ms[k].value) !in choices
  {
    hide CStr;
    if n > 0 {
      AllStrangersIff(ms, choices, n - 1);
    }
  }

  /** The entries among the first n that name no choice, counted as a set. */
  lemma {:induction false} StrangersAre(ms: seq<Entry>, choices: seq<cstring>, n: nat)
    requires n <= |ms|
    ensures Strangers(ms, choices, n) == |set k: nat | k < n && CStr(ms[k].value) !in choices|
  {
    hide CStr;
    var all := set k: nat | k < n && CStr(ms[k].value) !in choices;
    if n == 0 {
      assert all == {};
    } else {
      StrangersAre(ms, choices, n - 1);
      var before := set k: nat | k < n - 1 && CStr(ms[k].value) !in choices;
      assert all == if CStr(ms[n - 1].value) in choices then before else before + {n - 1};
    }
  }

  /** The inner loop: the first choice with that text. */
  method FindChoice(choices: seq<cstring>, text: cstring) returns (i: nat)
    ensures i == ChoiceAt(choices, text)
  {
    i := 0;
    while i < |choices|
      invariant i <= |choices| && forall j :: 0 <= j < i ==> choices[j] != text
    {
      if choices[i] == text {
        break;
      }
      i := i + 1;
    }
    ChoiceAtIs(choices, text, i);
  }

  lemma PickStep(ms: seq<Entry>, choices: seq<cstring>, n: nat, i: nat)
    requires n < |ms| && i < |choices|
    ensures Picked(ms[..n + 1], choices, i) <==> Picked(ms[..n], choices, i) || PickOf(ms, choices, n) == i
  {
    hide ChoiceAt, CStr;
    if Picked(ms[..n + 1], choices, i) {
      var k :| 0 <= k < n + 1 && PickOf(ms[..n + 1], choices, k) == i;
      if k < n {
        assert PickOf(ms[..n], choices, k) == i;
      }
    }
    if Picked(ms[..n], choices, i) {
      var k :| 0 <= k < n && PickOf(ms[..n], choices, k) == i;
      assert PickOf(ms[..n + 1], choices, k) == i;
    }
    assert PickOf(ms[..n + 1], choices, n) == PickOf(ms, choices, n);
  }

  lemma StrangerStep(ms: seq<Entry>, choices: seq<cstring>, n: nat)
    requires n < |ms|
    ensures Strangers(ms, choices, n + 1) ==
      Strangers(ms, choices, n) + if PickOf(ms, choices, n) < |choices| then 0 else 1
  {
    hide CStr;
    var i := PickOf(ms, choices, n);
  }

  /** What cgiFormSelectMultiple has marked after the first n entries. */
  ghost predicate Marked(result: seq<bool>, ms: seq<Entry>, choices: seq<cstring>, n: nat)
    requires n <= |ms| && |result| == |choices|
  {
    forall i :: 0 <= i < |choices| ==> result[i] == Picked(ms[..n], choices, i)
  }

  lemma MarkOne(before: seq<bool>, after: seq<bool>, ms: seq<Entry>, choices: seq<cstring>, n: nat)
    requires n < |ms| && |before| == |after| == |choices| && Marked(before, ms, choices, n)
    requires var p := PickOf(ms, choices, n); after == if p < |choices| then before[p := true] else before
    ensures Marked(after, ms, choices, n + 1)
  {
    hide Picked, ChoiceAt, CStr;
    forall i | 0 <= i < |choices| ensures after[i] == Picked(ms[..n + 1], choices, i) {
      PickStep(ms, choices, n, i);
    }
  }

  /** cgiFormSelectMultiple and cgiFormCheckboxMultiple. The entries that name a choice and those
      that do not make up all entries of that name. */
  method SelectMultiple(form: Form, name: cstring, choices: seq<cstring>, result: array<bool>)
      returns (r: FormResult, invalid: nat)
    requires form.Valid() && result.Length == |choices|
    modifies form`findTarget, form`findPos, form`findIndex, result
    ensures var m := Matches(form.Entries(), name, 0);
      && (forall i :: 0 <= i < |choices| ==> result[i] == Picked(m, choices, i))
      && invalid == Strangers(m, choices, |m|)
      && r == if invalid < |m| then FormSuccess else FormNotFound
  {
    hide Form.Entries, Form.Valid, Form.CursorValid, Form.StandsAt, Matches;
    hide Picked, ChoiceAt, Strangers, PickOf, Marked, CStr;
    ClearMarks(result);
    var hits := 0;
    invalid := 0;
    ghost var n, all := 0, Matches(form.Entries(), name, 0);
    NothingPicked(result[..], all, choices);
    var e := form.FindFirst(name);
    form.StandsFacts(e, all, n);
    while e != null
      invariant form.StandsAt(e, all, n) && n <= |all| && (e == null <==> n == |all|)
      invariant e != null ==> all[n] == e.entry
      invariant Marked(result[..], all, choices, n)
      invariant invalid == Strangers(all, choices, n) && hits + invalid == n
      decreases |all| - n
    {
      var i := FindChoice(choices, CStr(e.entry.value));
      PickIs(all, choices, n);
      StrangerStep(all, choices, n);
      ghost var before := result[..];
      if i < |choices| {
        result[i] := true;
        hits := hits + 1;
      } else {
        invalid := invalid + 1;
      }
      MarkOne(before, result[..], all, choices, n);
      e := form.FindFollowing(e, all, n);
      n := n + 1;
      form.StandsFacts(e, all, n);
    }
    AllMarked(result[..], all, choices);
    r := if hits > 0 then FormSuccess else FormNotFound;
  }

  method ClearMarks(result: array<bool>)
    modifies result
    ensures forall i :: 0 <= i < result.Length ==> !result[i]
  {
    forall i | 0 <= i < result.Length {
      result[i] := false;
    }
  }

  lemma AllMarked(result: seq<bool>, ms: seq<Entry>, choices: seq<cstring>)
    requires |result| == |choices| && Marked(result, ms, choices, |ms|)
    ensures forall i :: 0 <= i < |choices| ==> result[i] == Picked(ms, choices, i)
  {
    assert ms[..|ms|] == ms;
  }

  lemma PickIs(ms: seq<Entry>, choices: seq<cstring>, n: nat)
    requires n < |ms|
    ensures PickOf(ms, choices, n) == ChoiceAt(choices, CStr(ms[n].value))
  {
  }

  lemma NothingPicked(result: seq<bool>, ms: seq<Entry>, choices: seq<cstring>)
    requires |result| == |choices| && forall i :: 0 <= i < |result| ==> !result[i]
    ensures Marked(result, ms, choices, 0) && Strangers(ms, choices, 0) == 0
  {
  }

  /** cgiFormSelectSingle and cgiFormRadio: the first entry of that name decides. */
  method SelectSingle(form: Form, name: cstring, choices: seq<cstring>, defaultV: int)
      returns (r: FormResult, result: int)
    requires form.Valid()
    modifies form`findTarget, form`findPos, form`findIndex
    ensures var m := Matches(form.Entries(), name, 0);
      if m == [] then r == FormNotFound && result == defaultV
      else if CStr(m[0].value) in choices then
        r == FormSuccess && 0 <= result < |choices| && choices[result] == CStr(m[0].value)
        && CStr(m[0].value) !in choices[..result]
      else r == FormNoSuchChoice && result == defaultV
  {
    var e := form.FindFirst(name);
    if e == null {
      return FormNotFound, defaultV;
    }
    var i := FindChoice(choices, CStr(e.entry.value));
    if i < |choices| {
      return FormSuccess, i;
    }
    r, result := FormNoSuchChoice, defaultV;
  }
}

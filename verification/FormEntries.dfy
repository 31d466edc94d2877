/** The list of form entries, and the cursor that searches it by name. */
module FormEntries {
  import opened Bytes

  datatype Option<+T> = None | Some(value: T)

  /** One form entry. `upload` holds the bytes of the temporary file named by tfileName, and is
      None where that name is empty; `value` is the block that value points to, without its
      final terminator. */
  datatype Entry = Entry(attr: cstring, value: bytes, valueLength: int,
                         fileName: cstring, contentType: cstring, upload: Option<bytes>)

  class Node {
    const entry: Entry
    var next: Node?

    constructor (entry: Entry)
      ensures this.entry == entry && next == null
    {
      this.entry, next := entry, null;
    }
  }

  ghost function EntriesOf(nodes: seq<Node>): seq<Entry> {
    seq(|nodes|, i requires 0 <= i < |nodes| => nodes[i].entry)
  }

  /** The entries called `name` from index `from` on, in order. */
  function Matches(es: seq<Entry>, name: cstring, from: nat): seq<Entry>
    decreases |es| - from
  {
    if from >= |es| then []
    else (if es[from].attr == name then [es[from]] else []) + Matches(es, name, from + 1)
  }

  lemma MatchesStep(es: seq<Entry>, name: cstring, from: nat)
    requires from < |es|
    ensures Matches(es, name, from)
         == (if es[from].attr == name then [es[from]] else []) + Matches(es, name, from + 1)
    ensures es[from].attr != name ==> Matches(es, name, from) == Matches(es, name, from + 1)
  {
  }

  lemma MatchesEnd(es: seq<Entry>, name: cstring)
    ensures Matches(es, name, |es|) == []
  {
  }

  /** Where the entries called `name` stand from index `from` on: all such places, in order. */
  lemma {:induction false} MatchesAre(es: seq<Entry>, name: cstring, from: nat) returns (at: seq<nat>)
    requires from <= |es|
    ensures |at| == |Matches(es, name, from)|
    ensures forall k :: 0 <= k < |at| ==> from <= at[k] < |es| && Matches(es, name, from)[k] == es[at[k]]
    ensures forall j, k :: 0 <= j < k < |at| ==> at[j] < at[k]
    ensures forall i: nat :: from <= i < |es| ==> (i in at <==> es[i].attr == name)
    decreases |es| - from
  {
    at := [];
    if from < |es| {
      at := MatchesAre(es, name, from + 1);
      if es[from].attr == name {
        at := [from] + at;
      } else {
        assert from !in at;
      }
    }
  }

  /** The global list cgiFormEntryFirst with the static cursor cgiFindTarget/cgiFindPos. */
  class Form {
    var first: Node?
    var findTarget: cstring
    var findPos: Node?
    ghost var nodes: seq<Node>
    ghost var findIndex: nat

    /** The chain of next pointers visits exactly `nodes`, each once, and ends. */
    ghost predicate Valid()
      reads `first, `nodes, nodes
    {
      && (forall i, j :: 0 <= i < j < |nodes| ==> nodes[i] != nodes[j])
      && first == NodeAt(0)
      && (forall i :: 0 <= i < |nodes| ==> nodes[i].next == NodeAt(i + 1))
    }

    /** The cursor points at the entry to look at next. */
    ghost predicate CursorValid()
      reads `findPos, `findIndex, `nodes
    {
      findIndex <= |nodes| && findPos == NodeAt(findIndex)
    }

    /** The i-th node, or null behind the last one. */
    ghost function NodeAt(i: nat): Node?
      reads `nodes
    {
      if i < |nodes| then nodes[i] else null
    }

    ghost function Entries(): (es: seq<Entry>)
      reads `nodes
      ensures |es| == |nodes|
    {
      EntriesOf(nodes)
    }

    constructor ()
      ensures Valid() && CursorValid() && Entries() == [] && nodes == []
    {
      first, findTarget, findPos, nodes, findIndex := null, [], null, [], 0;
    }

    /** cgiFreeResources, as far as the list goes. */
    method Clear()
      modifies `first, `nodes
      ensures Valid() && nodes == [] && Entries() == []
    {
      first, nodes := null, [];
    }

    /** Links a new entry behind the last one, which the caller keeps in l. */
    method AddLast(l: Node?, entry: Entry) returns (n: Node)
      requires Valid() && l == if nodes == [] then null else nodes[|nodes| - 1]
      modifies `first, `nodes, nodes
      ensures Valid() && fresh(n) && nodes == old(nodes) + [n]
      ensures Entries() == old(Entries()) + [entry]
    {
      n := new Node(entry);
      if l == null {
        first := n;
      } else {
        l.next := n;
      }
      nodes := nodes + [n];
    }

    lemma Distinct(i: nat, j: nat)
      requires Valid() && i < |nodes| && j < |nodes| && nodes[i] == nodes[j]
      ensures i == j
    {
    }

    method First() returns (e: Node?)
      requires Valid()
      ensures e == NodeAt(0)
    {
      e := first;
    }

    lemma NodeFacts(i: nat)
      requires Valid() && i < |nodes|
      ensures nodes[i].next == NodeAt(i + 1) && nodes[i].entry == Entries()[i]
    {
    }

    /** cgiFormEntryFindNext: the next entry with the target's name; the cursor moves behind it. */
    method FindNext() returns (e: Node?)
      requires Valid() && CursorValid()
      modifies `findPos, `findIndex
      ensures Valid() && CursorValid() && old(findIndex) <= findIndex <= |nodes|
      ensures e != null ==> findIndex > old(findIndex)
      ensures Matches(Entries(), findTarget, old(findIndex))
           == if e == null then [] else [e.entry] + Matches(Entries(), findTarget, findIndex)
    {
      hide Entries, Valid, Matches;
      ghost var es := Entries();
      while findPos != null
        invariant Valid() && CursorValid() && findIndex >= old(findIndex)
        invariant Matches(es, findTarget, findIndex) == Matches(es, findTarget, old(findIndex))
        decreases |nodes| - findIndex
      {
        var c := findPos;
        NodeFacts(findIndex);
        MatchesStep(es, findTarget, findIndex);
        findPos := c.next;
        findIndex := findIndex + 1;
        if c.entry.attr == findTarget {
          return c;
        }
      }
      MatchesEnd(es, findTarget);
      e := null;
    }

    /** The search for findTarget stands at the i-th of all matches, or behind the last one. */
    ghost predicate StandsAt(e: Node?, all: seq<Entry>, i: nat)
      reads `findTarget, `findPos, `findIndex, `first, `nodes, nodes
    {
      && Valid() && CursorValid() && all == Matches(Entries(), findTarget, 0) && i <= |all|
      && all[i..] == if e == null then [] else [e.entry] + Matches(Entries(), findTarget, findIndex)
    }

    lemma StandsFacts(e: Node?, all: seq<Entry>, i: nat)
      requires StandsAt(e, all, i)
      ensures Valid() && i <= |all| && (e == null <==> i == |all|)
      ensures e != null ==> all[i] == e.entry
    {
      if e != null {
        assert all[i] == all[i..][0];
      }
    }

    /** cgiFormEntryFindNext, as a loop over all matches calls it. */
    method FindFollowing(e: Node, ghost all: seq<Entry>, ghost i: nat) returns (f: Node?)
      requires StandsAt(e, all, i) && i < |all|
      modifies `findPos, `findIndex
      ensures StandsAt(f, all, i + 1)
    {
      hide Matches, Entries;
      DropFirst(all, i, e.entry, Matches(Entries(), findTarget, findIndex));
      f := FindNext();
    }

    /** cgiFormEntryFindFirst. */
    method FindFirst(name: cstring) returns (e: Node?)
      requires Valid()
      modifies `findTarget, `findPos, `findIndex
      ensures Valid() && CursorValid() && findTarget == name && findIndex <= |nodes|
      ensures Matches(Entries(), name, 0) == if e == null then [] else [e.entry] + Matches(Entries(), name, findIndex)
      ensures StandsAt(e, Matches(Entries(), name, 0), 0)
    {
      findTarget := name;
      findPos := first;
      findIndex := 0;
      e := FindNext();
      ghost var all := Matches(Entries(), name, 0);
      assert all[0..] == all;
    }
  }

  /** A list that is being built: what was found, and what is still to come. */
  ghost predicate Collected<T>(found: seq<T>, rest: seq<T>, all: seq<T>) {
    found + rest == all
  }

  lemma CollectOne<T>(found: seq<T>, e: T, rest: seq<T>, all: seq<T>)
    requires Collected(found, [e] + rest, all)
    ensures Collected(found + [e], rest, all)
  {
    assert found + ([e] + rest) == (found + [e]) + rest;
  }

  lemma CollectAll<T>(found: seq<T>, all: seq<T>)
    ensures Collected([], all, all)
    ensures Collected(found, [], all) ==> found == all
  {
    assert found + [] == found && [] + all == all;
  }

  lemma DropFirst<T>(all: seq<T>, i: nat, e: T, rest: seq<T>)
    requires i <= |all| && all[i..] == [e] + rest
    ensures i < |all| && all[i] == e && all[i + 1..] == rest
  {
    assert all[i] == all[i..][0];
    assert all[i + 1..] == all[i..][1..];
  }
}

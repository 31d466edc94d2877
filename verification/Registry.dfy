/** The registry of connected devices in src/server.c: a list with a dummy head. */
module Registry {
  import opened Bytes

  datatype Device = Device(id: cstring, fd: int, tid: nat)

  // ----- The registry as a sequence

  function FindId(l: seq<Device>, id: cstring): int {
    if l == [] then -1 else if l[0].id == id then l[0].fd else FindId(l[1..], id)
  }

  predicate HasFd(l: seq<Device>, fd: int) {
    exists i :: 0 <= i < |l| && l[i].fd == fd
  }

  /** Deleting removes the first device with that descriptor; a negative one removes nothing. */
  function Without(l: seq<Device>, fd: int): (r: seq<Device>)
    ensures |r| <= |l|
  {
    if fd < 0 || l == [] then l
    else if l[0].fd == fd then l[1..]
    else [l[0]] + Without(l[1..], fd)
  }

  /** Where the first device with that descriptor stands. */
  function FdAt(l: seq<Device>, fd: int): (i: nat)
    ensures i <= |l|
    ensures forall j :: 0 <= j < i ==> l[j].fd != fd
    ensures i < |l| ==> l[i].fd == fd
  {
    if l == [] || l[0].fd == fd then 0 else 1 + FdAt(l[1..], fd)
  }

  lemma {:induction false} WithoutAt(l: seq<Device>, fd: int, i: nat)
    requires fd >= 0 && i < |l| && l[i].fd == fd && forall j :: 0 <= j < i ==> l[j].fd != fd
    ensures Without(l, fd) == l[..i] + l[i + 1..]
  {
    if i > 0 {
      WithoutAt(l[1..], fd, i - 1);
      assert l[..i] + l[i + 1..] == [l[0]] + (l[1..][..i - 1] + l[1..][i..]);
    }
  }

  lemma {:induction false} WithoutAbsent(l: seq<Device>, fd: int)
    requires forall j :: 0 <= j < |l| ==> l[j].fd != fd
    ensures Without(l, fd) == l
  {
    if l != [] {
      WithoutAbsent(l[1..], fd);
      assert [l[0]] + l[1..] == l;
    }
  }

  lemma FindIdAt(l: seq<Device>, id: cstring, i: nat)
    requires i < |l| && l[i].id == id && forall j :: 0 <= j < i ==> l[j].id != id
    ensures FindId(l, id) == l[i].fd
  {
    if i > 0 {
      FindIdAt(l[1..], id, i - 1);
    }
  }

  lemma {:induction false} FindIdAbsent(l: seq<Device>, id: cstring)
    requires forall j :: 0 <= j < |l| ==> l[j].id != id
    ensures FindId(l, id) == -1
  {
    if l != [] {
      FindIdAbsent(l[1..], id);
    }
  }

  // ----- The linked list

  class Link {
    const device: Device
    var next: Link?

    constructor (device: Device)
      ensures this.device == device && next == null
    {
      this.device, next := device, null;
    }
  }

  class LinkList {
    var head: Link?
    ghost var nodes: seq<Link>
    ghost var freed: set<Link>

    ghost function NodeAt(i: nat): Link?
      reads `nodes
    {
      if i < |nodes| then nodes[i] else null
    }

    /** The chain behind the dummy head visits each node once and ends; nothing freed is in it. */
    ghost predicate Valid()
      reads this, head, nodes
    {
      if head == null then nodes == []
      else
        && head !in nodes && head !in freed && head.next == NodeAt(0)
        && (forall i, j :: 0 <= i < j < |nodes| ==> nodes[i] != nodes[j])
        && (forall i :: 0 <= i < |nodes| ==> nodes[i] !in freed && nodes[i].next == NodeAt(i + 1))
    }

    ghost function Devices(): (ds: seq<Device>)
      reads `nodes
      ensures |ds| == |nodes|
    {
      DevicesOf(nodes)
    }

    /** create_link */
    constructor ()
      ensures Valid() && head != null && fresh(head) && Devices() == [] && freed == {}
    {
      head := new Link(Device([], 0, 0));
      nodes, freed := [], {};
    }

    lemma NodeFacts(i: nat)
      requires Valid() && i < |nodes|
      ensures head != null && nodes[i].next == NodeAt(i + 1) && nodes[i].device == Devices()[i] && nodes[i] !in freed
    {
    }

    /** free(p): no node is ever freed twice. */
    ghost method Free(p: Link)
      requires p !in freed
      modifies `freed
      ensures freed == old(freed) + {p}
    {
      freed := freed + {p};
    }

    /** insert_link: a new node goes to the front. */
    method Insert(d: Device)
      requires Valid()
      modifies `nodes, head
      ensures Valid() && head == old(head) && freed == old(freed)
      ensures Devices() == if head == null then [] else [d] + old(Devices())
      ensures head != null ==> exists n :: fresh(n) && nodes == [n] + old(nodes)
    {
      if head == null {
        return;
      }
      var p := new Link(d);
      p.next := head.next;
      head.next := p;
      nodes := [p] + nodes;
    }

    /** find_link: -1 if the list is gone or nobody has that ID. */
    method FindLink(id: cstring) returns (fd: int)
      requires Valid()
      ensures fd == FindId(Devices(), id)
    {
      hide Valid, Devices;
      if head == null {
        NoDevices();
        return -1;
      }
      HeadFacts();
      ghost var i, ds := 0, Devices();
      var p := head.next;
      while p != null
        invariant i <= |nodes| && p == NodeAt(i)
        invariant forall j :: 0 <= j < i ==> ds[j].id != id
        decreases |nodes| - i
      {
        NodeFacts(i);
        if p.device.id == id {
          FindIdAt(ds, id, i);
          return p.device.fd;
        }
        p := p.next;
        i := i + 1;
      }
      FindIdAbsent(ds, id);
      fd := -1;
    }

    lemma NoDevices()
      requires Valid() && head == null
      ensures Devices() == [] && nodes == []
    {
    }

    lemma HeadFacts()
      requires Valid() && head != null
      ensures head.next == NodeAt(0)
    {
    }

    /** find_fd: 0 if the descriptor is present and -1 if it is not. */
    method FindFd(fd: int) returns (r: int)
      requires Valid() && head != null
      ensures r == if HasFd(Devices(), fd) then 0 else -1
    {
      hide Valid, Devices;
      HeadFacts();
      ghost var i, ds := 0, Devices();
      var p := head.next;
      while p != null
        invariant i <= |nodes| && p == NodeAt(i)
        invariant forall j :: 0 <= j < i ==> ds[j].fd != fd
        decreases |nodes| - i
      {
        NodeFacts(i);
        if p.device.fd == fd {
          assert ds[i].fd == fd;
          return 0;
        }
        p := p.next;
        i := i + 1;
      }
      r := -1;
    }

    /** Unlinks and frees the node at index i; q is the node in front of it. */
    method Unlink(q: Link, p: Link, ghost i: nat)
      requires Valid() && i < |nodes| && p == nodes[i] && q == if i == 0 then head else nodes[i - 1]
      modifies `nodes, `freed, q
      ensures Valid() && head == old(head) && freed == old(freed) + {p}
      ensures nodes == old(nodes)[..i] + old(nodes)[i + 1..]
      ensures Devices() == old(Devices())[..i] + old(Devices())[i + 1..]
    {
      hide DevicesOf;
      ghost var before := nodes;
      q.next := p.next;
      nodes := nodes[..i] + nodes[i + 1..];
      LeftOut(before, i);
      forall j | 0 <= j < |nodes| ensures nodes[j] !in freed && nodes[j] != p && nodes[j].next == NodeAt(j + 1) {
        assert nodes[j] == before[if j < i then j else j + 1];
      }
      Free(p);
      DevicesWithout(before, i);
    }

    /** delete_link: the first node with that descriptor goes, if there is one; the rest stay in order. */
    method Delete(fd: int)
      requires Valid()
      modifies `nodes, `freed, head, nodes
      ensures Valid() && head == old(head)
      ensures Devices() == Without(old(Devices()), fd)
      ensures freed == old(freed) + (Members(old(nodes)) - Members(nodes))
      ensures forall n :: n in nodes ==> n in old(nodes)
    {
      hide Valid, Devices;
      if head == null || fd < 0 {
        if head == null {
          NoDevices();
        }
        return;
      }
      var q, p, i := Locate(fd);
      if p != null {
        WithoutAt(Devices(), fd, i);
        ghost var before := nodes;
        Distinct();
        Unlink(q, p, i);
        OneRemoved(before, i);
      } else {
        WithoutAbsent(Devices(), fd);
      }
    }

    lemma Distinct()
      requires Valid()
      ensures forall i, j :: 0 <= i < j < |nodes| ==> nodes[i] != nodes[j]
    {
    }

    /** The loop of delete_link: the first node with that descriptor and the node in front of it. */
    method Locate(fd: int) returns (q: Link, p: Link?, ghost i: nat)
      requires Valid() && head != null
      ensures i <= |nodes| && p == NodeAt(i) && q == if i == 0 then head else nodes[i - 1]
      ensures forall j :: 0 <= j < i ==> Devices()[j].fd != fd
      ensures p != null ==> Devices()[i].fd == fd
    {
      hide Valid, Devices;
      HeadFacts();
      i := 0;
      p := head.next;
      q := head;
      while p != null
        invariant i <= |nodes| && p == NodeAt(i) && q == if i == 0 then head else nodes[i - 1]
        invariant forall j :: 0 <= j < i ==> Devices()[j].fd != fd
        decreases |nodes| - i
      {
        NodeFacts(i);
        if p.device.fd == fd {
          return;
        }
        q := p;
        p := p.next;
        i := i + 1;
      }
    }

    /** destroy_link: every node is freed exactly once, the dummy head last, and the list is gone. */
    method Destroy()
      requires Valid()
      modifies `head, `nodes, `freed
      ensures Valid() && head == null && nodes == []
      ensures freed == old(freed) + Members(old(nodes)) + (if old(head) == null then {} else {old(head)})
    {
      hide Valid, Members;
      if head == null {
        NoDevices();
        NoMembers();
        return;
      }
      HeadFacts();
      Distinct();
      ChainFacts();
      NoMembers();
      var p := head.next;
      ghost var i := 0;
      while p != null
        modifies `freed
        invariant i <= |nodes| && p == NodeAt(i)
        invariant freed == old(freed) + Members(nodes[..i])
        decreases |nodes| - i
      {
        var q := p.next;
        MemberStep(nodes, i);
        Free(p);
        p := q;
        i := i + 1;
      }
      assert nodes[..i] == nodes;
      NotAMember(head, nodes);
      Free(head);
      head, nodes := null, [];
      GoneIsValid();
    }

    lemma ChainFacts()
      requires Valid() && head != null
      ensures head !in nodes && head !in freed
      ensures forall i :: 0 <= i < |nodes| ==> nodes[i] !in freed && nodes[i].next == NodeAt(i + 1)
    {
    }

    lemma GoneIsValid()
      requires head == null && nodes == []
      ensures Valid()
    {
    }
  }

  ghost function Members(nodes: seq<Link>): set<Link> {
    set n | n in nodes
  }

  lemma NotAMember(n: Link, nodes: seq<Link>)
    requires n !in nodes
    ensures n !in Members(nodes)
  {
  }

  lemma NoMembers()
    ensures Members([]) == {}
  {
  }

  lemma MemberStep(nodes: seq<Link>, i: nat)
    requires i < |nodes| && forall j, k :: 0 <= j < k < |nodes| ==> nodes[j] != nodes[k]
    ensures Members(nodes[..i + 1]) == Members(nodes[..i]) + {nodes[i]} && nodes[i] !in Members(nodes[..i])
  {
    assert nodes[..i + 1] == nodes[..i] + [nodes[i]];
  }

  /** Taking one node out of a list of distinct nodes takes exactly that node away. */
  lemma OneRemoved(nodes: seq<Link>, i: nat)
    requires i < |nodes| && forall j, k :: 0 <= j < k < |nodes| ==> nodes[j] != nodes[k]
    ensures Members(nodes) - Members(nodes[..i] + nodes[i + 1..]) == {nodes[i]}
    ensures forall n :: n in nodes[..i] + nodes[i + 1..] ==> n in nodes
  {
    var rest := nodes[..i] + nodes[i + 1..];
    forall n | n in nodes && n != nodes[i] ensures n in rest {
      var j :| 0 <= j < |nodes| && nodes[j] == n;
      assert rest[if j < i then j else j - 1] == n;
    }
  }

  /** A list without its node at index i, node by node; the nodes are still distinct. */
  lemma LeftOut(nodes: seq<Link>, i: nat)
    requires i < |nodes| && forall j, k :: 0 <= j < k < |nodes| ==> nodes[j] != nodes[k]
    ensures var rest := nodes[..i] + nodes[i + 1..];
      && (forall j :: 0 <= j < |rest| ==> rest[j] == nodes[if j < i then j else j + 1])
      && (forall j, k :: 0 <= j < k < |rest| ==> rest[j] != rest[k])
  {
  }

  lemma DevicesWithout(nodes: seq<Link>, i: nat)
    requires i < |nodes|
    ensures DevicesOf(nodes[..i] + nodes[i + 1..]) == DevicesOf(nodes)[..i] + DevicesOf(nodes)[i + 1..]
  {
  }

  ghost function DevicesOf(nodes: seq<Link>): seq<Device> {
    seq(|nodes|, i requires 0 <= i < |nodes| => nodes[i].device)
  }
}

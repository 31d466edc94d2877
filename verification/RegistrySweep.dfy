/** show_list: the heartbeat sweep pings device after device, and starts over when one is silent. */
module RegistrySweep {
  import opened Registry

  /** What recv returns for the ping of time t to a descriptor; the pings are numbered from 0. */
  type Answers = (nat, int) -> int

  /** Where a sweep stands: the registry and the place of the next device to ping. */
  datatype Sweep = Sweep(devices: seq<Device>, next: nat)

  function Ping(answer: int, s: Sweep): (r: Sweep)
    requires s.next < |s.devices|
  {
    if answer <= 0 then Sweep(Without(s.devices, s.devices[s.next].fd), 0)
    else Sweep(s.devices, s.next + 1)
  }

  /** The sweep after t pings; once the last device has answered it stands still. */
  function After(recv: Answers, l: seq<Device>, t: nat): (r: Sweep)
    ensures r.next <= |r.devices|
  {
    if t == 0 then Sweep(l, 0)
    else
      var s := After(recv, l, t - 1);
      if s.next == |s.devices| then s else Ping(recv(t - 1, s.devices[s.next].fd), s)
  }

  predicate Done(s: Sweep) {
    s.next == |s.devices|
  }

  predicate Descriptors(l: seq<Device>) {
    forall k :: 0 <= k < |l| ==> l[k].fd >= 0
  }

  /** n + (n - 1) + ... + 1 */
  function Rounds(n: nat): (r: nat)
    ensures r >= n
  {
    if n == 0 then 0 else n + Rounds(n - 1)
  }

  // ----- What one ping does

  lemma {:induction false} WithoutOne(l: seq<Device>, i: nat)
    requires Descriptors(l) && i < |l|
    ensures |Without(l, l[i].fd)| == |l| - 1 && Descriptors(Without(l, l[i].fd))
  {
    if l[0].fd != l[i].fd {
      WithoutOne(l[1..], i - 1);
    }
  }

  // ----- The sweep ends

  /** The sweep was still under way before its latest ping. */
  predicate UnderWay(recv: Answers, l: seq<Device>, t: nat) {
    t == 0 || !Done(After(recv, l, t - 1))
  }

  lemma UnderWayBefore(recv: Answers, l: seq<Device>, t: nat)
    requires t > 0 && UnderWay(recv, l, t)
    ensures UnderWay(recv, l, t - 1)
  {
  }

  /** Each ping uses up one of the pings that are left. */
  lemma {:induction false} PingsLeft(recv: Answers, l: seq<Device>, t: nat)
    requires Descriptors(l) && UnderWay(recv, l, t)
    ensures var s := After(recv, l, t);
      Descriptors(s.devices) && t + Rounds(|s.devices|) - s.next <= Rounds(|l|)
    decreases t
  {
    if t > 0 {
      var s := After(recv, l, t - 1);
      UnderWayBefore(recv, l, t);
      PingsLeft(recv, l, t - 1);
      WithoutOne(s.devices, s.next);
    }
  }

  lemma {:induction false} StaysDone(recv: Answers, l: seq<Device>, t: nat, u: nat)
    requires t <= u && Done(After(recv, l, t))
    ensures After(recv, l, u) == After(recv, l, t)
    decreases u
  {
    if t < u {
      StaysDone(recv, l, t, u - 1);
    }
  }

  /** Whatever the devices answer, a sweep over n devices is done after n + (n - 1) + ... + 1 pings. */
  lemma {:induction false} SweepEnds(recv: Answers, l: seq<Device>)
    requires Descriptors(l)
    ensures Done(After(recv, l, Rounds(|l|)))
  {
    var n := Rounds(|l|);
    hide After, Rounds, Without, Descriptors, Ping;
    if UnderWay(recv, l, n) {
      PingsLeft(recv, l, n);
      MorePings(After(recv, l, n));
    } else {
      StaysDone(recv, l, n - 1, n);
    }
  }

  lemma MorePings(s: Sweep)
    requires s.next <= |s.devices| && Rounds(|s.devices|) <= s.next
    ensures Done(s)
  {
  }

  // ----- Who is left

  /** The devices in front of the next one answered the latest pings, one after the other. */
  ghost predicate Answered(recv: Answers, s: Sweep, t: nat) {
    && s.next <= t && s.next <= |s.devices|
    && forall k :: 0 <= k < s.next ==> recv(t - s.next + k, s.devices[k].fd) > 0
  }

  lemma {:induction false} LatestAnswers(recv: Answers, l: seq<Device>, t: nat)
    requires UnderWay(recv, l, t)
    ensures Answered(recv, After(recv, l, t), t)
    decreases t
  {
    hide Answered, Without;
    if t == 0 {
      NobodyAsked(recv, l);
    } else {
      UnderWayBefore(recv, l, t);
      LatestAnswers(recv, l, t - 1);
      AnsweredStep(recv, After(recv, l, t - 1), t - 1);
    }
  }

  lemma NobodyAsked(recv: Answers, l: seq<Device>)
    ensures Answered(recv, Sweep(l, 0), 0)
  {
  }

  lemma AnsweredStep(recv: Answers, s: Sweep, t: nat)
    requires Answered(recv, s, t) && s.next < |s.devices|
    ensures Answered(recv, Ping(recv(t, s.devices[s.next].fd), s), t + 1)
  {
  }

  /** Once a sweep is done, each device still registered has answered in the last pings, from the
      first to the last without a silence in between. */
  lemma SurvivorsAnswered(recv: Answers, l: seq<Device>, t: nat)
    requires UnderWay(recv, l, t) && Done(After(recv, l, t))
    ensures var left := After(recv, l, t).devices;
      |left| <= t && forall k :: 0 <= k < |left| ==> recv(t - |left| + k, left[k].fd) > 0
  {
    LatestAnswers(recv, l, t);
  }

  /** How many of the first t pings found a silent device. */
  function Silences(recv: Answers, l: seq<Device>, t: nat): nat {
    if t == 0 then 0
    else
      var s := After(recv, l, t - 1);
      Silences(recv, l, t - 1) +
      if !Done(s) && recv(t - 1, s.devices[s.next].fd) <= 0 then 1 else 0
  }

  /** A device leaves the registry for each silence, and for nothing else. */
  lemma {:induction false} OneGonePerSilence(recv: Answers, l: seq<Device>, t: nat)
    requires Descriptors(l)
    ensures var s := After(recv, l, t);
      Descriptors(s.devices) && |s.devices| + Silences(recv, l, t) == |l|
  {
    if t > 0 {
      OneGonePerSilence(recv, l, t - 1);
      var s := After(recv, l, t - 1);
      if !Done(s) {
        WithoutOne(s.devices, s.next);
      }
    }
  }

  predicate DistinctFds(l: seq<Device>) {
    forall i, j :: 0 <= i < j < |l| ==> l[i].fd != l[j].fd
  }

  /** The ping of time t went to the device and got no answer. */
  ghost predicate SilentAt(recv: Answers, l: seq<Device>, t: nat, d: Device) {
    var s := After(recv, l, t);
    s.next < |s.devices| && s.devices[s.next] == d && recv(t, d.fd) <= 0
  }

  /** The devices that left one of the first t pings unanswered. */
  ghost function Silent(recv: Answers, l: seq<Device>, t: nat): (r: iset<Device>) {
    iset d | SilentBefore(recv, l, t, d)
  }

  ghost predicate SilentBefore(recv: Answers, l: seq<Device>, t: nat, d: Device) {
    exists u: nat :: u < t && SilentAt(recv, l, u, d)
  }

  /** The devices of l that are not among those gone, in their order. */
  ghost function Keep(l: seq<Device>, gone: iset<Device>): (r: seq<Device>) {
    if l == [] then [] else if l[0] in gone then Keep(l[1..], gone) else [l[0]] + Keep(l[1..], gone)
  }

  lemma {:induction false} KeepAll(l: seq<Device>, gone: iset<Device>)
    requires forall k :: 0 <= k < |l| ==> l[k] !in gone
    ensures Keep(l, gone) == l
  {
    if l != [] {
      KeepAll(l[1..], gone);
      assert [l[0]] + l[1..] == l;
    }
  }

  lemma {:induction false} KeptIsMember(l: seq<Device>, gone: iset<Device>, d: Device)
    requires d in Keep(l, gone)
    ensures d in l && d !in gone
  {
    if l[0] in gone || d in Keep(l[1..], gone) {
      KeptIsMember(l[1..], gone, d);
    }
  }

  lemma {:induction false} KeepOneLess(l: seq<Device>, gone: iset<Device>, d: Device)
    requires Descriptors(l) && DistinctFds(l) && d in Keep(l, gone)
    ensures Without(Keep(l, gone), d.fd) == Keep(l, gone + iset{d})
  {
    KeptIsMember(l, gone, d);
    if l[0] in gone {
      KeepOneLess(l[1..], gone, d);
    } else if l[0] == d {
      KeepSame(l[1..], gone, d);
    } else {
      assert d in l[1..];
      KeepOneLess(l[1..], gone, d);
    }
  }

  lemma {:induction false} KeepSame(l: seq<Device>, gone: iset<Device>, d: Device)
    requires d !in l
    ensures Keep(l, gone + iset{d}) == Keep(l, gone)
  {
    if l != [] {
      KeepSame(l[1..], gone, d);
    }
  }

  lemma SilentStep(recv: Answers, l: seq<Device>, t: nat, d: Device)
    requires SilentAt(recv, l, t, d)
    ensures Silent(recv, l, t + 1) == Silent(recv, l, t) + iset{d}
  {
    hide After;
    assert SilentBefore(recv, l, t + 1, d);
    forall e ensures SilentBefore(recv, l, t + 1, e) <==> SilentBefore(recv, l, t, e) || e == d {
      if SilentBefore(recv, l, t + 1, e) && e != d {
        var u: nat :| u < t + 1 && SilentAt(recv, l, u, e);
        assert u < t;
      }
      if SilentBefore(recv, l, t, e) {
        var u: nat :| u < t && SilentAt(recv, l, u, e);
        assert u < t + 1;
      }
    }
  }

  lemma NobodySilent(recv: Answers, l: seq<Device>, t: nat)
    requires forall d :: !SilentAt(recv, l, t, d)
    ensures Silent(recv, l, t + 1) == Silent(recv, l, t)
  {
    hide SilentAt;
    forall e ensures SilentBefore(recv, l, t + 1, e) <==> SilentBefore(recv, l, t, e) {
      if SilentBefore(recv, l, t + 1, e) {
        var u: nat :| u < t + 1 && SilentAt(recv, l, u, e);
        assert u < t;
      }
      if SilentBefore(recv, l, t, e) {
        var u: nat :| u < t && SilentAt(recv, l, u, e);
        assert u < t + 1;
      }
    }
  }

  /** Where no two devices share a descriptor, those that left a ping unanswered are gone, the
      others are all there, and in the order they had. */
  lemma {:induction false} SilentAreGone(recv: Answers, l: seq<Device>, t: nat)
    requires Descriptors(l) && DistinctFds(l)
    ensures After(recv, l, t).devices == Keep(l, Silent(recv, l, t))
  {
    hide Keep, Silent, Without;
    if t == 0 {
      NoneYet(recv, l);
    } else {
      SilentAreGone(recv, l, t - 1);
      var s := After(recv, l, t - 1);
      if !Done(s) && recv(t - 1, s.devices[s.next].fd) <= 0 {
        assert SilentAt(recv, l, t - 1, s.devices[s.next]);
        SilentStep(recv, l, t - 1, s.devices[s.next]);
        KeepOneLess(l, Silent(recv, l, t - 1), s.devices[s.next]);
      } else {
        NobodySilent(recv, l, t - 1);
      }
    }
  }

  lemma NoneYet(recv: Answers, l: seq<Device>)
    ensures Keep(l, Silent(recv, l, 0)) == l
  {
    KeepAll(l, Silent(recv, l, 0));
  }

  // ----- The loop over the linked list

  /** show_list with nobody else at the registry: it returns after t pings. */
  method ShowList(list: LinkList, recv: Answers) returns (r: int, t: nat)
    requires list.Valid() && list.head != null && Descriptors(list.Devices())
    modifies list`nodes, list`freed, list.head, set n | n in list.nodes
    ensures r == 0 && list.Valid() && list.head == old(list.head)
    ensures After(recv, old(list.Devices()), t) == Sweep(list.Devices(), |list.Devices()|)
    ensures UnderWay(recv, old(list.Devices()), t) && t <= Rounds(|old(list.Devices())|)
    ensures list.freed == old(list.freed) + (Members(old(list.nodes)) - Members(list.nodes))
  {
    hide LinkList.Valid, LinkList.Devices, Members, Descriptors, Without, Rounds;
    ghost var l, i := list.Devices(), 0;
    t := 0;
    list.HeadFacts();
    var p := list.head.next;
    while p != null
      invariant list.Valid() && list.head == old(list.head)
      invariant i <= |list.nodes| && p == list.NodeAt(i)
      invariant After(recv, l, t) == Sweep(list.Devices(), i)
      invariant UnderWay(recv, l, t)
      invariant list.freed == old(list.freed) + (Members(old(list.nodes)) - Members(list.nodes))
      invariant forall n :: n in list.nodes ==> n in old(list.nodes)
      decreases Rounds(|l|) - t
    {
      list.NodeFacts(i);
      var answer := recv(t, p.device.fd);
      t := t + 1;
      if answer <= 0 {
        ghost var before := list.nodes;
        list.Delete(p.device.fd);
        LessFreed(old(list.nodes), before, list.nodes);
        list.HeadFacts();
        p, i := list.head.next, 0;
      } else {
        p, i := p.next, i + 1;
      }
      PingsLeft(recv, l, t);
    }
    PingsLeft(recv, l, t);
    r := 0;
  }

  lemma LessFreed(a: seq<Link>, b: seq<Link>, c: seq<Link>)
    requires (forall n :: n in b ==> n in a) && (forall n :: n in c ==> n in b)
    ensures (Members(a) - Members(b)) + (Members(b) - Members(c)) == Members(a) - Members(c)
  {
  }
}

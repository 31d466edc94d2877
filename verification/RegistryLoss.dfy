/** When the threads of src/server.c lose their semaphore: with a reused descriptor, and only then. */
module RegistryLoss {
  import opened Bytes
  import opened Registry
  import opened RegistryRuns
  import opened RegistryLock

  // ----- While no two connections have the same descriptor

  predicate DistinctDescriptors(threads: seq<Thread>) {
    forall i, j :: 0 <= i < |threads| && 0 <= j < |threads| && i != j && !threads[i].sweeper && !threads[j].sweeper
      ==> threads[i].device.fd != threads[j].device.fd
  }

  /** The device was inserted and its own thread has not deleted it yet. */
  predicate Inserted(pc: Pc) {
    match pc
    case Idle | Checking | Present | Asked | Leaving => true
    case Granted(op) => op.Delete?
    case Updating(op, _) => op.Delete?
    case Updated(op) => op.Insert?
    case _ => false
  }

  /** A device is in the list from its insert to its delete, unless its thread is being cancelled; and
      even then while the thread holds the semaphore to look for it. No thread ever misses it. */
  predicate InPlace(t: Thread, list: seq<Device>) {
    && (!t.sweeper && Inserted(t.pc) && (t.cancel ==> t.pc.Checking?) ==> HasFd(list, t.device.fd))
    && !t.pc.Doomed?
    && (t.pc.Cancelled? ==> t.held == 0)
    && (!t.sweeper && (t.pc.Granted? || t.pc.Updating?) ==>
          t.pc.op == Insert(t.device) || t.pc.op == Delete(t.device.fd))
  }

  /** The descriptor that the sweep is about to delete. */
  predicate Deletes(t: Thread, fd: int) {
    t.sweeper && (t.pc == Evicting(fd) || t.pc == Granted(Delete(fd)) || (t.pc.Updating? && t.pc.op == Delete(fd)))
  }

  ghost predicate Called(threads: seq<Thread>, fd: int) {
    exists j :: 0 <= j < |threads| && CalledThread(threads[j], fd)
  }

  predicate CalledThread(t: Thread, fd: int) {
    !t.sweeper && t.device.fd == fd && t.cancel
  }

  /** The sweep deletes only devices whose threads it has called to be cancelled. */
  ghost predicate SweepOk(t: Thread, threads: seq<Thread>) {
    && (forall fd :: Deletes(t, fd) ==> Called(threads, fd))
    && (t.sweeper && (t.pc.Granted? || t.pc.Updating?) ==> t.pc.op.Delete?)
  }

  ghost predicate AllInPlace(s: State) {
    && (forall i :: 0 <= i < |s.threads| ==> InPlace(s.threads[i], s.list))
    && (forall i :: 0 <= i < |s.threads| ==> SweepOk(s.threads[i], s.threads))
  }

  lemma InPlaceIsNotLost(s: State)
    requires Inv(s) && AllInPlace(s)
    ensures !Lost(s)
  {
    forall i | 0 <= i < |s.threads| ensures !NeverPosts(s.threads[i], s.list) {
      assert InPlace(s.threads[i], s.list) && ThreadOk(s.threads[i], s.list);
    }
  }

  lemma {:induction false} OtherFdStays(l: seq<Device>, fd: int, other: int)
    requires HasFd(l, other) && fd != other
    ensures HasFd(Without(l, fd), other)
  {
    var k :| 0 <= k < |l| && l[k].fd == other;
    if fd >= 0 {
      if l[0].fd == fd {
        assert l[1..][k - 1].fd == other;
      } else if k == 0 {
        assert Without(l, fd)[0].fd == other;
      } else {
        assert l[1..][k - 1].fd == other;
        OtherFdStays(l[1..], fd, other);
        var j :| 0 <= j < |Without(l[1..], fd)| && Without(l[1..], fd)[j].fd == other;
        assert Without(l, fd)[j + 1].fd == other;
      }
    }
  }

  lemma InsertHas(l: seq<Device>, d: Device, fd: int)
    requires d.fd == fd || HasFd(l, fd)
    ensures HasFd([d] + l, fd)
  {
    if d.fd == fd {
      assert ([d] + l)[0].fd == fd;
    } else {
      var k :| 0 <= k < |l| && l[k].fd == fd;
      assert ([d] + l)[k + 1].fd == fd;
    }
  }

  /** The thread that takes the step. */
  lemma {:induction false} OwnStep(s: State, i: nat, answer: int)
    requires Inv(s) && AllInPlace(s) && Enabled(s, Action.Go(i, answer))
    ensures InPlace(TakeStep(s, i, answer).threads[i], TakeStep(s, i, answer).list)
  {
    hide Run, Held, SweepOk, HasFd, Without;
    var t := s.threads[i];
    assert ThreadOk(t, s.list) && InPlace(t, s.list);
    if t.pc.Updating? && t.pc.op == Insert(t.device) {
      InsertHas(s.list, t.device, t.device.fd);
    }
  }

  /** The threads that do not take it. */
  lemma {:induction false} OtherStep(s: State, i: nat, answer: int, j: nat)
    requires Inv(s) && AllInPlace(s) && Enabled(s, Action.Go(i, answer)) && DistinctDescriptors(s.threads)
    requires j < |s.threads| && j != i
    ensures InPlace(s.threads[j], TakeStep(s, i, answer).list)
  {
    hide Run, Held, Without;
    var t, u := s.threads[i], s.threads[j];
    assert ThreadOk(t, s.list) && InPlace(t, s.list) && SweepOk(t, s.threads);
    assert ThreadOk(u, s.list) && InPlace(u, s.list);
    if t.pc.Updating? && !u.sweeper && HasFd(s.list, u.device.fd) {
      OnlyOneHolds(s, i, j);
      if t.pc.op.Insert? {
        InsertHas(s.list, t.pc.op.d, u.device.fd);
      } else if t.pc.op.fd != u.device.fd {
        OtherFdStays(s.list, t.pc.op.fd, u.device.fd);
      } else {
        WhoDeletes(s, i, j);
      }
    }
  }

  /** Only the sweep deletes the descriptor of another thread, and it has called for its end. */
  lemma {:induction false} WhoDeletes(s: State, i: nat, j: nat)
    requires AllInPlace(s) && DistinctDescriptors(s.threads)
    requires i < |s.threads| && j < |s.threads| && i != j && !s.threads[j].sweeper
    requires s.threads[i].pc.Updating? && s.threads[i].pc.op == Delete(s.threads[j].device.fd)
    ensures s.threads[i].sweeper && s.threads[j].cancel
  {
    hide Held, Without, HasFd;
    var t, u := s.threads[i], s.threads[j];
    assert InPlace(t, s.list) && SweepOk(t, s.threads);
    if t.sweeper {
      assert Deletes(t, u.device.fd);
      var w :| 0 <= w < |s.threads| && CalledThread(s.threads[w], u.device.fd);
      assert w == j;
    }
  }

  /** What the sweep was allowed to delete it still is. */
  lemma CalledStays(before: seq<Thread>, after: seq<Thread>, fd: int)
    requires Called(before, fd) && |before| <= |after|
    requires forall j :: 0 <= j < |before| ==> (CalledThread(before[j], fd) ==> CalledThread(after[j], fd))
    ensures Called(after, fd)
  {
    var j :| 0 <= j < |before| && CalledThread(before[j], fd);
    assert CalledThread(after[j], fd);
  }

  lemma {:induction false} GoSweep(s: State, i: nat, answer: int, j: nat)
    requires Inv(s) && AllInPlace(s) && Enabled(s, Action.Go(i, answer)) && j < |s.threads|
    ensures SweepOk(TakeStep(s, i, answer).threads[j], TakeStep(s, i, answer).threads)
  {
    var t := TakeStep(s, i, answer);
    GoThread(s, i, answer);
    hide Run, Held, Without, HasFd, Inv, Called, InPlace;
    assert SweepOk(s.threads[j], s.threads);
    forall fd | Deletes(t.threads[j], fd) ensures Called(t.threads, fd) {
      assert Deletes(s.threads[j], fd);
      CalledStays(s.threads, t.threads, fd);
    }
  }

  lemma {:induction false} GoInPlace(s: State, i: nat, answer: int)
    requires Inv(s) && AllInPlace(s) && Enabled(s, Action.Go(i, answer)) && DistinctDescriptors(s.threads)
    ensures AllInPlace(TakeStep(s, i, answer))
  {
    var t := TakeStep(s, i, answer);
    GoThread(s, i, answer);
    hide TakeStep, Run, Held, InPlace, SweepOk, Inv, Enabled;
    forall j | 0 <= j < |t.threads|
      ensures InPlace(t.threads[j], t.list)
      ensures SweepOk(t.threads[j], t.threads)
    {
      if j == i {
        OwnStep(s, i, answer);
      } else {
        OtherStep(s, i, answer, j);
      }
      GoSweep(s, i, answer, j);
    }
  }

  lemma {:induction false} SilentInPlace(s: State, i: nat, d: Device)
    requires Inv(s) && AllInPlace(s) && Enabled(s, Action.Silent(i, d))
    ensures AllInPlace(Do(s, Action.Silent(i, d)))
  {
    hide Run, Held, HasFd, Called;
    var t := Do(s, Action.Silent(i, d));
    assert ThreadOk(s.threads[i], s.list) && ThreadOk(s.threads[d.tid], s.list);
    assert CalledThread(t.threads[d.tid], d.fd);
    assert Called(t.threads, d.fd) by { NowCalled(t.threads, d.tid, d.fd); }
    forall j | 0 <= j < |t.threads|
      ensures InPlace(t.threads[j], t.list)
      ensures SweepOk(t.threads[j], t.threads)
    {
      assert InPlace(s.threads[j], s.list) && SweepOk(s.threads[j], s.threads);
      forall fd | Deletes(t.threads[j], fd) ensures Called(t.threads, fd) {
        if j != i {
          assert Deletes(s.threads[j], fd);
          CalledStays(s.threads, t.threads, fd);
        }
      }
    }
  }

  lemma NowCalled(threads: seq<Thread>, j: nat, fd: int)
    requires j < |threads| && CalledThread(threads[j], fd)
    ensures Called(threads, fd)
  {
  }

  lemma {:induction false} DoInPlace(s: State, a: Action)
    requires Inv(s) && AllInPlace(s) && Enabled(s, a) && DistinctDescriptors(s.threads)
    ensures AllInPlace(Do(s, a))
  {
    hide Run, Held, HasFd, Called;
    match a
    case Go(i, answer) =>
      GoInPlace(s, i, answer);
    case Silent(i, d) =>
      SilentInPlace(s, i, d);
    case Accept(_, _) =>
      forall j | 0 <= j < |s.threads| ensures SweepOk(s.threads[j], Do(s, a).threads) {
        forall fd | Deletes(s.threads[j], fd) ensures Called(Do(s, a).threads, fd) {
          assert SweepOk(s.threads[j], s.threads);
          CalledStays(s.threads, Do(s, a).threads, fd);
        }
      }
    case Cancel(i) =>
      assert ThreadOk(s.threads[i], s.list) && InPlace(s.threads[i], s.list);
      forall j | 0 <= j < |s.threads| ensures SweepOk(Do(s, a).threads[j], Do(s, a).threads) {
        assert SweepOk(s.threads[j], s.threads);
        forall fd | Deletes(Do(s, a).threads[j], fd) ensures Called(Do(s, a).threads, fd) {
          assert Deletes(s.threads[j], fd);
          CalledStays(s.threads, Do(s, a).threads, fd);
        }
      }
  }

  /** Threads stay what they are, and new ones come behind them. */
  predicate SameDevices(before: seq<Thread>, after: seq<Thread>) {
    && |before| <= |after|
    && forall j :: 0 <= j < |before| ==> before[j].device == after[j].device && before[j].sweeper == after[j].sweeper
  }

  lemma {:induction false} ExecSameDevices(s: State, run: seq<Action>)
    requires Allowed(s, run)
    ensures SameDevices(s.threads, Exec(s, run).threads)
    decreases |run|
  {
    if run != [] {
      ExecSameDevices(Do(s, run[0]), run[1..]);
      DoSameDevices(s, run[0]);
    }
  }

  lemma DoSameDevices(s: State, a: Action)
    requires Enabled(s, a)
    ensures SameDevices(s.threads, Do(s, a).threads)
  {
  }

  lemma {:induction false} ExecInPlace(s: State, run: seq<Action>)
    requires Inv(s) && AllInPlace(s) && Allowed(s, run) && DistinctDescriptors(Exec(s, run).threads)
    ensures Inv(Exec(s, run)) && AllInPlace(Exec(s, run))
    decreases |run|
  {
    hide Inv, AllInPlace, Enabled, Do;
    if run != [] {
      ExecSameDevices(s, run);
      DoKeepsInv(s, run[0]);
      DoInPlace(s, run[0]);
      ExecInPlace(Do(s, run[0]), run[1..]);
    }
  }

  /** As long as no two connections have the same descriptor, the semaphore is not lost in any run: a
      thread whose device was swept away is cancelled before it looks for it. */
  lemma {:induction false} DistinctDescriptorsKeepSemaphore(run: seq<Action>)
    requires Allowed(START, run) && DistinctDescriptors(Exec(START, run).threads)
    ensures !Lost(Exec(START, run))
  {
    StartInv();
    ExecInPlace(START, run);
    InPlaceIsNotLost(Exec(START, run));
  }

  // ----- With a reused descriptor

  lemma {:induction false} Then(s: State, a: seq<Action>, b: seq<Action>)
    requires Allowed(s, a) && Allowed(Exec(s, a), b)
    ensures Allowed(s, a + b) && Exec(s, a + b) == Exec(Exec(s, a), b)
    decreases |a|
  {
    hide Enabled, Do;
    if a == [] {
      assert a + b == b;
    } else {
      assert (a + b)[1..] == a[1..] + b;
      Then(Do(s, a[0]), a[1..], b);
    }
  }

  lemma OneStep(s: State, a: Action)
    requires Enabled(s, a)
    ensures Allowed(s, [a]) && Exec(s, [a]) == Do(s, a)
  {
    assert [a][1..] == [];
    assert Allowed(Do(s, a), []) && Exec(Do(s, a), []) == Do(s, a);
  }

  /** One more step of a run. */
  lemma Extend(s: State, run: seq<Action>, a: Action)
    requires Allowed(s, run) && Enabled(Exec(s, run), a)
    ensures Allowed(s, run + [a]) && Exec(s, run + [a]) == Do(Exec(s, run), a)
  {
    OneStep(Exec(s, run), a);
    Then(s, run, [a]);
  }

  /** The insert or delete a thread is going to wait for, and where it stands afterwards. */
  function NextOp(t: Thread): Op
    requires t.pc.Entering? || t.pc.Leaving? || t.pc.Evicting?
  {
    match t.pc
    case Entering => Insert(t.device)
    case Leaving => Delete(t.device.fd)
    case Evicting(fd) => Delete(fd)
  }

  function Behind(t: Thread): Pc {
    if t.sweeper then Sweeping else if t.pc.Entering? then Idle else Exited
  }

  /** Nobody interrupts an insert or delete from its wait to its post. */
  lemma {:induction false} WholeUpdate(s: State, i: nat, run: seq<Action>) returns (longer: seq<Action>)
    requires Allowed(START, run) && Exec(START, run) == s
    requires i < |s.threads| && s.sem == 1 && s.threads[i].held == 0 && !s.threads[i].cancel
    requires var pc := s.threads[i].pc; pc.Entering? || pc.Leaving? || pc.Evicting?
    ensures Allowed(START, longer) && |longer| == |run| + 4
    ensures var t := s.threads[i];
      Exec(START, longer)
      == State(1, Apply(s.list, NextOp(t)), s.history + [NextOp(t)], s.threads[i := t.(pc := Behind(t))])
  {
    hide Apply, Allowed, Exec;
    var a := Action.Go(i, 0);
    Extend(START, run, a);
    Extend(START, run + [a], a);
    Extend(START, run + [a] + [a], a);
    Extend(START, run + [a] + [a] + [a], a);
    longer := run + [a] + [a] + [a] + [a];
  }

  /** A message finds the device in the list, and recv says that the device has gone. */
  lemma {:induction false} LastMessage(s: State, i: nat, run: seq<Action>) returns (longer: seq<Action>)
    requires Allowed(START, run) && Exec(START, run) == s
    requires i < |s.threads| && s.sem == 1 && s.threads[i].held == 0 && !s.threads[i].cancel
    requires s.threads[i].pc.Idle? && HasFd(s.list, s.threads[i].device.fd)
    ensures Allowed(START, longer) && |longer| == |run| + 4
    ensures Exec(START, longer) == s.(threads := s.threads[i := s.threads[i].(pc := Leaving)])
  {
    hide Allowed, Exec, HasFd;
    var a := Action.Go(i, 0);
    Extend(START, run, a);
    Extend(START, run + [a], a);
    Extend(START, run + [a] + [a], a);
    Extend(START, run + [a] + [a] + [a], a);
    longer := run + [a] + [a] + [a] + [a];
  }

  /** From the start: the first device goes and its thread closes the descriptor; the newcomer logs in
      with the same descriptor; the delete of the first takes the newcomer's node. */
  lemma {:induction false} NewcomerEvicted(id1: cstring, id2: cstring, fd: int) returns (run: seq<Action>)
    requires fd >= 0
    ensures var d1, d2 := Device(id1, fd, 1), Device(id2, fd, 2);
      && Allowed(START, run) && |run| == 18
      && Exec(START, run) == State(1, [d1], [Insert(d1), Insert(d2), Delete(fd)],
           [Thread(true, NO_DEVICE, Sweeping, 0, false), Thread(false, d1, Exited, 0, false),
            Thread(false, d2, Idle, 0, false)])
  {
    hide Allowed, Exec;
    var d1, d2 := Device(id1, fd, 1), Device(id2, fd, 2);
    assert Allowed(START, []) && Exec(START, []) == START by { NoSteps(); }
    Extend(START, [], Accept(id1, fd));
    run := [] + [Accept(id1, fd)];
    run := WholeUpdate(Exec(START, run), 1, run);
    assert Exec(START, run).list == [d1];
    assert [d1][0].fd == fd;
    run := LastMessage(Exec(START, run), 1, run);
    Extend(START, run, Accept(id2, fd));
    run := run + [Accept(id2, fd)];
    run := WholeUpdate(Exec(START, run), 2, run);
    assert Exec(START, run).list == [d2, d1];
    run := WholeUpdate(Exec(START, run), 1, run);
    assert Exec(START, run).list == Without([d2, d1], fd) == [d1];
  }

  lemma NoSteps()
    ensures Allowed(START, []) && Exec(START, []) == START
  {
  }

  /** Two connections that have the same descriptor, one after the other, are enough: the sweep finds the
      node of the first silent, calls its thread, which is gone already, and deletes the node. The next
      message makes the thread of the second wait, find nothing, and wait again. Nobody has called for
      the cancellation of that thread. */
  lemma {:induction false} ReusedDescriptorLosesSemaphore(id1: cstring, id2: cstring, fd: int)
      returns (run: seq<Action>)
    requires fd >= 0
    ensures Allowed(START, run) && |run| == 24 && Lost(Exec(START, run))
    ensures var threads := Exec(START, run).threads;
      && |threads| == 3 && threads[1].device == Device(id1, fd, 1) && threads[2].device == Device(id2, fd, 2)
      && threads[2].held == 1 && !threads[2].cancel
  {
    hide Allowed, Exec;
    var d1 := Device(id1, fd, 1);
    run := NewcomerEvicted(id1, id2, fd);
    Extend(START, run, Silent(0, d1));
    run := run + [Silent(0, d1)];
    run := WholeUpdate(Exec(START, run), 0, run);
    assert Exec(START, run).list == Without([d1], fd) == [];
    Extend(START, run, Action.Go(2, 0));
    run := run + [Action.Go(2, 0)];
    assert NeverPosts(Exec(START, run).threads[2], []);
  }
}

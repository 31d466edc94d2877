/** The threads of src/server.c at the registry, one step at a time, under the semaphore linksem. */
module RegistryLock {
  import opened Bytes
  import opened Registry
  import opened RegistryRuns

  /** Where a thread stands. An insert or delete takes two steps, so that others may come in
      between: it reads the list, and then it writes the list it works out from what it read. */
  datatype Pc =
    // handl_thread after the login, and what its next step is
    | Entering                                // wait, to insert the device
    | Idle                                    // has a message for its device: wait
    | Checking                                // find_fd
    | Present                                 // post
    | Asked                                   // recv
    | Leaving                                 // wait, to delete the device
    | Doomed                                  // find_fd missed: the second wait
    // both kinds of threads
    | Granted(op: Op)                         // read
    | Updating(op: Op, seen: seq<Device>)     // write
    | Updated(op: Op)                         // post
    // show_list
    | Sweeping                                // ping
    | Evicting(fd: int)                       // wait, to delete a silent device
    // the end
    | Exited
    | Cancelled

  /** A thread, the device it serves, how many waits it has not posted, and whether pthread_cancel
      was called for it. */
  datatype Thread = Thread(sweeper: bool, device: Device, pc: Pc, held: nat, cancel: bool)

  datatype State = State(sem: nat, list: seq<Device>, history: seq<Op>, threads: seq<Thread>)

  const NO_DEVICE := Device([], 0, 0)

  /** The semaphore starts at 1, and there is the thread that sweeps. */
  const START := State(1, [], [], [Thread(true, NO_DEVICE, Sweeping, 0, false)])

  /** Accept: a connection gets its thread. Go: a thread takes its next step; answer is what its
      recv returns. Silent: a device does not answer the sweep, which calls pthread_cancel for its
      thread and goes on to delete it. Cancel: a cancellation that was called for takes effect. */
  datatype Action = Accept(id: cstring, fd: int) | Go(i: nat, answer: int) | Silent(i: nat, d: Device) | Cancel(i: nat)

  predicate Waits(pc: Pc) {
    pc.Entering? || pc.Idle? || pc.Leaving? || pc.Doomed? || pc.Evicting?
  }

  /** The steps that call a function at which a cancellation may take effect. */
  predicate CancellationPoint(pc: Pc) {
    Waits(pc) || pc.Asked?
  }

  /** A thread for which pthread_cancel was called gets no further than a cancellation point. The sweep
      works on devices that threads inserted. */
  predicate Enabled(s: State, a: Action) {
    match a
    case Accept(_, _) => true
    case Go(i, _) =>
      && i < |s.threads|
      && var t := s.threads[i];
         && !t.pc.Exited? && !t.pc.Cancelled? && !t.pc.Sweeping?
         && (Waits(t.pc) ==> s.sem > 0)
         && (t.cancel ==> !CancellationPoint(t.pc))
    case Silent(i, d) =>
      && i < |s.threads| && s.threads[i].pc.Sweeping?
      && d.tid < |s.threads| && !s.threads[d.tid].sweeper && s.threads[d.tid].device == d
    case Cancel(i) => i < |s.threads| && s.threads[i].cancel && CancellationPoint(s.threads[i].pc)
  }

  function At(s: State, i: nat, pc: Pc): State
    requires i < |s.threads|
  {
    s.(threads := s.threads[i := s.threads[i].(pc := pc)])
  }

  /** sem_wait */
  function Wait(s: State, i: nat, pc: Pc): State
    requires i < |s.threads| && s.sem > 0
  {
    s.(sem := s.sem - 1, threads := s.threads[i := s.threads[i].(pc := pc, held := s.threads[i].held + 1)])
  }

  /** sem_post */
  function Post(s: State, i: nat, pc: Pc): State
    requires i < |s.threads|
  {
    var held := s.threads[i].held;
    s.(sem := s.sem + 1, threads := s.threads[i := s.threads[i].(pc := pc, held := if held > 0 then held - 1 else 0)])
  }

  function TakeStep(s: State, i: nat, answer: int): State
    requires Enabled(s, Action.Go(i, answer))
  {
    var d := s.threads[i].device;
    match s.threads[i].pc
    case Entering => Wait(s, i, Granted(Insert(d)))
    case Idle => Wait(s, i, Checking)
    case Checking => At(s, i, if HasFd(s.list, d.fd) then Present else Doomed)
    case Present => Post(s, i, Asked)
    case Asked => At(s, i, if answer == 0 then Leaving else Idle)
    case Leaving => Wait(s, i, Granted(Delete(d.fd)))
    case Doomed => Wait(s, i, Granted(Delete(d.fd)))
    case Granted(op) => At(s, i, Updating(op, s.list))
    case Updating(op, seen) => At(s.(list := Apply(seen, op), history := s.history + [op]), i, Updated(op))
    case Updated(op) => Post(s, i, if s.threads[i].sweeper then Sweeping else if op.Insert? then Idle else Exited)
    case Evicting(fd) => Wait(s, i, Granted(Delete(fd)))
  }

  /** pthread_cancel */
  function CallCancel(s: State, i: nat): State
    requires i < |s.threads|
  {
    s.(threads := s.threads[i := s.threads[i].(cancel := true)])
  }

  function Do(s: State, a: Action): State
    requires Enabled(s, a)
  {
    match a
    case Accept(id, fd) =>
      s.(threads := s.threads + [Thread(false, Device(id, fd, |s.threads|), Entering, 0, false)])
    case Go(i, answer) => TakeStep(s, i, answer)
    case Silent(i, d) => At(CallCancel(s, d.tid), i, Evicting(d.fd))
    case Cancel(i) => At(s, i, Cancelled)
  }

  /** Every action of the run can take place when its turn comes. */
  predicate Allowed(s: State, run: seq<Action>)
    decreases |run|
  {
    run == [] || (Enabled(s, run[0]) && Allowed(Do(s, run[0]), run[1..]))
  }

  function Exec(s: State, run: seq<Action>): State
    requires Allowed(s, run)
    decreases |run|
  {
    if run == [] then s else Exec(Do(s, run[0]), run[1..])
  }

  // ----- What every step keeps

  function Held(threads: seq<Thread>): nat {
    if threads == [] then 0 else Held(threads[..|threads| - 1]) + threads[|threads| - 1].held
  }

  lemma {:induction false} HeldUpdate(threads: seq<Thread>, i: nat, t: Thread)
    requires i < |threads|
    ensures Held(threads[i := t]) == Held(threads) - threads[i].held + t.held
    decreases |threads|
  {
    var n := |threads| - 1;
    if i < n {
      assert threads[i := t][..n] == threads[..n][i := t];
      HeldUpdate(threads[..n], i, t);
    } else {
      assert threads[i := t][..n] == threads[..n];
    }
  }

  lemma {:induction false} HeldAtLeast(threads: seq<Thread>, i: nat)
    requires i < |threads|
    ensures Held(threads) >= threads[i].held
    decreases |threads|
  {
    if i < |threads| - 1 {
      HeldAtLeast(threads[..|threads| - 1], i);
    }
  }

  lemma {:induction false} HeldByTwo(threads: seq<Thread>, i: nat, j: nat)
    requires i < j < |threads|
    ensures Held(threads) >= threads[i].held + threads[j].held
    decreases |threads|
  {
    if j < |threads| - 1 {
      HeldByTwo(threads[..|threads| - 1], i, j);
    } else {
      HeldAtLeast(threads[..j], i);
    }
  }

  lemma {:induction false} SomebodyHolds(threads: seq<Thread>) returns (i: nat)
    requires Held(threads) > 0
    ensures i < |threads| && threads[i].held > 0
    decreases |threads|
  {
    i := |threads| - 1;
    if threads[i].held == 0 {
      i := SomebodyHolds(threads[..i]);
    }
  }

  /** Between its wait and its post. */
  predicate InSection(pc: Pc) {
    pc.Checking? || pc.Present? || pc.Doomed? || pc.Granted? || pc.Updating? || pc.Updated?
  }

  /** Inside insert_link or delete_link. */
  predicate InUpdate(pc: Pc) {
    pc.Granted? || pc.Updating? || pc.Updated?
  }

  /** What is true of each thread: it holds the semaphore from its wait to its post, and what it has
      found out about the list in between is still so. */
  predicate ThreadOk(t: Thread, list: seq<Device>) {
    && (InSection(t.pc) ==> t.held == 1)
    && (!InSection(t.pc) && !t.pc.Cancelled? ==> t.held == 0)
    && t.held <= 1
    && (t.sweeper ==> (t.pc.Sweeping? || t.pc.Evicting? || InUpdate(t.pc)) && !t.cancel)
    && (!t.sweeper ==> !t.pc.Sweeping? && !t.pc.Evicting?)
    && (t.pc.Updating? ==> t.pc.seen == list)
    && (t.pc.Present? ==> HasFd(list, t.device.fd))
    && (t.pc.Doomed? ==> !HasFd(list, t.device.fd))
  }

  predicate Inv(s: State) {
    && s.sem + Held(s.threads) == 1
    && (forall i :: 0 <= i < |s.threads| ==> ThreadOk(s.threads[i], s.list))
    && s.list == Run(s.history)
  }

  lemma OnlyOneHolds(s: State, i: nat, j: nat)
    requires Inv(s) && i < |s.threads| && j < |s.threads| && i != j
    ensures s.threads[i].held == 0 || s.threads[j].held == 0
    ensures s.sem > 0 ==> s.threads[i].held == 0
  {
    HeldByTwo(s.threads, if i < j then i else j, if i < j then j else i);
  }

  /** A thread that does not hold the semaphore knows nothing of the list. */
  lemma OthersOk(t: Thread, before: seq<Device>, after: seq<Device>)
    requires ThreadOk(t, before) && t.held == 0
    ensures ThreadOk(t, after)
  {
  }

  lemma WriteKeepsHistory(s: State, i: nat)
    requires Inv(s) && i < |s.threads| && s.threads[i].pc.Updating?
    ensures Run(s.history + [s.threads[i].pc.op]) == Apply(s.list, s.threads[i].pc.op)
  {
    var h := s.history + [s.threads[i].pc.op];
    assert h[..|h| - 1] == s.history;
  }

  lemma GoThread(s: State, i: nat, answer: int)
    requires Inv(s) && Enabled(s, Action.Go(i, answer))
    ensures var t := TakeStep(s, i, answer);
      && |t.threads| == |s.threads| && ThreadOk(t.threads[i], t.list)
      && (forall j :: 0 <= j < |s.threads| && j != i ==> t.threads[j] == s.threads[j])
      && (t.list == s.list || s.threads[i].held == 1)
      && t.sem + t.threads[i].held == s.sem + s.threads[i].held
      && t.threads == s.threads[i := t.threads[i]]
      && t.threads[i].device == s.threads[i].device && t.threads[i].sweeper == s.threads[i].sweeper
      && t.threads[i].cancel == s.threads[i].cancel
  {
    hide Run, Apply;
    assert ThreadOk(s.threads[i], s.list);
    HeldAtLeast(s.threads, i);
  }

  lemma GoHistory(s: State, i: nat, answer: int)
    requires Inv(s) && Enabled(s, Action.Go(i, answer))
    ensures var t := TakeStep(s, i, answer); t.list == Run(t.history)
  {
    hide Run, Apply;
    assert ThreadOk(s.threads[i], s.list);
    if s.threads[i].pc.Updating? {
      WriteKeepsHistory(s, i);
    }
  }

  lemma GoKeepsInv(s: State, i: nat, answer: int)
    requires Inv(s) && Enabled(s, Action.Go(i, answer))
    ensures Inv(TakeStep(s, i, answer))
  {
    var t := TakeStep(s, i, answer);
    GoThread(s, i, answer);
    GoHistory(s, i, answer);
    hide TakeStep, ThreadOk, Enabled, Run;
    HeldUpdate(s.threads, i, t.threads[i]);
    forall j | 0 <= j < |t.threads| ensures ThreadOk(t.threads[j], t.list) {
      if j != i && t.list != s.list {
        OnlyOneHolds(s, i, j);
        OthersOk(s.threads[j], s.list, t.list);
      }
    }
  }

  lemma {:induction false} SilentKeepsInv(s: State, i: nat, d: Device)
    requires Inv(s) && Enabled(s, Action.Silent(i, d))
    ensures Inv(Do(s, Action.Silent(i, d)))
  {
    var called := CallCancel(s, d.tid);
    assert ThreadOk(s.threads[i], s.list) && ThreadOk(s.threads[d.tid], s.list);
    HeldUpdate(s.threads, d.tid, called.threads[d.tid]);
    HeldUpdate(called.threads, i, called.threads[i].(pc := Evicting(d.fd)));
  }

  lemma {:induction false} DoKeepsInv(s: State, a: Action)
    requires Inv(s) && Enabled(s, a)
    ensures Inv(Do(s, a))
  {
    match a
    case Accept(_, _) =>
      assert Do(s, a).threads[..|s.threads|] == s.threads;
    case Go(i, answer) =>
      GoKeepsInv(s, i, answer);
    case Silent(i, d) =>
      SilentKeepsInv(s, i, d);
    case Cancel(i) =>
      assert ThreadOk(s.threads[i], s.list);
      HeldUpdate(s.threads, i, s.threads[i].(pc := Cancelled));
  }

  lemma {:induction false} ExecKeepsInv(s: State, run: seq<Action>)
    requires Inv(s) && Allowed(s, run)
    ensures Inv(Exec(s, run))
    decreases |run|
  {
    if run != [] {
      DoKeepsInv(s, run[0]);
      ExecKeepsInv(Do(s, run[0]), run[1..]);
    }
  }

  lemma StartInv()
    ensures Inv(START)
  {
  }

  // ----- Safety of every run

  /** The semaphore and the waits not posted yet make 1 at all times, whatever the threads do. */
  lemma SemaphoreConserved(run: seq<Action>)
    requires Allowed(START, run)
    ensures var s := Exec(START, run); s.sem + Held(s.threads) == 1
  {
    StartInv();
    ExecKeepsInv(START, run);
  }

  /** No two threads are inside insert_link or delete_link together. */
  lemma UpdatesExclude(run: seq<Action>, i: nat, j: nat)
    requires Allowed(START, run)
    requires i < |Exec(START, run).threads| && j < |Exec(START, run).threads|
    requires InUpdate(Exec(START, run).threads[i].pc) && InUpdate(Exec(START, run).threads[j].pc)
    ensures i == j
  {
    StartInv();
    ExecKeepsInv(START, run);
    var s := Exec(START, run);
    assert ThreadOk(s.threads[i], s.list) && ThreadOk(s.threads[j], s.list);
    if i != j {
      OnlyOneHolds(s, i, j);
    }
  }

  /** No update is lost: the list is what the inserts and deletes make of it one after the other,
      in the order in which they were finished. */
  lemma NoUpdateLost(run: seq<Action>)
    requires Allowed(START, run)
    ensures Exec(START, run).list == Run(Exec(START, run).history)
  {
    StartInv();
    ExecKeepsInv(START, run);
  }

  // ----- When the semaphore is lost for good

  /** The thread holds the semaphore and will not post it: it was cancelled, it waits once more, or
      it is about to because its device is not in the list. */
  predicate NeverPosts(t: Thread, list: seq<Device>) {
    && t.held > 0
    && (t.pc.Cancelled? || t.pc.Doomed? || (t.pc.Checking? && !HasFd(list, t.device.fd)))
  }

  predicate Lost(s: State) {
    exists i :: 0 <= i < |s.threads| && NeverPosts(s.threads[i], s.list)
  }

  lemma LostStep(s: State, a: Action)
    requires Inv(s) && Lost(s) && Enabled(s, a)
    ensures Do(s, a).list == s.list && Do(s, a).history == s.history && Lost(Do(s, a)) && s.sem == 0
  {
    hide Run, Apply, Held;
    var i :| 0 <= i < |s.threads| && NeverPosts(s.threads[i], s.list);
    HeldAtLeast(s.threads, i);
    match a
    case Accept(_, _) =>
      assert Do(s, a).threads[i] == s.threads[i];
    case Silent(j, d) =>
      assert NeverPosts(Do(s, a).threads[i], s.list);
    case Go(j, answer) =>
      assert ThreadOk(s.threads[j], s.list);
      if i != j {
        OnlyOneHolds(s, i, j);
      }
      assert NeverPosts(Do(s, a).threads[i], s.list);
    case Cancel(j) =>
      assert NeverPosts(Do(s, a).threads[i], s.list);
  }

  /** From then on nobody gets the semaphore and the registry never changes. */
  lemma {:induction false} LostForGood(s: State, run: seq<Action>)
    requires Inv(s) && Lost(s) && Allowed(s, run)
    ensures Exec(s, run).sem == 0 && Exec(s, run).list == s.list && Exec(s, run).history == s.history
    decreases |run|
  {
    if run == [] {
      var i :| 0 <= i < |s.threads| && NeverPosts(s.threads[i], s.list);
      HeldAtLeast(s.threads, i);
    } else {
      LostStep(s, run[0]);
      DoKeepsInv(s, run[0]);
      LostForGood(Do(s, run[0]), run[1..]);
    }
  }

  /** How many steps a thread that holds the semaphore is from having posted it. */
  function StepsToPost(pc: Pc): nat {
    match pc
    case Checking => 2
    case Granted(_) => 3
    case Updating(_, _) => 2
    case _ => 1
  }

  /** Any other holder posts after a few steps of its own. */
  lemma {:induction false} PostsSoon(s: State, i: nat) returns (run: seq<Action>)
    requires Inv(s) && i < |s.threads| && s.threads[i].held > 0 && !NeverPosts(s.threads[i], s.list)
    ensures Allowed(s, run) && Exec(s, run).sem == 1 && |run| <= 3
    ensures |run| == StepsToPost(s.threads[i].pc)
    decreases StepsToPost(s.threads[i].pc)
  {
    hide Run, Apply;
    assert ThreadOk(s.threads[i], s.list);
    HeldAtLeast(s.threads, i);
    var a := Action.Go(i, 0);
    var t := Do(s, a);
    if StepsToPost(s.threads[i].pc) == 1 {
      run := [a];
      assert Allowed(t, run[1..]);
    } else {
      DoKeepsInv(s, a);
      var rest := PostsSoon(t, i);
      run := [a] + rest;
      assert run[1..] == rest;
    }
  }

  predicate Frees(s: State, run: seq<Action>) {
    Allowed(s, run) && Exec(s, run).sem == 1
  }

  /** The semaphore can become free again if and only if it is not lost. */
  lemma {:induction false} FreeAgainIff(s: State)
    requires Inv(s)
    ensures !Lost(s) <==> exists run :: Frees(s, run)
  {
    if Lost(s) {
      forall run | Allowed(s, run) ensures !Frees(s, run) {
        LostForGood(s, run);
      }
    } else if s.sem == 1 {
      assert Frees(s, []);
    } else {
      var i := SomebodyHolds(s.threads);
      var run := PostsSoon(s, i);
      assert Frees(s, run);
    }
  }

}

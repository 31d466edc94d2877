/** The registry over whole runs of inserts and deletes. */
module RegistryRuns {
  import opened Bytes
  import opened Registry

  datatype Op = Insert(d: Device) | Delete(fd: int)

  /** The registry after a run that starts with an empty one. */
  function Run(ops: seq<Op>): seq<Device> {
    if ops == [] then [] else Apply(Run(ops[..|ops| - 1]), ops[|ops| - 1])
  }

  function Apply(l: seq<Device>, op: Op): seq<Device> {
    match op
    case Insert(d) => [d] + l
    case Delete(fd) => Without(l, fd)
  }

  // ----- What a device still being there should mean

  /** Inserts with descriptor fd minus deletes of fd, from step i of the run on. */
  function Balance(ops: seq<Op>, i: nat, fd: int): int
    requires i <= |ops|
    decreases |ops|
  {
    if i == |ops| then 0
    else
      Balance(ops[..|ops| - 1], i, fd) + Change(ops[|ops| - 1], fd)
  }

  function Change(op: Op, fd: int): int {
    match op
    case Insert(d) => if d.fd == fd then 1 else 0
    case Delete(f) => if f == fd && f >= 0 then -1 else 0
  }

  /** The insert of step i has not been undone: at no later time did the deletes of its
      descriptor outnumber the inserts that came after it. */
  ghost predicate Live(ops: seq<Op>, i: nat) {
    && i < |ops| && ops[i].Insert?
    && forall t :: i < t <= |ops| ==> Balance(ops[..t], i + 1, ops[i].d.fd) >= 0
  }

  // ----- The registry with the steps that made it

  /** The steps of the inserts whose devices are in the registry, newest first. */
  function Steps(ops: seq<Op>): (r: seq<nat>)
    ensures AllInserts(ops, r)
  {
    if ops == [] then []
    else
      var before := Steps(ops[..|ops| - 1]);
      match ops[|ops| - 1]
      case Insert(_) => [|ops| - 1] + before
      case Delete(fd) =>
        var k := StepAt(ops, before, fd);
        if fd < 0 || k == |before| then before else Rest(before, k)
  }

  /** A list without the place at m. */
  function Rest(steps: seq<nat>, m: nat): (r: seq<nat>)
    requires m < |steps|
    ensures |r| == |steps| - 1
    ensures forall k :: 0 <= k < |r| ==> r[k] == steps[if k < m then k else k + 1]
  {
    steps[..m] + steps[m + 1..]
  }

  predicate AllInserts(ops: seq<Op>, steps: seq<nat>) {
    forall k :: 0 <= k < |steps| ==> steps[k] < |ops| && ops[steps[k]].Insert?
  }

  /** The first step in the list that inserted descriptor fd. */
  function StepAt(ops: seq<Op>, steps: seq<nat>, fd: int): (k: nat)
    requires AllInserts(ops, steps)
    ensures k <= |steps|
    ensures forall j :: 0 <= j < k ==> ops[steps[j]].d.fd != fd
    ensures k < |steps| ==> ops[steps[k]].d.fd == fd
  {
    if steps == [] || ops[steps[0]].d.fd == fd then 0 else 1 + StepAt(ops, steps[1..], fd)
  }

  /** How many of the first k steps inserted descriptor fd. */
  function CountFd(ops: seq<Op>, steps: seq<nat>, k: nat, fd: int): nat
    requires AllInserts(ops, steps) && k <= |steps|
  {
    if k == 0 then 0 else CountFd(ops, steps, k - 1, fd) + if ops[steps[k - 1]].d.fd == fd then 1 else 0
  }

  /** The devices of a list are those its steps inserted. */
  predicate Made(ops: seq<Op>, steps: seq<nat>, l: seq<Device>) {
    |l| == |steps| && AllInserts(ops, steps) && forall k :: 0 <= k < |steps| ==> l[k] == ops[steps[k]].d
  }

  lemma DeleteMade(ops: seq<Op>, steps: seq<nat>, l: seq<Device>, fd: int)
    requires Made(ops, steps, l) && fd >= 0
    ensures var k := StepAt(ops, steps, fd);
      Made(ops, if k == |steps| then steps else Rest(steps, k), Without(l, fd))
  {
    var k := StepAt(ops, steps, fd);
    if k < |steps| {
      WithoutAt(l, fd, k);
    } else {
      WithoutAbsent(l, fd);
    }
  }

  lemma {:induction false} StepsMakeRun(ops: seq<Op>)
    ensures Made(ops, Steps(ops), Run(ops))
    decreases |ops|
  {
    if ops != [] {
      var before := ops[..|ops| - 1];
      StepsMakeRun(before);
      match ops[|ops| - 1]
      case Insert(_) =>
      case Delete(fd) =>
        if fd >= 0 {
          DeleteMade(ops, Steps(before), Run(before), fd);
        }
    }
  }

  predicate NewestFirst(steps: seq<nat>) {
    forall j, k :: 0 <= j < k < |steps| ==> steps[j] > steps[k]
  }

  lemma {:induction false} StepsNewestFirst(ops: seq<Op>)
    ensures NewestFirst(Steps(ops))
    decreases |ops|
  {
    if ops != [] {
      StepsNewestFirst(ops[..|ops| - 1]);
    }
  }

  // ----- A device is in the registry if and only if its insert is live

  /** How the steps at the places of a list count against a descriptor. */
  lemma {:induction false} CountCons(ops: seq<Op>, s: nat, steps: seq<nat>, k: nat, fd: int)
    requires s < |ops| && ops[s].Insert? && AllInserts(ops, steps) && k <= |steps|
    ensures CountFd(ops, [s] + steps, k + 1, fd) == CountFd(ops, steps, k, fd) + if ops[s].d.fd == fd then 1 else 0
  {
    if k > 0 {
      CountCons(ops, s, steps, k - 1, fd);
    }
  }

  lemma {:induction false} CountNone(ops: seq<Op>, steps: seq<nat>, k: nat, fd: int)
    requires AllInserts(ops, steps) && k <= |steps| && forall j :: 0 <= j < k ==> ops[steps[j]].d.fd != fd
    ensures CountFd(ops, steps, k, fd) == 0
  {
    if k > 0 {
      CountNone(ops, steps, k - 1, fd);
    }
  }

  lemma {:induction false} CountPrefix(ops: seq<Op>, a: seq<nat>, b: seq<nat>, k: nat, fd: int)
    requires AllInserts(ops, a) && AllInserts(ops, b) && k <= |a| && k <= |b| && a[..k] == b[..k]
    ensures CountFd(ops, a, k, fd) == CountFd(ops, b, k, fd)
  {
    if k > 0 {
      assert a[..k][..k - 1] == a[..k - 1] && b[..k][..k - 1] == b[..k - 1];
      assert a[k - 1] == a[..k][k - 1] == b[..k][k - 1] == b[k - 1];
      CountPrefix(ops, a, b, k - 1, fd);
    }
  }

  /** Taking the step at place m out lowers the counts behind it by that step. */
  lemma {:induction false} CountWithout(ops: seq<Op>, steps: seq<nat>, m: nat, k: nat, fd: int)
    requires AllInserts(ops, steps) && m <= k < |steps|
    ensures AllInserts(ops, Rest(steps, m))
    ensures CountFd(ops, steps, k + 1, fd)
         == CountFd(ops, Rest(steps, m), k, fd) + if ops[steps[m]].d.fd == fd then 1 else 0
  {
    var rest := Rest(steps, m);
    if k == m {
      CountPrefix(ops, steps, rest, m, fd);
    } else {
      CountWithout(ops, steps, m, k - 1, fd);
      assert rest[k - 1] == steps[k];
    }
  }

  /** Counting looks only at the steps in the list. */
  lemma {:induction false} CountSameOps(a: seq<Op>, b: seq<Op>, steps: seq<nat>, k: nat, fd: int)
    requires AllInserts(a, steps) && k <= |steps| && |a| <= |b| && a == b[..|a|]
    ensures AllInserts(b, steps) && CountFd(a, steps, k, fd) == CountFd(b, steps, k, fd)
  {
    if k > 0 {
      CountSameOps(a, b, steps, k - 1, fd);
    }
  }

  // ----- The main results

  lemma LiveStep(ops: seq<Op>, i: nat)
    requires i + 1 < |ops|
    ensures Live(ops, i) <==> Live(ops[..|ops| - 1], i) && Balance(ops, i + 1, ops[i].d.fd) >= 0
  {
    hide Balance;
    var before := ops[..|ops| - 1];
    assert ops[..|ops|] == ops;
    assert forall t :: 0 <= t <= |before| ==> before[..t] == ops[..t];
  }

  lemma LastLive(ops: seq<Op>)
    requires ops != []
    ensures Live(ops, |ops| - 1) <==> ops[|ops| - 1].Insert?
  {
    assert ops[..|ops|] == ops;
  }

  /** A device has as many of its descriptor in front of it as the run still has to delete
      before it is its turn. */
  ghost predicate Tracked(ops: seq<Op>, steps: seq<nat>, k: nat)
    requires AllInserts(ops, steps) && k < |steps|
  {
    var fd := ops[steps[k]].d.fd;
    CountFd(ops, steps, k, fd) == Balance(ops, steps[k] + 1, fd)
  }

  ghost predicate AllTracked(ops: seq<Op>, steps: seq<nat>) {
    AllInserts(ops, steps) && forall k :: 0 <= k < |steps| ==> Tracked(ops, steps, k)
  }

  ghost predicate Tracks(ops: seq<Op>) {
    && AllTracked(ops, Steps(ops))
    && (forall i: nat :: i in Steps(ops) <==> Live(ops, i))
  }

  lemma BalanceStep(ops: seq<Op>, i: nat, fd: int)
    requires i < |ops|
    ensures Balance(ops, i, fd) == Balance(ops[..|ops| - 1], i, fd) + Change(ops[|ops| - 1], fd)
  {
  }

  lemma NothingAfter(ops: seq<Op>, fd: int)
    ensures Balance(ops, |ops|, fd) == 0
  {
  }

  lemma Bounds(ops: seq<Op>, i: nat)
    ensures Live(ops, i) ==> i < |ops|
    ensures i in Steps(ops) ==> i < |ops|
  {
  }

  lemma InsertedPlace(ops: seq<Op>, steps: seq<nat>, k: nat)
    requires ops != [] && ops[|ops| - 1].Insert? && AllInserts(ops[..|ops| - 1], steps)
    requires k < |steps| && Tracked(ops[..|ops| - 1], steps, k)
    ensures AllInserts(ops, [|ops| - 1] + steps) && Tracked(ops, [|ops| - 1] + steps, k + 1)
  {
    hide Balance, CountFd;
    var fd := ops[steps[k]].d.fd;
    BalanceStep(ops, steps[k] + 1, fd);
    CountSameOps(ops[..|ops| - 1], ops, steps, k, fd);
    CountCons(ops, |ops| - 1, steps, k, fd);
  }

  lemma FirstPlace(ops: seq<Op>, steps: seq<nat>)
    requires ops != [] && ops[|ops| - 1].Insert? && AllInserts(ops, [|ops| - 1] + steps)
    ensures Tracked(ops, [|ops| - 1] + steps, 0)
  {
    NothingAfter(ops, ops[|ops| - 1].d.fd);
  }

  lemma InsertedLives(ops: seq<Op>, steps: seq<nat>, i: nat)
    requires ops != [] && ops[|ops| - 1].Insert?
    requires i in steps <==> Live(ops[..|ops| - 1], i)
    requires AllTracked(ops, [|ops| - 1] + steps)
    ensures i in [|ops| - 1] + steps <==> Live(ops, i)
  {
    hide Balance, Live, CountFd;
    LastLive(ops);
    if i + 1 < |ops| {
      LiveStep(ops, i);
      if i in steps {
        var k :| 0 <= k < |steps| && steps[k] == i;
        assert Tracked(ops, [|ops| - 1] + steps, k + 1);
        assert ([|ops| - 1] + steps)[k + 1] == i;
      }
    } else {
      Bounds(ops, i);
      Bounds(ops[..|ops| - 1], i);
    }
  }

  lemma InsertedPlaces(ops: seq<Op>, steps: seq<nat>)
    requires ops != [] && ops[|ops| - 1].Insert? && AllTracked(ops[..|ops| - 1], steps)
    ensures AllTracked(ops, [|ops| - 1] + steps)
  {
    hide Tracked;
    var now := [|ops| - 1] + steps;
    FirstPlace(ops, steps);
    forall k | 0 < k < |now| ensures Tracked(ops, now, k) {
      InsertedPlace(ops, steps, k - 1);
    }
  }

  lemma InsertTracks(ops: seq<Op>)
    requires ops != [] && ops[|ops| - 1].Insert? && Tracks(ops[..|ops| - 1])
    ensures Tracks(ops)
  {
    hide Live, AllTracked;
    var n := |ops| - 1;
    var steps := Steps(ops[..n]);
    assert Steps(ops) == [n] + steps;
    hide Steps;
    InsertedPlaces(ops, steps);
    forall i: nat ensures i in [n] + steps <==> Live(ops, i) {
      InsertedLives(ops, steps, i);
    }
  }

  /** A delete that finds nothing to remove changes no balance of a device in the registry. */
  lemma IdlePlace(ops: seq<Op>, steps: seq<nat>, k: nat)
    requires ops != [] && ops[|ops| - 1].Delete? && AllInserts(ops[..|ops| - 1], steps)
    requires k < |steps| && Tracked(ops[..|ops| - 1], steps, k)
    requires ops[|ops| - 1].fd < 0 || ops[steps[k]].d.fd != ops[|ops| - 1].fd
    ensures AllInserts(ops, steps) && Tracked(ops, steps, k)
  {
    hide Balance, CountFd;
    BalanceStep(ops, steps[k] + 1, ops[steps[k]].d.fd);
    CountSameOps(ops[..|ops| - 1], ops, steps, k, ops[steps[k]].d.fd);
  }

  lemma IdleLives(ops: seq<Op>, steps: seq<nat>, i: nat)
    requires ops != [] && ops[|ops| - 1].Delete?
    requires i in steps <==> Live(ops[..|ops| - 1], i)
    requires AllTracked(ops, steps)
    requires i in steps ==> i + 1 < |ops|
    ensures i in steps <==> Live(ops, i)
  {
    hide Balance, Live, CountFd;
    LastLive(ops);
    if i + 1 < |ops| {
      LiveStep(ops, i);
      if i in steps {
        var k :| 0 <= k < |steps| && steps[k] == i;
        assert Tracked(ops, steps, k);
      }
    } else {
      Bounds(ops, i);
    }
  }

  lemma IdleDeleteTracks(ops: seq<Op>)
    requires ops != [] && ops[|ops| - 1].Delete? && Tracks(ops[..|ops| - 1])
    requires var steps, fd := Steps(ops[..|ops| - 1]), ops[|ops| - 1].fd;
      fd < 0 || StepAt(ops, steps, fd) == |steps|
    ensures Tracks(ops)
  {
    hide Live, Tracked;
    var before := ops[..|ops| - 1];
    var steps := Steps(before);
    assert Steps(ops) == steps;
    hide Steps, StepAt;
    forall k | 0 <= k < |steps| ensures Tracked(ops, steps, k) {
      IdlePlace(ops, steps, k);
    }
    hide AllTracked;
    forall i: nat ensures i in steps <==> Live(ops, i) {
      Bounds(before, i);
      IdleLives(ops, steps, i);
    }
  }

  /** A place that a delete leaves is still tracked. */
  lemma KeptPlace(ops: seq<Op>, steps: seq<nat>, m: nat, was: nat)
    requires ops != [] && ops[|ops| - 1].Delete? && ops[|ops| - 1].fd >= 0
    requires AllInserts(ops[..|ops| - 1], steps) && m < |steps| && was < |steps| && was != m
    requires ops[steps[m]].d.fd == ops[|ops| - 1].fd
    requires was < m ==> ops[steps[was]].d.fd != ops[|ops| - 1].fd
    requires Tracked(ops[..|ops| - 1], steps, was)
    ensures AllInserts(ops, Rest(steps, m)) && Tracked(ops, Rest(steps, m), if was < m then was else was - 1)
  {
    hide Balance, CountFd;
    var before := ops[..|ops| - 1];
    var rest := Rest(steps, m);
    var fd := ops[steps[was]].d.fd;
    BalanceStep(ops, steps[was] + 1, fd);
    CountSameOps(before, ops, steps, was, fd);
    if was < m {
      CountPrefix(ops, steps, rest, was, fd);
    } else {
      CountWithout(ops, steps, m, was - 1, fd);
    }
  }

  /** The step a delete takes out is live no longer. */
  lemma RemovedDies(ops: seq<Op>, steps: seq<nat>, m: nat)
    requires ops != [] && ops[|ops| - 1].Delete? && ops[|ops| - 1].fd >= 0
    requires AllInserts(ops[..|ops| - 1], steps) && m < |steps| && Tracked(ops[..|ops| - 1], steps, m)
    requires ops[steps[m]].d.fd == ops[|ops| - 1].fd
    requires forall j :: 0 <= j < m ==> ops[steps[j]].d.fd != ops[|ops| - 1].fd
    ensures !Live(ops, steps[m])
  {
    hide Balance, Live;
    CountNone(ops[..|ops| - 1], steps, m, ops[|ops| - 1].fd);
    hide CountFd;
    BalanceStep(ops, steps[m] + 1, ops[|ops| - 1].fd);
    if steps[m] + 1 < |ops| {
      LiveStep(ops, steps[m]);
    }
  }

  lemma WithoutPlace(steps: seq<nat>, m: nat, i: nat)
    requires NewestFirst(steps) && m < |steps|
    ensures i in Rest(steps, m) <==> i in steps && i != steps[m]
  {
    if i in steps && i != steps[m] {
      var k :| 0 <= k < |steps| && steps[k] == i;
      assert Rest(steps, m)[if k < m then k else k - 1] == i;
    }
  }

  /** A step that a delete leaves in the list stays live, and no step comes to life. */
  lemma KeptLives(ops: seq<Op>, steps: seq<nat>, m: nat, i: nat)
    requires ops != [] && ops[|ops| - 1].Delete? && ops[|ops| - 1].fd >= 0
    requires AllInserts(ops[..|ops| - 1], steps) && m < |steps| && NewestFirst(steps)
    requires i in steps <==> Live(ops[..|ops| - 1], i)
    requires AllTracked(ops, Rest(steps, m))
    requires !Live(ops, steps[m])
    ensures i in Rest(steps, m) <==> Live(ops, i)
  {
    hide Balance, Live, CountFd;
    WithoutPlace(steps, m, i);
    if i + 1 < |ops| {
      LiveStep(ops, i);
      if i in Rest(steps, m) {
        var k :| 0 <= k < |steps| - 1 && Rest(steps, m)[k] == i;
        assert Tracked(ops, Rest(steps, m), k);
      }
    } else {
      LastLive(ops);
      Bounds(ops, i);
    }
  }

  lemma KeptPlaces(ops: seq<Op>, steps: seq<nat>, m: nat)
    requires ops != [] && ops[|ops| - 1].Delete? && ops[|ops| - 1].fd >= 0
    requires AllTracked(ops[..|ops| - 1], steps) && m == StepAt(ops, steps, ops[|ops| - 1].fd) < |steps|
    ensures AllTracked(ops, Rest(steps, m))
    ensures !Live(ops, steps[m])
  {
    hide Live, Rest, Tracked;
    forall k | 0 <= k < |steps| - 1 ensures Tracked(ops, Rest(steps, m), k) {
      KeptPlace(ops, steps, m, if k < m then k else k + 1);
    }
    RemovedDies(ops, steps, m);
  }

  lemma DeleteTracks(ops: seq<Op>, m: nat)
    requires ops != [] && ops[|ops| - 1].Delete? && ops[|ops| - 1].fd >= 0
    requires Tracks(ops[..|ops| - 1])
    requires m == StepAt(ops, Steps(ops[..|ops| - 1]), ops[|ops| - 1].fd) < |Steps(ops[..|ops| - 1])|
    ensures Tracks(ops)
  {
    hide Live, Rest, AllTracked, StepAt;
    var steps := Steps(ops[..|ops| - 1]);
    assert Steps(ops) == Rest(steps, m);
    hide Steps;
    StepsNewestFirst(ops[..|ops| - 1]);
    KeptPlaces(ops, steps, m);
    forall i: nat ensures i in Rest(steps, m) <==> Live(ops, i) {
      KeptLives(ops, steps, m, i);
    }
  }

  /** The devices in the registry are those whose inserts are live. */
  lemma {:induction false} StepsAreLive(ops: seq<Op>)
    ensures Tracks(ops)
    decreases |ops|
  {
    if ops != [] {
      var last := ops[|ops| - 1];
      StepsAreLive(ops[..|ops| - 1]);
      if last.Insert? {
        InsertTracks(ops);
      } else {
        var m := StepAt(ops, Steps(ops[..|ops| - 1]), last.fd);
        if last.fd < 0 || m == |Steps(ops[..|ops| - 1])| {
          IdleDeleteTracks(ops);
        } else {
          DeleteTracks(ops, m);
        }
      }
    }
  }

  /** find_link answers with the most recently inserted device of that ID that is still there. */
  lemma FindsLatestLive(ops: seq<Op>, id: cstring, i: nat)
    requires Live(ops, i) && ops[i].d.id == id
    requires forall j: nat :: i < j && Live(ops, j) ==> ops[j].d.id != id
    ensures FindId(Run(ops), id) == ops[i].d.fd
  {
    StepsAreLive(ops);
    StepsMakeRun(ops);
    StepsNewestFirst(ops);
    var steps := Steps(ops);
    assert i in steps;
    var k :| 0 <= k < |steps| && steps[k] == i;
    forall j | 0 <= j < k ensures Run(ops)[j].id != id {
      assert steps[j] in steps;
    }
    FindIdAt(Run(ops), id, k);
  }

  lemma FindsNobody(ops: seq<Op>, id: cstring)
    requires forall j: nat :: Live(ops, j) ==> ops[j].d.id != id
    ensures FindId(Run(ops), id) == -1
  {
    StepsAreLive(ops);
    StepsMakeRun(ops);
    forall k | 0 <= k < |Run(ops)| ensures Run(ops)[k].id != id {
      assert Steps(ops)[k] in Steps(ops);
    }
    FindIdAbsent(Run(ops), id);
  }

  lemma FindsFdIfLive(ops: seq<Op>, fd: int)
    ensures HasFd(Run(ops), fd) <==> exists i: nat :: Live(ops, i) && ops[i].d.fd == fd
  {
    StepsAreLive(ops);
    StepsMakeRun(ops);
    var steps := Steps(ops);
    if i: nat :| Live(ops, i) && ops[i].d.fd == fd {
      assert i in steps;
      var k :| 0 <= k < |steps| && steps[k] == i;
      assert Run(ops)[k].fd == fd;
    }
    if k :| 0 <= k < |Run(ops)| && Run(ops)[k].fd == fd {
      assert steps[k] in steps;
    }
  }

  lemma {:induction false} StepsAfterDelete(ops: seq<Op>, fd: int)
    requires fd >= 0
    ensures AllInserts(ops + [Delete(fd)], Steps(ops))
    ensures var m := StepAt(ops + [Delete(fd)], Steps(ops), fd);
      m < |Steps(ops)| ==> Steps(ops + [Delete(fd)]) == Rest(Steps(ops), m)
  {
    hide StepAt;
    assert (ops + [Delete(fd)])[..|ops|] == ops;
  }

  lemma LiveIsInsert(ops: seq<Op>, i: nat)
    requires Live(ops, i)
    ensures i < |ops| && ops[i].Insert?
  {
  }

  /** The first step in the list with a descriptor is the latest one with it. */
  lemma {:induction false} FirstIsLatest(ops: seq<Op>, steps: seq<nat>, m: nat, k: nat)
    requires AllInserts(ops, steps) && NewestFirst(steps) && m <= k < |steps|
    requires ops[steps[m]].d.fd == ops[steps[k]].d.fd
    requires forall j :: 0 <= j < m ==> ops[steps[j]].d.fd != ops[steps[k]].d.fd
    ensures steps[m] == steps[k] <==> forall j :: j in steps && steps[k] < j ==> ops[j].d.fd != ops[steps[k]].d.fd
  {
    if m < k {
      assert steps[m] in steps;
    } else {
      forall j | j in steps && steps[k] < j ensures ops[j].d.fd != ops[steps[k]].d.fd {
        var n :| 0 <= n < |steps| && steps[n] == j;
        assert n < m;
      }
    }
  }

  /** A delete takes a device that is there if and only if no device that came later has its descriptor. */
  lemma {:induction false} DeleteTakesIff(ops: seq<Op>, i: nat)
    requires Live(ops, i) && ops[i].d.fd >= 0
    ensures !Live(ops + [Delete(ops[i].d.fd)], i) <==>
      forall j: nat :: i < j && Live(ops, j) ==> ops[j].d.fd != ops[i].d.fd
  {
    LiveIsInsert(ops, i);
    hide Live, AllTracked, Steps, StepAt, Rest;
    var fd := ops[i].d.fd;
    var longer := ops + [Delete(fd)];
    var steps := Steps(ops);
    StepsAreLive(ops);
    StepsAreLive(longer);
    StepsNewestFirst(ops);
    StepsAfterDelete(ops, fd);
    var m := StepAt(longer, steps, fd);
    var k :| 0 <= k < |steps| && steps[k] == i;
    assert m <= k;
    WithoutPlace(steps, m, i);
    hide NewestFirst;
    FirstIsLatest(ops, steps, m, k);
  }

  /** The heap list after a run of inserts and deletes is the sequence of the run. */
  method Replay(ops: seq<Op>) returns (list: LinkList)
    ensures fresh(list) && list.Valid() && list.head != null && list.Devices() == Run(ops)
  {
    hide LinkList.Valid, LinkList.Devices, Without;
    list := new LinkList();
    var k := 0;
    while k < |ops|
      invariant k <= |ops| && fresh(list) && list.Valid() && list.head != null
      invariant fresh(list.head) && fresh(set n | n in list.nodes)
      invariant list.Devices() == Run(ops[..k])
    {
      assert ops[..k + 1][..k] == ops[..k];
      match ops[k] {
        case Insert(d) => list.Insert(d);
        case Delete(fd) => list.Delete(fd);
      }
      k := k + 1;
    }
    assert ops[..k] == ops;
  }

  /** handl_thread closes the descriptor before it deletes the device. If a newcomer gets the
      same descriptor in between, the delete takes the newcomer and the dead device stays. */
  lemma ReusedDescriptorEvictsNewcomer(dead: Device, newcomer: Device)
    requires dead.fd == newcomer.fd >= 0
    ensures Run([Insert(dead), Insert(newcomer), Delete(dead.fd)]) == [dead]
  {
    var ops := [Insert(dead), Insert(newcomer), Delete(dead.fd)];
    assert ops[..2] == [Insert(dead), Insert(newcomer)];
    assert ops[..2][..1] == [Insert(dead)];
    assert Run(ops[..2][..1]) == [dead];
    assert Run(ops[..2]) == [newcomer, dead];
  }
}

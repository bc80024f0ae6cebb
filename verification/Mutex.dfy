/** Kernel-thread mutexes (kthread.c:202-358): a queue kept by shifting an array,
    ownership handed from thread to thread, and every run of threads locking and
    unlocking. */
module Mutex {
  const NTHREAD: nat := 16
  const MAX_MUTEXES: nat := 64

  /* One mutex. */

  /** What unlock did: nothing (-1), passed the mutex on, or left it free. */
  datatype Unlocked = NotLocked | Handed(to: nat) | Freed

  lemma Shifted(was: seq<nat>, now: seq<nat>, n: nat)
    requires 1 <= n <= |was| == |now| && forall j :: 1 <= j < n ==> now[j - 1] == was[j]
    ensures was[..n] == [was[0]] + now[..n - 1]
  {
    forall k | 0 <= k < n ensures was[..n][k] == ([was[0]] + now[..n - 1])[k] {
      assert k >= 1 ==> now[k - 1] == was[k];
    }
  }

  class KernelMutex {
    var locked: bool
    /** threads_queue: thread numbers from 1; 0 is the null pointer. */
    const queue: array<nat>
    var last: nat

    ghost predicate Valid()
      reads this, queue
    {
      && queue.Length == NTHREAD && last <= NTHREAD
      && (forall i :: 0 <= i < last ==> queue[i] != 0)
      && (forall i :: last <= i < NTHREAD ==> queue[i] == 0)
      && (!locked ==> last == 0)
    }

    /** The threads waiting, the longest first. */
    ghost function Waiting(): seq<nat>
      requires Valid()
      reads this, queue
    {
      queue[..last]
    }

    constructor ()
      ensures Valid() && fresh(queue) && !locked && Waiting() == []
    {
      locked, last, queue := false, 0, new nat[NTHREAD](_ => 0);
    }

    /** EmptyQueue (kthread.c:202-206). */
    method Empty() returns (b: bool)
      requires Valid()
      ensures b <==> Waiting() == []
    {
      b := queue[0] == 0;
    }

    /** pushThreadToMutexQueue (kthread.c:208-218); it panics when full. */
    method Push(t: nat)
      requires Valid() && locked && t != 0 && last < NTHREAD
      modifies this`last, queue
      ensures Valid() && Waiting() == old(Waiting()) + [t]
    {
      queue[last] := t;
      last := last + 1;
    }

    /** popThreadToMutexQueue (kthread.c:221-244); it panics when empty. */
    method Pop() returns (t: nat)
      requires Valid() && last > 0
      modifies this`last, queue
      ensures Valid() && old(Waiting()) == [t] + Waiting()
    {
      ghost var was := queue[..];
      t := queue[0];
      var i := 1;
      while i < NTHREAD
        invariant 1 <= i <= NTHREAD && i <= last == old(last)
        invariant forall j :: 1 <= j < i ==> queue[j - 1] == was[j]
        invariant forall j :: i - 1 <= j < NTHREAD ==> queue[j] == was[j]
        decreases NTHREAD - i
      {
        queue[i - 1] := queue[i];
        if queue[i] == 0 {
          break;
        }
        i := i + 1;
      }
      assert forall j :: 1 <= j < last ==> queue[j - 1] == was[j];
      last := last - 1;
      queue[NTHREAD - 1] := 0;
      forall j | 0 <= j < last ensures queue[j] == was[j + 1] {
        assert queue[j + 1 - 1] == was[j + 1];
      }
      Shifted(was, queue[..], last + 1);
    }

    /** kthread_mutex_lock (kthread.c:293-324) by thread t, up to its return or
        its block: it owns the mutex, or waits behind the others. */
    method Lock(t: nat) returns (owned: bool)
      requires Valid() && t != 0 && last < NTHREAD
      modifies this, queue
      ensures Valid() && locked && owned == !old(locked)
      ensures Waiting() == if owned then old(Waiting()) else old(Waiting()) + [t]
    {
      if locked {
        Push(t);
        return false;
      }
      locked := true;
      return true;
    }

    /** kthread_mutex_unlock (kthread.c:326-358): the longest waiter gets the
        mutex, which stays locked. */
    method Unlock() returns (r: Unlocked)
      requires Valid()
      modifies this, queue
      ensures Valid()
      ensures r == NotLocked <==> !old(locked)
      ensures r == NotLocked ==> !locked && Waiting() == old(Waiting())
      ensures r.Handed? ==> locked && old(Waiting()) == [r.to] + Waiting()
      ensures r == Freed ==> !locked && old(Waiting()) == [] == Waiting()
    {
      if !locked {
        return NotLocked;
      }
      var empty := Empty();
      if !empty {
        var t := Pop();
        return Handed(t);
      }
      locked := false;
      return Freed;
    }
  }

  /* Every run of lock and unlock, where only the owner unlocks. */

  /** owners are the threads lock has let in, or unlock has passed the mutex to,
      that have not unlocked since.  asked and granted are histories. */
  datatype State = State(locked: bool, queue: seq<nat>, owners: set<nat>, asked: seq<nat>, granted: seq<nat>)

  datatype Step = DoLock(t: nat) | DoUnlock(t: nat)

  /** A thread locks when it neither owns the mutex nor waits for it, and the
      queue has room; it unlocks when it owns it. */
  predicate Enabled(s: State, e: Step) {
    match e
    case DoLock(t) => t !in s.owners && t !in s.queue && |s.queue| < NTHREAD
    case DoUnlock(t) => t in s.owners
  }

  function Next(s: State, e: Step): State
    requires Enabled(s, e)
  {
    match e
    case DoLock(t) =>
      if s.locked then s.(queue := s.queue + [t], asked := s.asked + [t])
      else s.(locked := true, owners := s.owners + {t}, asked := s.asked + [t], granted := s.granted + [t])
    case DoUnlock(t) =>
      if !s.locked then s
      else if |s.queue| > 0 then
        s.(queue := s.queue[1..], owners := s.owners - {t} + {s.queue[0]}, granted := s.granted + [s.queue[0]])
      else s.(locked := false, owners := s.owners - {t})
  }

  function Init(): State {
    State(false, [], {}, [], [])
  }

  datatype Schedule = Start | Then(before: Schedule, step: Step)

  ghost predicate Legal(h: Schedule)
    decreases h, 0
  {
    h.Then? ==> Legal(h.before) && Enabled(Run(h.before), h.step)
  }

  ghost function Run(h: Schedule): State
    requires Legal(h)
    decreases h, 1
  {
    if h.Start? then Init() else Next(Run(h.before), h.step)
  }

  ghost predicate Inv(s: State) {
    && (!s.locked ==> s.queue == [] && s.owners == {})
    && (s.locked ==> exists t :: s.owners == {t} && t !in s.queue)
    && (forall i, j :: 0 <= i < j < |s.queue| ==> s.queue[i] != s.queue[j])
    && s.asked == s.granted + s.queue
  }

  lemma LockInv(s: State, t: nat)
    requires Inv(s) && Enabled(s, DoLock(t))
    ensures Inv(Next(s, DoLock(t)))
  {
    var s' := Next(s, DoLock(t));
    if s.locked {
      var o :| s.owners == {o} && o !in s.queue;
      assert s'.owners == {o} && o !in s'.queue;
      assert s'.asked == s'.granted + s'.queue;
    } else {
      assert s'.owners == {t};
      assert s'.asked == s'.granted + s'.queue;
    }
  }

  lemma UnlockInv(s: State, t: nat)
    requires Inv(s) && Enabled(s, DoUnlock(t))
    ensures Inv(Next(s, DoUnlock(t)))
  {
    var s' := Next(s, DoUnlock(t));
    var o :| s.owners == {o} && o !in s.queue;
    assert o == t;
    if |s.queue| > 0 {
      assert s'.owners == {s.queue[0]};
      assert s.queue == [s.queue[0]] + s'.queue;
      assert s'.asked == s'.granted + s'.queue;
    } else {
      assert s'.owners == {};
    }
  }

  lemma {:induction false} RunInv(h: Schedule)
    requires Legal(h)
    ensures Inv(Run(h))
  {
    if h.Then? {
      RunInv(h.before);
      match h.step
      case DoLock(t) => LockInv(Run(h.before), t);
      case DoUnlock(t) => UnlockInv(Run(h.before), t);
    }
  }

  /** At most one thread owns the mutex, one exactly while it is locked, and
      nobody waits for a mutex that is not. */
  lemma OneOwner(h: Schedule)
    requires Legal(h)
    ensures |Run(h).owners| == if Run(h).locked then 1 else 0
    ensures !Run(h).locked ==> Run(h).queue == []
  {
    RunInv(h);
  }

  /** Threads get the mutex in the order in which they asked for it; those that
      have not got it yet are the queue. */
  lemma FirstComeFirstServed(h: Schedule)
    requires Legal(h)
    ensures Run(h).granted <= Run(h).asked && Run(h).asked == Run(h).granted + Run(h).queue
  {
    RunInv(h);
  }

  /** Thread numbers start at 1. */
  predicate Numbered(h: Schedule) {
    h.Then? ==> Numbered(h.before) && h.step.t != 0
  }

  /** The mutex in memory follows every such run. */
  method Execute(h: Schedule) returns (m: KernelMutex)
    requires Legal(h) && Numbered(h)
    ensures fresh(m) && fresh(m.queue) && m.Valid() && m.locked == Run(h).locked && m.Waiting() == Run(h).queue
  {
    if h.Start? {
      m := new KernelMutex();
      return;
    }
    m := Execute(h.before);
    RunInv(h.before);
    match h.step
    case DoLock(t) =>
      var owned := m.Lock(t);
    case DoUnlock(t) =>
      var r := m.Unlock();
  }

  /* The table of mutexes (kthread.c:247-291). */

  datatype Entry = Entry(used: bool, id: int, locked: bool)

  /** A mutex in use has its index for id; one never used has id 0, one given
      back -1. */
  predicate EntryOk(table: seq<Entry>, i: nat)
    requires i < |table|
  {
    (table[i].used ==> table[i].id == i) && (!table[i].used ==> -1 <= table[i].id <= 0 && !table[i].locked)
  }

  predicate TableOk(table: seq<Entry>) {
    |table| == MAX_MUTEXES && forall i :: 0 <= i < |table| ==> EntryOk(table, i)
  }

  class MutexTable {
    var table: seq<Entry>

    constructor ()
      ensures TableOk(table) && forall i :: 0 <= i < MAX_MUTEXES ==> !table[i].used
    {
      table := seq(MAX_MUTEXES, _ => Entry(false, 0, false));
    }

    /** kthread_mutex_alloc: the first one not in use, unlocked. */
    method Alloc() returns (r: int)
      requires TableOk(table)
      modifies this
      ensures TableOk(table)
      ensures r == -1 ==> table == old(table) && forall i :: 0 <= i < MAX_MUTEXES ==> table[i].used
      ensures r != -1 ==> 0 <= r < MAX_MUTEXES && !old(table)[r].used && table == old(table)[r := Entry(true, r, false)]
      ensures forall i :: 0 <= i < r ==> old(table)[i].used
    {
      var index := 0;
      while index < MAX_MUTEXES
        invariant 0 <= index <= MAX_MUTEXES && table == old(table) && forall i :: 0 <= i < index ==> table[i].used
      {
        if !table[index].used {
          assert EntryOk(table, index);
          table := table[index := table[index].(used := true, id := index)];
          forall i | 0 <= i < |table| ensures EntryOk(table, i) {
            assert EntryOk(old(table), i);
          }
          return index;
        }
        index := index + 1;
      }
      return -1;
    }

    /** kthread_mutex_dealloc: searches by id, and succeeds exactly on a mutex in
        use that is not locked. */
    method Dealloc(mutexId: int) returns (r: int)
      requires TableOk(table)
      modifies this
      ensures TableOk(table)
      ensures r == 0 <==> 0 <= mutexId < MAX_MUTEXES && old(table)[mutexId].used && !old(table)[mutexId].locked
      ensures r == 0 ==> table == old(table)[mutexId := Entry(false, -1, false)]
      ensures r != 0 ==> r == -1 && table == old(table)
    {
      var i := 0;
      while i < MAX_MUTEXES
        invariant 0 <= i <= MAX_MUTEXES && table == old(table) && forall j :: 0 <= j < i ==> table[j].id != mutexId
      {
        assert EntryOk(table, i) && (0 <= mutexId < MAX_MUTEXES ==> EntryOk(table, mutexId));
        if table[i].id == mutexId {
          if table[i].used && !table[i].locked {
            table := table[i := table[i].(used := false, id := -1)];
            forall j | 0 <= j < |table| ensures EntryOk(table, j) {
              assert EntryOk(old(table), j);
            }
            return 0;
          }
          return -1;
        }
        i := i + 1;
      }
      assert 0 <= mutexId < MAX_MUTEXES ==> EntryOk(table, mutexId);
      return -1;
    }
  }

  /* The window in lock (kthread.c:307-314): a thread enters the queue and only
     later, with the queue's lock given up, is set BLOCKED. */

  /** Early: passed the mutex before it blocked.  Stuck: then blocked. */
  datatype Phase = Apart | Holds | Queued | Blocked | Early | Stuck

  datatype Wide = Wide(locked: bool, queue: seq<nat>, phases: seq<Phase>)

  datatype Move = Ask(t: nat) | Block(t: nat) | Release(t: nat)

  predicate CanMove(s: Wide, m: Move) {
    && m.t < |s.phases| && (forall i :: 0 <= i < |s.queue| ==> s.queue[i] < |s.phases|)
    && match m
       case Ask(t) => s.phases[t] == Apart
       case Block(t) => s.phases[t] == Queued || s.phases[t] == Early
       case Release(t) => s.phases[t] == Holds && s.locked
  }

  /** unlock sets its thread RUNNABLE whether it has blocked yet or not. */
  function Passed(p: Phase): Phase {
    if p == Blocked then Holds else Early
  }

  function Moved(s: Wide, m: Move): Wide
    requires CanMove(s, m)
  {
    match m
    case Ask(t) =>
      if s.locked then s.(queue := s.queue + [t], phases := s.phases[t := Queued])
      else s.(locked := true, phases := s.phases[t := Holds])
    case Block(t) => s.(phases := s.phases[t := if s.phases[t] == Queued then Blocked else Stuck])
    case Release(t) =>
      if |s.queue| > 0 then s.(queue := s.queue[1..],
                               phases := s.phases[t := Apart][s.queue[0] := Passed(s.phases[s.queue[0]])])
      else s.(locked := false, phases := s.phases[t := Apart])
  }

  predicate Owning(p: Phase) {
    p == Holds || p == Early || p == Stuck
  }

  /** One owner at most, who is not in the queue; those queued or blocked are. */
  ghost predicate WideInv(s: Wide) {
    && (forall i :: 0 <= i < |s.queue| ==> s.queue[i] < |s.phases| && s.phases[s.queue[i]] in {Queued, Blocked})
    && (forall i, j :: 0 <= i < j < |s.queue| ==> s.queue[i] != s.queue[j])
    && (forall t, u :: 0 <= t < |s.phases| && 0 <= u < |s.phases| && Owning(s.phases[t]) && Owning(s.phases[u]) ==>
          t == u)
    && (forall t :: 0 <= t < |s.phases| && Owning(s.phases[t]) ==> s.locked)
  }

  lemma PassInv(s: Wide, t: nat)
    requires WideInv(s) && CanMove(s, Release(t)) && |s.queue| > 0
    ensures WideInv(Moved(s, Release(t))) && Owning(Moved(s, Release(t)).phases[s.queue[0]])
  {
    var s', u := Moved(s, Release(t)), s.queue[0];
    assert s.phases[u] in {Queued, Blocked} && u != t;
    forall i | 0 <= i < |s'.queue|
      ensures s'.queue[i] == s.queue[i + 1] && s'.phases[s'.queue[i]] == s.phases[s.queue[i + 1]]
    {
      assert s.queue[i + 1] != u && s.queue[i + 1] != t;
    }
    assert forall v :: 0 <= v < |s.phases| && v != t && v != u ==> s'.phases[v] == s.phases[v] && !Owning(s.phases[v]);
  }

  lemma MoveInv(s: Wide, m: Move)
    requires WideInv(s) && CanMove(s, m)
    ensures WideInv(Moved(s, m))
  {
    if m.Release? && |s.queue| > 0 {
      PassInv(s, m.t);
    }
  }

  datatype Moves = Now | After(before: Moves, move: Move)

  ghost predicate Possible(s: Wide, h: Moves)
    decreases h, 0
  {
    h.After? ==> Possible(s, h.before) && CanMove(Play(s, h.before), h.move)
  }

  ghost function Play(s: Wide, h: Moves): Wide
    requires Possible(s, h)
    decreases h, 1
  {
    if h.Now? then s else Moved(Play(s, h.before), h.move)
  }

  lemma {:induction false} PlayInv(s: Wide, h: Moves)
    requires WideInv(s) && Possible(s, h)
    ensures WideInv(Play(s, h)) && |Play(s, h).phases| == |s.phases|
  {
    if h.After? {
      PlayInv(s, h.before);
      MoveInv(Play(s, h.before), h.move);
    }
  }

  function WideInit(n: nat): Wide {
    Wide(false, [], seq(n, _ => Apart))
  }

  /** Two threads: the second asks, the first releases, the second blocks. */
  lemma WindowRun()
    ensures var h := After(After(After(After(Now, Ask(0)), Ask(1)), Release(0)), Block(1));
            Possible(WideInit(2), h) && Play(WideInit(2), h).phases[1] == Stuck
  {
    var h2 := After(After(Now, Ask(0)), Ask(1));
    assert Play(WideInit(2), After(Now, Ask(0))).phases == [Holds, Apart];
    assert Play(WideInit(2), h2).phases == [Holds, Queued] && Play(WideInit(2), h2).queue == [1];
    var h3 := After(h2, Release(0));
    assert Play(WideInit(2), h3).phases == [Apart, Early];
  }

  /** From then on, for every continuation: the thread stays blocked, and no
      other ever gets the mutex. */
  lemma {:induction false} StuckForever(s: Wide, h: Moves, t: nat)
    requires WideInv(s) && Possible(s, h) && t < |s.phases| && s.phases[t] == Stuck
    ensures var s' := Play(s, h);
            |s'.phases| == |s.phases| && s'.phases[t] == Stuck && s'.locked
            && forall u :: 0 <= u < |s'.phases| && u != t ==> !Owning(s'.phases[u])
  {
    if h.After? {
      StuckForever(s, h.before, t);
      PlayInv(s, h.before);
    }
  }

  /** No unlock has passed the mutex to a thread not yet blocked. */
  ghost predicate InTime(s: Wide, h: Moves)
    requires Possible(s, h)
  {
    h.After? ==> InTime(s, h.before) && var s1 := Play(s, h.before);
      (h.move.Release? && |s1.queue| > 0 ==> s1.phases[s1.queue[0]] == Blocked)
  }

  ghost predicate NoneCaught(s: Wide) {
    forall u :: 0 <= u < |s.phases| ==> s.phases[u] != Early && s.phases[u] != Stuck
  }

  lemma StillNone(s: Wide, m: Move)
    requires WideInv(s) && CanMove(s, m) && NoneCaught(s)
    requires m.Release? && |s.queue| > 0 ==> s.phases[s.queue[0]] == Blocked
    ensures NoneCaught(Moved(s, m))
  {
  }

  /** A thread gets caught exactly when an unlock comes inside the window. */
  lemma {:induction false} NotCaught(n: nat, h: Moves)
    requires Possible(WideInit(n), h) && InTime(WideInit(n), h)
    ensures NoneCaught(Play(WideInit(n), h))
  {
    if h.After? {
      NotCaught(n, h.before);
      PlayInv(WideInit(n), h.before);
      StillNone(Play(WideInit(n), h.before), h.move);
    }
  }

  lemma {:induction false} CaughtInWindow(n: nat, h: Moves) returns (k: Moves)
    requires Possible(WideInit(n), h) && !InTime(WideInit(n), h)
    ensures Caught(WideInit(n), h, k)
  {
    if InTime(WideInit(n), h.before) {
      k := h;
      PlayInv(WideInit(n), h.before);
      var s1 := Play(WideInit(n), h.before);
      assert Play(WideInit(n), h).phases[s1.queue[0]] == Early;
    } else {
      k := CaughtInWindow(n, h.before);
    }
  }

  /** k is a beginning of h after which a thread owns the mutex unblocked. */
  ghost predicate Caught(s: Wide, h: Moves, k: Moves) {
    Within(k, h) && Possible(s, k) && exists u :: 0 <= u < |Play(s, k).phases| && Play(s, k).phases[u] == Early
  }

  predicate Within(k: Moves, h: Moves) {
    k == h || (h.After? && Within(k, h.before))
  }

  /** u has the mutex without having waited for it, and is about to block or has:
      its next move makes it stuck, and nobody else has the mutex. */
  ghost predicate Trapped(s: Wide, u: nat) {
    && u < |s.phases| && s.phases[u] in {Early, Stuck} && s.locked
    && (forall t :: 0 <= t < |s.phases| && t != u ==> !Owning(s.phases[t]))
    && (s.phases[u] == Early ==> CanMove(s, Block(u)) && Moved(s, Block(u)).phases[u] == Stuck)
    && !CanMove(s, Release(u))
  }

  ghost predicate SomeTrapped(s: Wide) {
    exists u :: Trapped(s, u)
  }

  lemma TrappedNow(s: Wide, u: nat)
    requires WideInv(s) && u < |s.phases| && s.phases[u] in {Early, Stuck}
    ensures Trapped(s, u)
  {
  }

  /** Once an unlock has come inside the window, whatever happened since, a
      thread is trapped. */
  lemma {:induction false} WindowTraps(n: nat, h: Moves) returns (u: nat)
    requires Possible(WideInit(n), h) && !InTime(WideInit(n), h)
    ensures Trapped(Play(WideInit(n), h), u)
  {
    PlayInv(WideInit(n), h);
    PlayInv(WideInit(n), h.before);
    var s1 := Play(WideInit(n), h.before);
    if InTime(WideInit(n), h.before) {
      u := s1.queue[0];
    } else {
      u := WindowTraps(n, h.before);
    }
    TrappedNow(Play(WideInit(n), h), u);
  }

  /** In every run a thread is trapped exactly if an unlock came inside the
      window. */
  lemma TrappedExactly(n: nat, h: Moves)
    requires Possible(WideInit(n), h)
    ensures !InTime(WideInit(n), h) <==> SomeTrapped(Play(WideInit(n), h))
  {
    if InTime(WideInit(n), h) {
      NotCaught(n, h);
    } else {
      var u := WindowTraps(n, h);
      assert SomeTrapped(Play(WideInit(n), h));
    }
  }
}

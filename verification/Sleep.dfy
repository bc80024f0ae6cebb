/** sleep and wakeup (proc.c:444-496) on one channel: every interleaving of
    sleepers, wakers, the scheduler and kill.  A lock is taken and given up in one
    step, which the exclusion proved of spin locks allows.  The channel's lock lk
    may be ptable.lock itself (same). */
module Sleep {
  /** Where a thread is.  InLk: holds lk.  Sleeper: saw the condition false and
      called sleep, still with lk; then with both locks; then with ptable.lock
      only; asleep; runnable again; back from sched with ptable.lock; waiting for
      lk.  Waker: made the condition true and called wakeup, with lk; then with
      both, about to scan. */
  datatype Pc = Out | InLk | Calling | Both | PtOnly | Asleep | Ready | Back | Waiting | Waking | Scanning

  /** lk and pt are the holders of lk and ptable.lock, -1 for none.  scans counts
      the wakeups; seen is what a sleeper's count was when it saw the condition
      false. */
  datatype State = State(same: bool, cond: bool, lk: int, pt: int, pcs: seq<Pc>, scans: nat, seen: seq<nat>)

  datatype Step =
    | TakeLk(t: nat) | DropLk(t: nat) | Consume(t: nat)
    | CallSleep(t: nat) | TakePt(t: nat) | ReleaseLk(t: nat) | GoToSleep(t: nat)
    | Schedule(t: nat) | Tidy(t: nat)
    | MakeTrue(t: nat) | WakerPt(t: nat) | Scan(t: nat)
    | Kill(t: nat)

  predicate Enabled(s: State, e: Step) {
    e.t < |s.pcs| && |s.seen| == |s.pcs| && var p := s.pcs[e.t];
    match e
    case TakeLk(t) => (p == Out || p == Waiting) && s.lk == -1
    case DropLk(t) => p == InLk
    case Consume(t) => p == InLk && s.cond
    case CallSleep(t) => p == InLk && !s.cond
    case TakePt(t) => !s.same && p == Calling && s.pt == -1
    case ReleaseLk(t) => p == Both
    case GoToSleep(t) => p == if s.same then Calling else PtOnly
    case Schedule(t) => p == Ready && if s.same then s.lk == -1 else s.pt == -1
    case Tidy(t) => p == Back
    case MakeTrue(t) => p == InLk
    case WakerPt(t) => !s.same && p == Waking && s.pt == -1
    case Scan(t) => p == if s.same then Waking else Scanning
    case Kill(t) => p == Asleep && if s.same then s.lk == -1 else s.pt == -1
  }

  function Woken(p: Pc): Pc {
    if p == Asleep then Ready else p
  }

  function Next(s: State, e: Step): State
    requires Enabled(s, e)
  {
    var t := e.t;
    match e
    case TakeLk(_) => s.(lk := t, pcs := s.pcs[t := InLk])
    case DropLk(_) => s.(lk := -1, pcs := s.pcs[t := Out])
    case Consume(_) => s.(cond := false)
    case CallSleep(_) => s.(pcs := s.pcs[t := Calling], seen := s.seen[t := s.scans])
    case TakePt(_) => s.(pt := t, pcs := s.pcs[t := Both])
    case ReleaseLk(_) => s.(lk := -1, pcs := s.pcs[t := PtOnly])
    case GoToSleep(_) => if s.same then s.(lk := -1, pcs := s.pcs[t := Asleep])
                         else s.(pt := -1, pcs := s.pcs[t := Asleep])
    case Schedule(_) => if s.same then s.(lk := t, pcs := s.pcs[t := InLk]) else s.(pt := t, pcs := s.pcs[t := Back])
    case Tidy(_) => s.(pt := -1, pcs := s.pcs[t := Waiting])
    case MakeTrue(_) => s.(cond := true, pcs := s.pcs[t := Waking])
    case WakerPt(_) => s.(pt := t, pcs := s.pcs[t := Scanning])
    case Scan(_) =>
      s.(pt := if s.same then s.pt else -1, scans := s.scans + 1,
         pcs := seq(|s.pcs|, i requires 0 <= i < |s.pcs| => if i == t then InLk else Woken(s.pcs[i])))
    case Kill(_) => s.(pcs := s.pcs[t := Ready])
  }

  function Init(n: nat, same: bool, cond: bool): State {
    State(same, cond, -1, -1, seq(n, _ => Out), 0, seq(n, _ => 0))
  }

  datatype Schedules = Start | Then(before: Schedules, step: Step)

  ghost predicate Legal(s: State, h: Schedules)
    decreases h, 0
  {
    h.Then? ==> Legal(s, h.before) && Enabled(Run(s, h.before), h.step)
  }

  ghost function Run(s: State, h: Schedules): State
    requires Legal(s, h)
    decreases h, 1
  {
    if h.Start? then s else Next(Run(s, h.before), h.step)
  }

  /* The invariant. */

  predicate HoldsLk(p: Pc) {
    p in {InLk, Calling, Both, Waking, Scanning}
  }

  predicate HoldsPt(p: Pc) {
    p in {Both, PtOnly, Back, Scanning}
  }

  /** Saw the condition false, and has not been woken since. */
  predicate Committed(p: Pc) {
    p in {Calling, Both, PtOnly, Asleep}
  }

  predicate OnItsWay(p: Pc) {
    p == Waking || p == Scanning
  }

  predicate ThreadOk(s: State, t: nat)
    requires t < |s.pcs| == |s.seen|
  {
    && (s.lk == t <==> HoldsLk(s.pcs[t]))
    && (s.pt == t <==> HoldsPt(s.pcs[t]))
    && (Committed(s.pcs[t]) ==> s.seen[t] == s.scans)
    && (s.same ==> s.pcs[t] !in {Both, PtOnly, Back, Scanning})
    && (Committed(s.pcs[t]) && s.cond ==> 0 <= s.lk < |s.pcs| && OnItsWay(s.pcs[s.lk]))
  }

  ghost predicate Inv(s: State) {
    |s.seen| == |s.pcs| && forall t :: 0 <= t < |s.pcs| ==> ThreadOk(s, t)
  }

  lemma StepInv(s: State, e: Step)
    requires Inv(s) && Enabled(s, e)
    ensures Inv(Next(s, e))
  {
    var s', t := Next(s, e), e.t;
    assert ThreadOk(s, t);
    forall u | 0 <= u < |s'.pcs| ensures ThreadOk(s', u) {
      assert ThreadOk(s, u);
    }
  }

  lemma {:induction false} RunInv(s: State, h: Schedules)
    requires Inv(s) && Legal(s, h)
    ensures Inv(Run(s, h)) && |Run(s, h).pcs| == |s.pcs|
  {
    if h.Then? {
      RunInv(s, h.before);
      StepInv(Run(s, h.before), h.step);
    }
  }

  /** No lost wakeup: at every scan, each thread that saw the condition false and
      called sleep, and has not been woken since, is asleep and is made
      runnable. */
  lemma ScanWakesAll(s: State, h: Schedules, t: nat, u: nat)
    requires Inv(s) && Legal(s, Then(h, Scan(t)))
    requires u < |Run(s, h).pcs| && Committed(Run(s, h).pcs[u])
    ensures Run(s, h).pcs[u] == Asleep
    ensures u < |Run(s, Then(h, Scan(t))).pcs| && Run(s, Then(h, Scan(t))).pcs[u] == Ready
  {
    RunInv(s, h);
    var s1 := Run(s, h);
    assert ThreadOk(s1, t) && ThreadOk(s1, u);
  }

  /** So no thread sleeps through a wakeup: since it saw the condition false
      there has been none. */
  lemma NoneSince(s: State, h: Schedules, u: nat)
    requires Inv(s) && Legal(s, h) && u < |Run(s, h).pcs| && Committed(Run(s, h).pcs[u])
    ensures |Run(s, h).seen| == |Run(s, h).pcs| && Run(s, h).seen[u] == Run(s, h).scans
  {
    RunInv(s, h);
    assert ThreadOk(Run(s, h), u);
  }

  /** A thread is asleep while the condition is true only when the thread that
      made it true still holds lk, on its way to wake it. */
  lemma AsleepOnlyWhile(s: State, h: Schedules, u: nat)
    requires Inv(s) && Legal(s, h) && u < |Run(s, h).pcs| && Run(s, h).pcs[u] == Asleep && Run(s, h).cond
    ensures var s' := Run(s, h); 0 <= s'.lk < |s'.pcs| && OnItsWay(s'.pcs[s'.lk])
  {
    RunInv(s, h);
    assert ThreadOk(Run(s, h), u);
  }

  lemma InitInv(n: nat, same: bool, cond: bool)
    ensures Inv(Init(n, same, cond))
  {
    var s := Init(n, same, cond);
    assert forall t :: 0 <= t < n ==> ThreadOk(s, t);
  }

  /* The scans themselves: wakeup1 (proc.c:480-489) and kill (proc.c:501-520)
     over the process table. */

  datatype Status = UNUSED | EMBRYO | SLEEPING | RUNNABLE | RUNNING | ZOMBIE | BLOCKED | UNBLOCKED

  datatype Thread = Thread(state: Status, chan: nat)

  /** x is what becomes of thread x0: one sleeping on chan is runnable, and any
      other is as it was. */
  predicate Roused(x0: Thread, x: Thread, chan: nat) {
    && (x0 == Thread(SLEEPING, chan) ==> x == Thread(RUNNABLE, chan))
    && (x0.state != SLEEPING || x0.chan != chan ==> x == x0)
  }

  /** The same, whatever it is sleeping on. */
  predicate RousedAny(x0: Thread, x: Thread) {
    && (x0.state == SLEEPING ==> x == Thread(RUNNABLE, x0.chan))
    && (x0.state != SLEEPING ==> x == x0)
  }

  /** What a thread of the table tells of where it is, for sleepers on chan. */
  predicate Shows(x: Thread, p: Pc, chan: nat) {
    (p == Asleep <==> x == Thread(SLEEPING, chan)) && (p == Ready ==> x.state == RUNNABLE)
  }

  lemma RousedShows(x0: Thread, x: Thread, p: Pc, chan: nat)
    requires Shows(x0, p, chan) && Roused(x0, x, chan)
    ensures Shows(x, Woken(p), chan) && (p == Asleep ==> x.state == RUNNABLE) && (p != Asleep ==> x == x0)
  {
  }

  /** The first n threads of the process in row p have been killed in their sleep. */
  function KilledUpTo(s: State, rows: seq<nat>, p: nat, n: nat): State
    requires |rows| == |s.pcs|
  {
    s.(pcs := seq(|s.pcs|, i requires 0 <= i < |s.pcs| => if i < n && rows[i] == p then Woken(s.pcs[i]) else s.pcs[i]))
  }

  /** That is a run of Kill steps, if the lock of the table is free. */
  lemma {:induction false} KillsRun(s: State, rows: seq<nat>, p: nat, n: nat) returns (h: Schedules)
    requires |rows| == |s.pcs| == |s.seen| && n <= |s.pcs| && (if s.same then s.lk else s.pt) == -1
    ensures Legal(s, h) && Run(s, h) == KilledUpTo(s, rows, p, n)
  {
    h := Start;
    if n == 0 {
      assert KilledUpTo(s, rows, p, 0).pcs == s.pcs;
    } else {
      h := KillsRun(s, rows, p, n - 1);
      var s1 := KilledUpTo(s, rows, p, n - 1);
      if s.pcs[n - 1] == Asleep && rows[n - 1] == p {
        assert Enabled(s1, Kill(n - 1));
        h := Then(h, Kill(n - 1));
        assert Next(s1, Kill(n - 1)).pcs == KilledUpTo(s, rows, p, n).pcs;
      } else {
        assert s1.pcs == KilledUpTo(s, rows, p, n).pcs;
      }
    }
  }

  class Ptable {
    const pids: array<nat>
    const killed: array<bool>
    const threads: array2<Thread>

    ghost predicate Valid() {
      pids.Length == killed.Length == threads.Length0
    }

    constructor (nproc: nat, nthread: nat)
      ensures Valid() && fresh(pids) && fresh(killed) && fresh(threads)
      ensures pids.Length == nproc && threads.Length1 == nthread
      ensures forall p :: 0 <= p < nproc ==> pids[p] == 0 && !killed[p]
      ensures forall p, t :: 0 <= p < nproc && 0 <= t < nthread ==> threads[p, t].state == UNUSED
    {
      pids, killed := new nat[nproc](_ => 0), new bool[nproc](_ => false);
      threads := new Thread[nproc, nthread]((_, _) => Thread(UNUSED, 0));
    }

    /** wakeup1: every thread sleeping on chan becomes runnable, and no other
        changes. */
    method Wakeup1(chan: nat)
      requires Valid()
      modifies threads
      ensures forall p, t :: 0 <= p < threads.Length0 && 0 <= t < threads.Length1 ==>
                if old(threads[p, t].state) == SLEEPING && old(threads[p, t].chan) == chan
                then threads[p, t] == Thread(RUNNABLE, chan) else threads[p, t] == old(threads[p, t])
    {
      var p := 0;
      while p < threads.Length0
        invariant 0 <= p <= threads.Length0
        invariant forall q, t :: 0 <= q < threads.Length0 && 0 <= t < threads.Length1 ==>
                    if q < p then Roused(old(threads[q, t]), threads[q, t], chan)
                    else threads[q, t] == old(threads[q, t])
      {
        var t := 0;
        while t < threads.Length1
          invariant 0 <= t <= threads.Length1
          invariant forall q, u :: 0 <= q < threads.Length0 && 0 <= u < threads.Length1 ==>
                      if q < p || (q == p && u < t) then Roused(old(threads[q, u]), threads[q, u], chan)
                      else threads[q, u] == old(threads[q, u])
        {
          if threads[p, t].state == SLEEPING && threads[p, t].chan == chan {
            threads[p, t] := threads[p, t].(state := RUNNABLE);
          }
          t := t + 1;
        }
        p := p + 1;
      }
    }

    /** The table shows where the threads of s are; rows and columns say where each
        has its place. */
    ghost predicate Reflects(s: State, rows: seq<nat>, columns: seq<nat>, chan: nat)
      reads threads
    {
      && |rows| == |columns| == |s.pcs|
      && forall u :: 0 <= u < |s.pcs| ==>
           rows[u] < threads.Length0 && columns[u] < threads.Length1 &&
           Shows(threads[rows[u], columns[u]], s.pcs[u], chan)
    }

    /** wakeup (proc.c:492-496) is the scan of the machine. */
    method Wakeup(chan: nat, ghost s: State, ghost t: nat, ghost rows: seq<nat>, ghost columns: seq<nat>)
      requires Valid() && Enabled(s, Scan(t)) && Reflects(s, rows, columns, chan)
      modifies threads
      ensures Reflects(Next(s, Scan(t)), rows, columns, chan)
    {
      Wakeup1(chan);
      forall u | 0 <= u < |s.pcs|
        ensures Shows(threads[rows[u], columns[u]], Next(s, Scan(t)).pcs[u], chan)
      {
        RousedShows(old(threads[rows[u], columns[u]]), threads[rows[u], columns[u]], s.pcs[u], chan);
      }
    }

    /** Every sleeping thread of the first process with that pid. */
    method Kill(pid: nat) returns (r: int)
      requires Valid()
      modifies threads, killed
      ensures r == -1 ==> (forall q :: 0 <= q < pids.Length ==> pids[q] != pid && killed[q] == old(killed[q]))
      ensures r == -1 ==> forall q, u :: 0 <= q < threads.Length0 && 0 <= u < threads.Length1 ==>
                threads[q, u] == old(threads[q, u])
      ensures r != -1 ==> r == 0 && exists p :: Killed(p, pid) && Untouched(p)
    {
      var p := 0;
      while p < pids.Length
        invariant 0 <= p <= pids.Length && forall q :: 0 <= q < p ==> pids[q] != pid
        invariant forall q :: 0 <= q < killed.Length ==> killed[q] == old(killed[q])
        invariant forall q, u :: 0 <= q < threads.Length0 && 0 <= u < threads.Length1 ==>
                  threads[q, u] == old(threads[q, u])
      {
        if pids[p] == pid {
          killed[p] := true;
          var t := 0;
          while t < threads.Length1
            invariant 0 <= t <= threads.Length1
            invariant forall q :: 0 <= q < killed.Length ==> killed[q] == (q == p || old(killed[q]))
            invariant forall q, u :: 0 <= q < threads.Length0 && 0 <= u < threads.Length1 ==>
                        if q == p && u < t then RousedAny(old(threads[q, u]), threads[q, u])
                        else threads[q, u] == old(threads[q, u])
          {
            if threads[p, t].state == SLEEPING {
              threads[p, t] := threads[p, t].(state := RUNNABLE);
            }
            t := t + 1;
          }
          assert Killed(p, pid) && Untouched(p);
          return 0;
        }
        p := p + 1;
      }
      return -1;
    }

    /** And that is a run of the machine. */
    twostate lemma KillReflects(p: nat, pid: nat, s: State, rows: seq<nat>, columns: seq<nat>, chan: nat)
      returns (h: Schedules)
      requires pids.Length == killed.Length == threads.Length0 && Killed(p, pid) && Untouched(p)
      requires old(Reflects(s, rows, columns, chan)) && |s.seen| == |s.pcs| && (if s.same then s.lk else s.pt) == -1
      ensures Legal(s, h) && Reflects(Run(s, h), rows, columns, chan)
    {
      h := KillsRun(s, rows, p, |s.pcs|);
      forall u | 0 <= u < |s.pcs| ensures Shows(threads[rows[u], columns[u]], Run(s, h).pcs[u], chan) {
        assert old(Shows(threads[rows[u], columns[u]], s.pcs[u], chan));
      }
    }

    twostate predicate Killed(p: nat, pid: nat)
      requires pids.Length == killed.Length == threads.Length0
      reads pids, killed, threads
    {
      && p < pids.Length && pids[p] == pid && killed[p] && (forall q :: 0 <= q < p ==> pids[q] != pid)
      && forall u :: 0 <= u < threads.Length1 ==>
           if old(threads[p, u].state) == SLEEPING then threads[p, u] == Thread(RUNNABLE, old(threads[p, u].chan))
           else threads[p, u] == old(threads[p, u])
    }

    twostate predicate Untouched(p: nat)
      requires pids.Length == killed.Length == threads.Length0
      reads pids, killed, threads
    {
      && (forall q :: 0 <= q < pids.Length && q != p ==> killed[q] == old(killed[q]))
      && (forall q, u :: 0 <= q < pids.Length && q != p && 0 <= u < threads.Length1 ==>
            threads[q, u] == old(threads[q, u]))
    }
  }
}

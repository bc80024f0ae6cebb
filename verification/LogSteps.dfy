/** Each call of begin_op, log_write and end_op on the log in memory is a run of
    steps of GroupCommit, so what holds of its runs holds of the code. */
module LogSteps {
  import opened CrashSpec
  import opened Bio
  import opened GroupCommit
  import opened Log

  /** What the log in memory and the disk are in state s.  In the log region the
      cache may show what s has only on disk. */
  ghost predicate Shows(s: State, log: Region, lh: seq<nat>, disk: Disk, view: Disk, outstanding: nat,
                        committing: bool)
  {
    && s.log == log && s.lh == lh && s.disk == disk && SameHome(s.view, view, log)
    && |s.ops| == outstanding && s.committing == committing
  }

  ghost predicate Refines(l: KernelLog, s: State)
    reads l, l.sector, l.c, l.c.bufs, l.c.next, l.c.prev
  {
    l.Valid() && Inv(s) && Shows(s, l.Where(), l.LH(), l.c.disk, l.c.view, l.outstanding, l.committing)
  }

  lemma OneStep(s: State, step: Step) returns (s': State)
    requires Inv(s) && Enabled(s, step)
    ensures Legal(s, Then(Start, step)) && Run(s, Then(Start, step)) == s' == Next(s, step) && Inv(s')
  {
    assert Run(s, Start) == s;
    s' := Run(s, Then(Start, step));
  }

  /** A log that has just come up is the initial state. */
  method Boots(d: Disk, start: nat, size: nat, ghost budget: nat) returns (l: KernelLog)
    requires Sane(d, Region(start, size))
    ensures fresh(l) && Refines(l, Boot(Recovered(d, Region(start, size)), Region(start, size), budget))
  {
    l := InitLog(d, start, size);
    RecoveredBlocks(d, Region(start, size));
    BootInv(Recovered(d, Region(start, size)), Region(start, size), budget);
  }

  /** begin_op enters exactly when the step is enabled, and then is that step. */
  method Begins(l: KernelLog, ghost s: State, ghost id: nat) returns (entered: bool, ghost steps: Schedule)
    requires Refines(l, s) && forall e :: e in s.trace ==> e.op != id
    modifies l`outstanding
    ensures entered <==> Enabled(s, BeginOp(id))
    ensures steps == (if entered then Then(Start, BeginOp(id)) else Start)
    ensures Legal(s, steps) && Refines(l, Run(s, steps))
  {
    entered := l.BeginOp();
    steps := Start;
    if entered {
      steps := Then(Start, BeginOp(id));
      ghost var s' := OneStep(s, BeginOp(id));
    }
  }

  lemma WriteShows(s: State, log: Region, disk: Disk, view: Disk, i: nat, sector: nat, data: Block)
    requires i < |s.ops| && sector < |s.view| && Shows(s, log, s.lh, disk, view, |s.ops|, s.committing)
    ensures Shows(DoLogWrite(s, i, sector, data), log, Absorb(s.lh, sector), disk, view[sector := data], |s.ops|,
                  s.committing)
  {
  }

  /** log_write of a held buffer by operation i. */
  method Writes(l: KernelLog, b: nat, ghost s: State, ghost i: nat) returns (ghost steps: Schedule)
    requires Refines(l, s) && b < NBUF && l.c.bufs[b].busy && l.c.bufs[b].valid
    requires Enabled(s, LogWrite(i, l.c.bufs[b].sector, l.c.bufs[b].data))
    modifies l`n, l.sector, l.c.bufs, l.c`view
    ensures steps == Then(Start, LogWrite(i, old(l.c.bufs[b]).sector, old(l.c.bufs[b]).data))
    ensures Legal(s, steps) && Refines(l, Run(s, steps))
  {
    ghost var sector, data := l.c.bufs[b].sector, l.c.bufs[b].data;
    steps := Then(Start, LogWrite(i, sector, data));
    ghost var s' := OneStep(s, LogWrite(i, sector, data));
    WriteShows(s, l.Where(), l.c.disk, l.c.view, i, sector, data);
    assert |l.LH()| == l.n && l.n < LOGSIZE && l.n < l.size - 1 && l.outstanding >= 1;
    l.LogWrite(b);
    assert Shows(s', l.Where(), l.LH(), l.c.disk, l.c.view, l.outstanding, l.committing);
  }

  /** k sector writes of a commit. */
  ghost function CommitSteps(h: Schedule, k: nat): Schedule {
    if k == 0 then h else Then(CommitSteps(h, k - 1), CommitWrite)
  }

  /** s with k writes of its commit done. */
  ghost predicate WithWrites(s: State, k: nat, s': State) {
    && k <= |s.pending| && s' == s.(disk := s'.disk, done := k, stable := s'.stable)
    && s'.disk == Apply(s.base, s.pending[..k])
  }

  lemma OneWrite(s: State, k: nat, s1: State)
    requires 0 < k <= |s.pending| && WithWrites(s, k - 1, s1)
    ensures WithWrites(s, k, DoCommitWrite(s1))
  {
    assert s.pending[..k] == s.pending[..k - 1] + [s.pending[k - 1]];
    ApplyConcat(s.base, s.pending[..k - 1], [s.pending[k - 1]]);
  }

  lemma {:induction false} CommitRun(s0: State, h: Schedule, s: State, k: nat) returns (s': State)
    requires Inv(s0) && Legal(s0, h) && Run(s0, h) == s && WithWrites(s, 0, s) && s.committing && k <= |s.pending|
    ensures Legal(s0, CommitSteps(h, k)) && Run(s0, CommitSteps(h, k)) == s' && WithWrites(s, k, s')
  {
    s' := s;
    if k > 0 {
      var s1 := CommitRun(s0, h, s, k - 1);
      OneWrite(s, k, s1);
      var steps := Extended(s0, CommitSteps(h, k - 1), CommitWrite);
      s' := DoCommitWrite(s1);
    }
  }

  lemma Extended(s0: State, front: Schedule, step: Step) returns (steps: Schedule)
    requires Inv(s0) && Legal(s0, front) && Enabled(Run(s0, front), step)
    ensures steps == Then(front, step) && Legal(s0, steps) && Run(s0, steps) == Next(Run(s0, front), step)
  {
    steps := Then(front, step);
  }

  /** The steps of a whole commit of lh, after end_op by operation i. */
  ghost function Committed(i: nat, lh: seq<nat>): Schedule {
    Then(CommitSteps(Then(Start, EndOp(i)), if lh == [] then 0 else 2 * |lh| + 2), CommitDone)
  }

  lemma Started(s: State, i: nat) returns (s1: State)
    requires Inv(s) && |s.ops| == 1 && i == 0
    ensures Legal(s, Then(Start, EndOp(i))) && Run(s, Then(Start, EndOp(i))) == s1
    ensures WithWrites(s1, 0, s1) && s1.committing && s1.log == s.log
    ensures s1.base == s.disk && s1.view == s.view && s1.ops == []
    ensures s1.pending == CommitWrites(s.log, s.disk[s.log.start], s.lh, Blocks(s.view, s.lh)) && s1.lh == s.lh
  {
    s1 := OneStep(s, EndOp(i));
  }

  lemma AllWritten(s: State, i: nat) returns (front: Schedule, s2: State)
    requires Inv(s) && |s.ops| == 1 && i == 0
    ensures Then(front, CommitDone) == Committed(i, s.lh) && Legal(s, front) && Run(s, front) == s2
    ensures s2.committing && s2.done == |s2.pending| && s2.view == s.view && s2.ops == [] && s2.log == s.log
    ensures s2.disk == Apply(s.disk, CommitWrites(s.log, s.disk[s.log.start], s.lh, Blocks(s.view, s.lh)))
  {
    var h := Then(Start, EndOp(i));
    var s1 := Started(s, i);
    var k := |s1.pending|;
    s2 := CommitRun(s, h, s1, k);
    assert s1.pending[..k] == s1.pending;
    front := CommitSteps(h, k);
  }

  lemma CommittedRun(s: State, i: nat) returns (s': State)
    requires Inv(s) && |s.ops| == 1 && i == 0
    ensures Legal(s, Committed(i, s.lh)) && Run(s, Committed(i, s.lh)) == s' && Inv(s')
    ensures s'.disk == Apply(s.disk, CommitWrites(s.log, s.disk[s.log.start], s.lh, Blocks(s.view, s.lh)))
    ensures s'.view == s.view && s'.lh == [] && s'.ops == [] && !s'.committing && s'.log == s.log
  {
    var front, s2 := AllWritten(s, i);
    var steps := Extended(s, front, CommitDone);
    s' := Run(s, steps);
  }

  lemma BlocksSame(v: Disk, w: Disk, log: Region, lh: seq<nat>)
    requires SameHome(v, w, log) && HomeSectors(lh, log, v)
    ensures Blocks(v, lh) == Blocks(w, lh)
  {
  }

  /** The last end_op: its commit is the whole run. */
  lemma LastShows(s: State, disk: Disk, v: Disk, disk': Disk, view': Disk) returns (s': State)
    requires Inv(s) && |s.ops| == 1 && Shows(s, s.log, s.lh, disk, v, 1, false) && SameHome(view', v, s.log)
    requires disk' == Apply(disk, CommitWrites(s.log, disk[s.log.start], s.lh, Blocks(v, s.lh)))
    ensures Legal(s, Committed(0, s.lh)) && Run(s, Committed(0, s.lh)) == s' && Inv(s')
    ensures Shows(s', s.log, [], disk', view', 0, false)
  {
    BlocksSame(s.view, v, s.log, s.lh);
    s' := CommittedRun(s, 0);
  }

  /** end_op by operation i.  The last one out goes through the whole commit,
      unless that panics. */
  method Ends(l: KernelLog, ghost s: State, ghost i: nat) returns (ok: bool, ghost steps: Schedule)
    requires Refines(l, s) && !l.committing && i < |s.ops| && (l.outstanding == 1 ==> Held(l.c.bufs[..], {}))
    modifies l`outstanding, l`committing, l`n, l.c, l.c.bufs, l.c.next, l.c.prev
    ensures ok <==> |s.ops| > 1 || |s.lh| < NBUF
    ensures steps == if |s.ops| > 1 || !ok then Then(Start, EndOp(i)) else Committed(i, s.lh)
    ensures Legal(s, steps) && Refines(l, Run(s, steps))
  {
    steps := Then(Start, EndOp(i));
    ghost var s' := OneStep(s, EndOp(i));
    ghost var v0 := l.c.view;
    ok := l.EndOp();
    if |s.ops| == 1 && ok {
      steps := Committed(i, s.lh);
      s' := LastShows(s, s.disk, v0, l.c.disk, l.c.view);
    }
  }

  /** No size of the log is safe once operations may use up their reservation:
      some run meets the panic of log_write, or a commit of as many blocks as
      there are buffers, which is the one that Ends does not get through. */
  lemma NoSafeSize(s0: State) returns (steps: Schedule)
    requires Inv(s0) && Idle(s0) && Room(s0.log) <= s0.log.start && s0.budget >= MAXOPBLOCKS
    ensures RunsIntoPanic(s0, steps) || RunsIntoFull(s0, steps)
    ensures LOGSIZE == NBUF
  {
    if s0.log.size <= LOGSIZE {
      steps := SpacePanicReachable(s0);
    } else {
      steps := FullReachable(s0);
    }
  }
}

/** The log shared by concurrent system calls (log.c:125-230), as a state
    machine: one step is one critical section of begin_op, log_write or end_op,
    one sector write of commit, or a crash followed by recovery. */
module GroupCommit {
  import opened CrashSpec

  const MAXOPBLOCKS: nat := 10

  /** An outstanding operation and the log_write calls it has made. */
  datatype Op = Op(id: nat, used: nat)

  datatype Event =
    | Begun(op: nat)
    | Wrote(op: nat, sector: nat, data: Block)
    | Ended(op: nat)

  /** The state of log.c and the disk, with history variables.
      budget: how often an operation calls log_write, at most; view: block
      contents as the cache shows them; lh: log.lh.sector[..log.lh.n]; ops: the
      outstanding operations; pending, done: the writes of the running commit and
      how many have reached the disk; base: the disk when that commit began;
      initial, trace: where the run started and what it did since, as far as it
      survived crashes; stable: how much of the trace is committed. */
  datatype State = State(log: Region, budget: nat, disk: Disk, view: Disk, lh: seq<nat>, ops: seq<Op>,
                         committing: bool, pending: seq<Write>, done: nat, base: Disk,
                         initial: Disk, trace: seq<Event>, stable: nat)

  datatype Step =
    | BeginOp(id: nat)
    | LogWrite(i: nat, sector: nat, data: Block)
    | EndOp(i: nat)
    | CommitWrite
    | CommitDone
    | CrashRecover(js: seq<nat>)

  /** Blocks the cache holds for the logged sectors. */
  function Blocks(view: Disk, lh: seq<nat>): (data: seq<Block>)
    requires forall i :: 0 <= i < |lh| ==> lh[i] < |view|
    ensures |data| == |lh|
  {
    seq(|lh|, i requires 0 <= i < |lh| => view[lh[i]])
  }

  /** The writes an event sequence makes. */
  function WritesOf(trace: seq<Event>): seq<Write> {
    if trace == [] then []
    else
      var e := trace[|trace| - 1];
      WritesOf(trace[..|trace| - 1]) + if e.Wrote? then [Write(e.sector, e.data)] else []
  }

  /** Running operations directly against a disk. */
  function Replay(d: Disk, trace: seq<Event>): Disk {
    Apply(d, WritesOf(trace))
  }

  predicate LogFull(s: State) {
    |s.lh| >= LOGSIZE || |s.lh| >= s.log.size - 1
  }

  /** When a step may be taken.  For LogWrite and EndOp the panics are left out
      here; NoPanic shows that they are never met. */
  ghost predicate Enabled(s: State, step: Step) {
    match step
    case BeginOp(id) =>
      !s.committing && |s.lh| + (|s.ops| + 1) * MAXOPBLOCKS <= LOGSIZE && forall e :: e in s.trace ==> e.op != id
    case LogWrite(i, sector, data) =>
      i < |s.ops| && s.ops[i].used < s.budget && sector < |s.disk| && !s.log.Has(sector) && !LogFull(s)
    case EndOp(i) => i < |s.ops|
    case CommitWrite => s.committing && s.done < |s.pending|
    case CommitDone => s.committing && s.done == |s.pending|
    case CrashRecover(_) => true
  }

  /** log_write's search for an earlier entry (log.c:221-227). */
  function Absorb(lh: seq<nat>, sector: nat): seq<nat> {
    if sector in lh then lh else lh + [sector]
  }

  function Remove<T>(s: seq<T>, i: nat): seq<T>
    requires i < |s|
  {
    s[..i] + s[i + 1..]
  }

  /** begin_op (log.c:125-140), once it stops waiting. */
  function DoBegin(s: State, id: nat): State {
    s.(ops := s.ops + [Op(id, 0)], trace := s.trace + [Begun(id)])
  }

  /** log_write (log.c:211-230) of a block the caller has changed. */
  function DoLogWrite(s: State, i: nat, sector: nat, data: Block): State
    requires i < |s.ops| && sector < |s.view|
  {
    s.(lh := Absorb(s.lh, sector), view := s.view[sector := data],
       ops := s.ops[i := s.ops[i].(used := s.ops[i].used + 1)],
       trace := s.trace + [Wrote(s.ops[i].id, sector, data)])
  }

  /** end_op (log.c:145-160): the last one out starts a commit. */
  function DoEnd(s: State, i: nat): State
    requires i < |s.ops| && DiskInv(s)
  {
    var s' := s.(ops := Remove(s.ops, i), trace := s.trace + [Ended(s.ops[i].id)]);
    if |s.ops| > 1 then s' else StartCommit(s')
  }

  function StartCommit(s: State): State
    requires DiskInv(s)
  {
    s.(committing := true, done := 0, base := s.disk,
       pending := CommitWrites(s.log, s.disk[s.log.start], s.lh, Blocks(s.view, s.lh)))
  }

  /** One sector write of commit reaches the disk. */
  function DoCommitWrite(s: State): State
    requires s.done < |s.pending|
  {
    s.(disk := Apply(s.disk, [s.pending[s.done]]), done := s.done + 1,
       stable := if s.done == |s.lh| then |s.trace| else s.stable)
  }

  /** The end of end_op after a commit (log.c:166-169). */
  function DoCommitDone(s: State): State {
    s.(committing := false, lh := [], pending := [], done := 0, base := s.disk)
  }

  /** Power fails; recovery, itself cut short |js| times, then completes. */
  function DoCrash(s: State, js: seq<nat>): State
    requires Sane(s.disk, s.log) && s.stable <= |s.trace|
  {
    var d := Recovered(CrashyRecovery(s.disk, s.log, js), s.log);
    State(s.log, s.budget, d, d, [], [], false, [], 0, d, s.initial, s.trace[..s.stable], s.stable)
  }

  function Next(s: State, step: Step): State
    requires Inv(s) && Enabled(s, step)
  {
    match step
    case BeginOp(id) => DoBegin(s, id)
    case LogWrite(i, sector, data) => DoLogWrite(s, i, sector, data)
    case EndOp(i) => DoEnd(s, i)
    case CommitWrite => DoCommitWrite(s)
    case CommitDone => DoCommitDone(s)
    case CrashRecover(js) => InvSane(s); DoCrash(s, js)
  }

  /** What the outstanding operations may still add. */
  function Remaining(ops: seq<Op>, budget: nat): int {
    if ops == [] then 0 else Remaining(ops[..|ops| - 1], budget) + budget - ops[|ops| - 1].used
  }

  /** An operation with an event before position k is over before k. */
  ghost predicate WholeOps(trace: seq<Event>, k: nat) {
    k <= |trace| &&
    (forall i :: 0 <= i < k ==> EndsBefore(trace, k, i)) &&
    (forall i, j :: 0 <= i < k <= j < |trace| ==> Apart(trace, i, j))
  }

  ghost predicate EndsBefore(trace: seq<Event>, k: nat, i: nat)
    requires i < k <= |trace|
  {
    Ended(trace[i].op) in trace[..k]
  }

  ghost predicate Apart(trace: seq<Event>, i: nat, j: nat)
    requires i < |trace| && j < |trace|
  {
    trace[i].op != trace[j].op
  }

  ghost predicate OpenOrOver(ops: seq<Op>, trace: seq<Event>, i: nat)
    requires i < |trace|
  {
    HasOp(ops, trace[i].op) || EndsBefore(trace, |trace|, i)
  }

  ghost predicate Over(ops: seq<Op>, trace: seq<Event>, i: nat)
    requires i < |trace|
  {
    !HasOp(ops, trace[i].op)
  }

  predicate HasOp(ops: seq<Op>, id: nat) {
    exists i :: 0 <= i < |ops| && ops[i].id == id
  }

  /** The most entries the reservation of begin_op admits, for operations that
      keep to MAXOPBLOCKS: LOGSIZE if they use that up. */
  function Most(budget: nat): nat {
    MAXOPBLOCKS + 2 * budget
  }

  /** Reservation: entries plus what outstanding operations may still add. */
  ghost predicate Reserved(s: State) {
    && (forall i :: 0 <= i < |s.ops| ==> s.ops[i].used <= s.budget)
    && (s.ops == [] && !s.committing ==> s.lh == [])
    && (s.budget <= MAXOPBLOCKS ==> |s.lh| + Remaining(s.ops, s.budget) <= Most(s.budget))
  }

  /** The bookkeeping of operations in the trace. */
  ghost predicate Accounted(s: State) {
    && WholeOps(s.trace, s.stable)
    && (forall i :: 0 <= i < |s.trace| ==> OpenOrOver(s.ops, s.trace, i))
    && (forall i :: 0 <= i < s.stable ==> Over(s.ops, s.trace, i))
  }

  /** The disk is base with some of the commit's writes done. */
  ghost predicate DiskInv(s: State) {
    && Sane(s.base, s.log) && HeaderCount(s.base[s.log.start]) == 0
    && HomeSectors(s.lh, s.log, s.base) && |s.view| == |s.base| == |s.initial|
    && s.done <= |s.pending| && s.disk == Apply(s.base, s.pending[..s.done])
    && (if s.committing then
          s.ops == [] && s.pending == CommitWrites(s.log, s.base[s.log.start], s.lh, Blocks(s.view, s.lh))
        else s.pending == [])
  }

  /** What the view and the committed blocks have to do with the trace. */
  ghost predicate TraceInv(s: State) {
    && s.stable <= |s.trace|
    && SameHome(s.view, Replay(s.initial, s.trace), s.log)
    && (forall b :: 0 <= b < |s.view| && !s.log.Has(b) && b !in s.lh ==> b < |s.base| && s.view[b] == s.base[b])
    && (s.done <= |s.lh| ==> SameHome(s.base, Replay(s.initial, s.trace[..s.stable]), s.log))
    && (s.done > |s.lh| ==> s.stable == |s.trace|)
  }

  ghost predicate Inv(s: State) {
    Reserved(s) && Accounted(s) && DiskInv(s) && TraceInv(s)
  }

  lemma InvSane(s: State)
    requires Inv(s)
    ensures Sane(s.disk, s.log)
  {
    if s.committing {
      CommitCrash(s.base, s.log, s.lh, Blocks(s.view, s.lh), s.done);
    }
  }

  /** The state initlog leaves behind on a disk whose log is clear. */
  function Boot(d: Disk, log: Region, budget: nat): State {
    State(log, budget, d, d, [], [], false, [], 0, d, d, [], 0)
  }

  lemma BootInv(d: Disk, log: Region, budget: nat)
    requires Sane(d, log) && HeaderCount(d[log.start]) == 0
    ensures Inv(Boot(d, log, budget))
  {
  }

  // ---- reservation -------------------------------------------------------

  lemma {:induction false} RemainingConcat(a: seq<Op>, b: seq<Op>, budget: nat)
    ensures Remaining(a + b, budget) == Remaining(a, budget) + Remaining(b, budget)
  {
    if b == [] {
      assert a + b == a;
    } else {
      RemainingConcat(a, b[..|b| - 1], budget);
      assert (a + b)[..|a + b| - 1] == a + b[..|b| - 1];
    }
  }

  lemma RemainingSplit(ops: seq<Op>, i: nat, budget: nat)
    requires i < |ops|
    ensures Remaining(ops, budget) == Remaining(Remove(ops, i), budget) + budget - ops[i].used
    ensures forall op :: Remaining(ops[i := op], budget) == Remaining(Remove(ops, i), budget) + budget - op.used
  {
    assert ops == ops[..i] + ([ops[i]] + ops[i + 1..]);
    RemainingConcat(ops[..i], [ops[i]] + ops[i + 1..], budget);
    RemainingConcat([ops[i]], ops[i + 1..], budget);
    RemainingConcat(ops[..i], ops[i + 1..], budget);
    assert Remaining([ops[i]], budget) == budget - ops[i].used;
    forall op ensures Remaining(ops[i := op], budget) == Remaining(Remove(ops, i), budget) + budget - op.used {
      assert ops[i := op] == ops[..i] + ([op] + ops[i + 1..]);
      RemainingConcat(ops[..i], [op] + ops[i + 1..], budget);
      RemainingConcat([op], ops[i + 1..], budget);
      assert Remaining([op], budget) == budget - op.used;
    }
  }

  lemma {:induction false} RemainingBounds(ops: seq<Op>, budget: nat)
    requires forall i :: 0 <= i < |ops| ==> ops[i].used <= budget
    ensures 0 <= Remaining(ops, budget) <= |ops| * budget
  {
    if ops != [] {
      RemainingBounds(ops[..|ops| - 1], budget);
    }
  }

  lemma ReservedBegin(s: State, id: nat, s': State)
    requires Reserved(s) && !s.committing && |s.lh| + (|s.ops| + 1) * MAXOPBLOCKS <= LOGSIZE
    requires s'.budget == s.budget && s'.lh == s.lh && s'.ops == s.ops + [Op(id, 0)]
    ensures Reserved(s')
  {
    RemainingBounds(s.ops, s.budget);
    RemainingConcat(s.ops, [Op(id, 0)], s.budget);
    assert Remaining([Op(id, 0)], s.budget) == s.budget;
    assert |s.ops| <= 2;
  }

  // ---- whole operations --------------------------------------------------

  lemma HasOpAppend(ops: seq<Op>, op: Op, id: nat)
    ensures HasOp(ops + [op], id) <==> HasOp(ops, id) || op.id == id
  {
    var more := ops + [op];
    if i :| 0 <= i < |ops| && ops[i].id == id {
      assert more[i].id == id;
    }
    assert more[|ops|] == op;
  }

  lemma HasOpUpdate(ops: seq<Op>, i: nat, op: Op, id: nat)
    requires i < |ops| && op.id == ops[i].id
    ensures HasOp(ops[i := op], id) <==> HasOp(ops, id)
  {
    var ops' := ops[i := op];
    if j :| 0 <= j < |ops| && ops[j].id == id {
      assert ops'[j].id == id;
    }
    if j :| 0 <= j < |ops'| && ops'[j].id == id {
      assert ops[j].id == id;
    }
  }

  lemma HasOpRemove(ops: seq<Op>, i: nat, id: nat)
    requires i < |ops|
    ensures HasOp(ops, id) <==> HasOp(Remove(ops, i), id) || ops[i].id == id
  {
    var less := Remove(ops, i);
    if j :| 0 <= j < |ops| && ops[j].id == id {
      assert j < i ==> less[j].id == id;
      assert j > i ==> less[j - 1].id == id;
    }
    if j :| 0 <= j < |less| && less[j].id == id {
      assert ops[if j < i then j else j + 1].id == id;
    }
  }

  lemma AccountedBegin(s: State, id: nat, s': State)
    requires Accounted(s) && forall e :: e in s.trace ==> e.op != id
    requires s'.ops == s.ops + [Op(id, 0)] && s'.trace == s.trace + [Begun(id)] && s'.stable == s.stable
    ensures Accounted(s')
  {
    forall x ensures HasOp(s'.ops, x) <==> HasOp(s.ops, x) || x == id {
      HasOpAppend(s.ops, Op(id, 0), x);
    }
    AccountedMore(s, Begun(id), s');
  }

  lemma AccountedWrite(s: State, i: nat, op: Op, e: Event, s': State)
    requires Accounted(s) && i < |s.ops| && op.id == s.ops[i].id == e.op && e.Wrote?
    requires s'.ops == s.ops[i := op] && s'.trace == s.trace + [e] && s'.stable == s.stable
    ensures Accounted(s')
  {
    forall x ensures HasOp(s'.ops, x) <==> HasOp(s.ops, x) {
      HasOpUpdate(s.ops, i, op, x);
    }
    assert HasOp(s.ops, s.ops[i].id);
    AccountedMore(s, e, s');
  }

  lemma AccountedEnd(s: State, i: nat, s': State)
    requires Accounted(s) && i < |s.ops|
    requires s'.ops == Remove(s.ops, i) && s'.trace == s.trace + [Ended(s.ops[i].id)] && s'.stable == s.stable
    ensures Accounted(s')
  {
    forall x ensures HasOp(s.ops, x) <==> HasOp(s'.ops, x) || s.ops[i].id == x {
      HasOpRemove(s.ops, i, x);
    }
    assert HasOp(s.ops, s.ops[i].id);
    AccountedMore(s, Ended(s.ops[i].id), s');
  }

  /** Commit and recovery: with no operation outstanding the whole trace may
      become stable, and cutting it back to its stable part is harmless. */
  lemma AccountedCut(s: State, s': State)
    requires Accounted(s) && s'.ops == [] && s'.stable <= |s'.trace|
    requires || (s'.trace == s.trace && (s'.stable == s.stable || s'.stable == |s.trace|) && s.ops == [])
             || (s'.trace == s.trace[..s.stable] && s'.stable == s.stable)
    ensures Accounted(s')
  {
    var k := s'.stable;
    assert s.trace[..|s.trace|] == s.trace && s'.trace[..|s'.trace|] == s'.trace;
    forall i | 0 <= i < |s'.trace| ensures OpenOrOver(s'.ops, s'.trace, i) && Over(s'.ops, s'.trace, i) {
      assert OpenOrOver(s.ops, s.trace, i);
      assert i < s.stable ==> EndsBefore(s.trace, s.stable, i);
    }
    forall i | 0 <= i < k ensures EndsBefore(s'.trace, k, i) {
      assert OpenOrOver(s.ops, s.trace, i);
      assert i < s.stable ==> EndsBefore(s.trace, s.stable, i);
    }
    forall i, j | 0 <= i < k <= j < |s'.trace| ensures Apart(s'.trace, i, j) {
      assert Apart(s.trace, i, j);
    }
  }

  /** One more event, of an operation that is outstanding or just begun. */
  lemma AccountedMore(s: State, e: Event, s': State)
    requires Accounted(s) && s'.stable == s.stable && s'.trace == s.trace + [e]
    requires HasOp(s.ops, e.op) || forall x :: x in s.trace ==> x.op != e.op
    requires forall id :: HasOp(s'.ops, id) ==> HasOp(s.ops, id) || id == e.op
    requires forall id :: HasOp(s.ops, id) ==> HasOp(s'.ops, id) || e == Ended(id)
    requires HasOp(s'.ops, e.op) || e.Ended?
    ensures Accounted(s')
  {
    var n, k := |s.trace|, s.stable;
    assert s'.trace[..k] == s.trace[..k] && s'.trace[n] == e;
    assert s'.trace[..n + 1] == s'.trace && s.trace[..n] == s.trace;
    forall i | 0 <= i < k ensures EndsBefore(s'.trace, k, i) && Over(s'.ops, s'.trace, i) && Apart(s'.trace, i, n) {
      assert EndsBefore(s.trace, k, i) && Over(s.ops, s.trace, i) && s.trace[i] in s.trace;
    }
    forall i, j | 0 <= i < k <= j < n ensures Apart(s'.trace, i, j) {
      assert Apart(s.trace, i, j);
    }
    forall i | 0 <= i < n ensures OpenOrOver(s'.ops, s'.trace, i) {
      assert OpenOrOver(s.ops, s.trace, i);
    }
  }

  // ---- the disk, the view and the trace ----------------------------------

  lemma {:induction false} WritesOfSnoc(trace: seq<Event>, e: Event)
    ensures WritesOf(trace + [e]) == WritesOf(trace) + if e.Wrote? then [Write(e.sector, e.data)] else []
  {
    assert (trace + [e])[..|trace + [e]| - 1] == trace;
  }

  lemma ReplaySnoc(d: Disk, trace: seq<Event>, e: Event)
    ensures !e.Wrote? ==> Replay(d, trace + [e]) == Replay(d, trace)
    ensures e.Wrote? && e.sector < |d| ==> Replay(d, trace + [e]) == Replay(d, trace)[e.sector := e.data]
  {
    WritesOfSnoc(trace, e);
    var ws := WritesOf(trace);
    if e.Wrote? {
      var w := Write(e.sector, e.data);
      assert (ws + [w])[..|ws + [w]| - 1] == ws;
    } else {
      assert ws + [] == ws;
    }
  }

  /** Installing the logged blocks over the base gives what the cache shows. */
  lemma InstallIsView(s: State)
    requires DiskInv(s) && TraceInv(s)
    ensures SameHome(Apply(s.base, InstallWrites(s.lh, Blocks(s.view, s.lh))), s.view, s.log)
  {
    var ws := InstallWrites(s.lh, Blocks(s.view, s.lh));
    forall b | 0 <= b < |s.view| && !s.log.Has(b) ensures Apply(s.base, ws)[b] == s.view[b] {
      if b in s.lh {
        var k :| 0 <= k < |s.lh| && s.lh[k] == b;
        ApplyLast(s.base, ws, b, k, s.view[b]);
      } else {
        ApplyFrame(s.base, ws, b);
      }
    }
  }

  /** The main invariant step by step. */
  lemma BeginInv(s: State, id: nat)
    requires Inv(s) && Enabled(s, BeginOp(id))
    ensures Inv(DoBegin(s, id))
  {
    var s' := DoBegin(s, id);
    ReservedBegin(s, id, s');
    AccountedBegin(s, id, s');
    ReplaySnoc(s.initial, s.trace, Begun(id));
    assert s'.trace[..s.stable] == s.trace[..s.stable];
  }

  lemma LogWriteTrace(s: State, i: nat, sector: nat, data: Block)
    requires DiskInv(s) && TraceInv(s) && s.done == 0 && sector < |s.view| && i < |s.ops|
    ensures TraceInv(DoLogWrite(s, i, sector, data))
  {
    var s' := DoLogWrite(s, i, sector, data);
    ReplaySnoc(s.initial, s.trace, Wrote(s.ops[i].id, sector, data));
    assert s'.trace[..s.stable] == s.trace[..s.stable];
    assert forall b :: b !in s'.lh ==> b !in s.lh && b != sector;
  }

  lemma LogWriteDisk(s: State, i: nat, sector: nat, data: Block)
    requires DiskInv(s) && sector < |s.view| && !s.log.Has(sector) && !LogFull(s) && i < |s.ops|
    ensures DiskInv(DoLogWrite(s, i, sector, data))
  {
  }

  lemma LogWriteInv(s: State, i: nat, sector: nat, data: Block)
    requires Inv(s) && Enabled(s, LogWrite(i, sector, data))
    ensures Inv(DoLogWrite(s, i, sector, data))
  {
    RemainingSplit(s.ops, i, s.budget);
    AccountedWrite(s, i, s.ops[i].(used := s.ops[i].used + 1), Wrote(s.ops[i].id, sector, data),
                   DoLogWrite(s, i, sector, data));
    LogWriteDisk(s, i, sector, data);
    LogWriteTrace(s, i, sector, data);
  }

  lemma EndInv(s: State, i: nat)
    requires Inv(s) && Enabled(s, EndOp(i))
    ensures Inv(DoEnd(s, i))
  {
    EndReserved(s, i);
    AccountedEnd(s, i, DoEnd(s, i));
    EndDisk(s, i);
    EndTrace(s, i);
  }

  lemma EndReserved(s: State, i: nat)
    requires Reserved(s) && DiskInv(s) && i < |s.ops|
    ensures Reserved(DoEnd(s, i))
  {
    RemainingSplit(s.ops, i, s.budget);
  }

  lemma EndDisk(s: State, i: nat)
    requires DiskInv(s) && i < |s.ops|
    ensures DiskInv(DoEnd(s, i))
  {
    assert !s.committing && s.disk == Apply(s.base, []) == s.base;
    assert DoEnd(s, i).pending[..0] == [];
  }

  lemma EndTrace(s: State, i: nat)
    requires DiskInv(s) && TraceInv(s) && i < |s.ops|
    ensures TraceInv(DoEnd(s, i))
  {
    var s' := DoEnd(s, i);
    assert s.pending == [] && s.disk == Apply(s.base, []) == s.base;
    ReplaySnoc(s.initial, s.trace, Ended(s.ops[i].id));
    assert s'.trace[..s.stable] == s.trace[..s.stable];
  }

  lemma CommitWriteInv(s: State)
    requires Inv(s) && Enabled(s, CommitWrite)
    ensures Inv(DoCommitWrite(s))
  {
    AccountedCut(s, DoCommitWrite(s));
    CommitWriteDisk(s);
    CommitWriteTrace(s);
  }

  lemma CommitWriteDisk(s: State)
    requires DiskInv(s) && s.done < |s.pending|
    ensures DiskInv(DoCommitWrite(s))
  {
    assert s.pending[..s.done + 1] == s.pending[..s.done] + [s.pending[s.done]];
    ApplyConcat(s.base, s.pending[..s.done], [s.pending[s.done]]);
  }

  lemma CommitWriteTrace(s: State)
    requires TraceInv(s) && s.done < |s.pending|
    ensures TraceInv(DoCommitWrite(s))
  {
  }

  lemma CommitDoneInv(s: State)
    requires Inv(s) && Enabled(s, CommitDone)
    ensures Inv(DoCommitDone(s))
  {
    AccountedCut(s, DoCommitDone(s));
    CommitDoneDisk(s);
    assert s.trace[..|s.trace|] == s.trace;
  }

  lemma CommitDoneDisk(s: State)
    requires DiskInv(s) && TraceInv(s) && s.committing && s.done == |s.pending|
    ensures DiskInv(DoCommitDone(s)) && SameHome(s.disk, s.view, s.log)
  {
    assert s.pending[..s.done] == s.pending;
    if s.lh != [] {
      CommitComplete(s.base, s.log, s.lh, Blocks(s.view, s.lh));
      InstallIsView(s);
    }
  }

  lemma CrashInv(s: State, js: seq<nat>)
    requires Inv(s)
    ensures Sane(s.disk, s.log) && Inv(DoCrash(s, js))
  {
    CrashConsistent(s, js);
    AccountedCut(s, DoCrash(s, js));
    var d := CrashyRecovery(s.disk, s.log, js);
    RecoveredBlocks(d, s.log);
    CrashTrace(s, DoCrash(s, js));
  }

  lemma CrashTrace(s: State, s': State)
    requires s.stable <= |s.trace| && SameHome(s'.disk, Replay(s.initial, s.trace[..s.stable]), s.log)
    requires s' == State(s.log, s.budget, s'.disk, s'.disk, [], [], false, [], 0, s'.disk, s.initial,
                         s.trace[..s.stable], s.stable)
    ensures TraceInv(s')
  {
    assert s'.trace[..s'.stable] == s.trace[..s.stable];
  }

  /** A crash at this very moment, however often recovery is itself cut short,
      leaves the result of the stable part of the trace: whole operations only,
      in order. */
  lemma CrashConsistent(s: State, js: seq<nat>)
    requires Inv(s)
    ensures Sane(s.disk, s.log) && WholeOps(s.trace, s.stable)
    ensures SameHome(Recovered(CrashyRecovery(s.disk, s.log, js), s.log), Replay(s.initial, s.trace[..s.stable]), s.log)
  {
    InvSane(s);
    if s.committing {
      CrashAtomicity(s.base, s.log, s.lh, Blocks(s.view, s.lh), s.done, js);
      InstallIsView(s);
      assert s.trace[..|s.trace|] == s.trace;
    } else {
      RecoveredClear(s.disk, s.log);
      ManyRecoveryCrashes(s.disk, s.log, js);
    }
  }

  /** What no step changes. */
  predicate Same(s: State, s': State) {
    s'.log == s.log && s'.budget == s.budget && s'.initial == s.initial
  }

  lemma StepInv(s: State, step: Step)
    requires Inv(s) && Enabled(s, step)
    ensures Inv(Next(s, step)) && Same(s, Next(s, step))
  {
    match step
    case BeginOp(id) => BeginInv(s, id);
    case LogWrite(i, sector, data) => LogWriteInv(s, i, sector, data);
    case EndOp(i) => EndInv(s, i);
    case CommitWrite => CommitWriteInv(s);
    case CommitDone => CommitDoneInv(s);
    case CrashRecover(js) => CrashInv(s, js);
  }

  // ---- whole runs --------------------------------------------------------

  /** A finite run: the steps taken, the last one outermost. */
  datatype Schedule = Start | Then(before: Schedule, step: Step)

  ghost predicate Legal(s: State, steps: Schedule)
    requires Inv(s)
    decreases steps, 0
  {
    steps.Start? || (Legal(s, steps.before) && Enabled(Run(s, steps.before), steps.step))
  }

  /** The state after any interleaving of the critical sections, commit writes
      and crashes. */
  ghost function Run(s: State, steps: Schedule): (s': State)
    requires Inv(s) && Legal(s, steps)
    ensures Inv(s') && Same(s, s')
    decreases steps, 1
  {
    if steps.Start? then s
    else
      var before := Run(s, steps.before);
      StepInv(before, steps.step);
      Next(before, steps.step)
  }

  /** Every crash of every run recovers to the result of whole operations. */
  lemma RunsRecover(d: Disk, log: Region, budget: nat, steps: Schedule, js: seq<nat>)
    requires Sane(d, log) && HeaderCount(d[log.start]) == 0
    requires Inv(Boot(d, log, budget)) && Legal(Boot(d, log, budget), steps)
    ensures var s := Run(Boot(d, log, budget), steps);
            Sane(s.disk, log) && WholeOps(s.trace, s.stable) &&
            SameHome(Recovered(CrashyRecovery(s.disk, log, js), log), Replay(d, s.trace[..s.stable]), log)
  {
    CrashConsistent(Run(Boot(d, log, budget), steps), js);
  }

  /** Once end_op's commit is through, nothing that ended can be lost. */
  lemma Durable(s: State, js: seq<nat>)
    requires Inv(s) && !s.committing && s.lh == []
    ensures Sane(s.disk, s.log)
    ensures SameHome(Recovered(CrashyRecovery(s.disk, s.log, js), s.log), Replay(s.initial, s.trace), s.log)
  {
    CrashConsistent(s, js);
  }

  /** No commit while an operation is outstanding, hence neither panic of end_op
      and log_write about transactions; and an operation that keeps to its
      budget finds room in the header, and in a log big enough for it. */
  lemma NoPanic(s: State, i: nat)
    requires Inv(s) && i < |s.ops|
    ensures !s.committing
    ensures s.ops[i].used < s.budget <= MAXOPBLOCKS ==> |s.lh| < Most(s.budget) <= LOGSIZE
    ensures s.ops[i].used < s.budget <= MAXOPBLOCKS && s.log.size > Most(s.budget) ==> !LogFull(s)
  {
    RemainingSplit(s.ops, i, s.budget);
    RemainingBounds(Remove(s.ops, i), s.budget);
  }

  /** Home sectors change on disk only when commit installs, after its header
      write, or when recovery replays. */
  lemma HomeChangesOnlyInInstall(s: State, step: Step)
    requires Inv(s) && Enabled(s, step) && !step.CrashRecover?
    requires !SameHome(s.disk, Next(s, step).disk, s.log)
    ensures step.CommitWrite? && |s.lh| < s.done <= 2 * |s.lh| && s.stable == |s.trace|
  {
    if step.CommitWrite? {
      var w := s.pending[s.done];
      assert [w][..0] == [];
      assert Apply(s.disk, [w]) == if w.sector < |s.disk| then s.disk[w.sector := w.data] else s.disk;
    }
  }

  // ---- the space panic ----------------------------------------------------

  /** A log_write that panics although its operation is within its budget. */
  ghost predicate SpacePanic(s: State) {
    LogFull(s) && exists i :: 0 <= i < |s.ops| && s.ops[i].used < s.budget
  }

  ghost predicate RunsIntoPanic(s0: State, steps: Schedule)
    requires Inv(s0)
  {
    Legal(s0, steps) && SpacePanic(Run(s0, steps))
  }

  lemma NoSpacePanic(s: State)
    requires Inv(s) && (s.budget == 0 || (s.budget <= MAXOPBLOCKS && s.log.size > Most(s.budget)))
    ensures !SpacePanic(s)
  {
    forall i | 0 <= i < |s.ops| && s.ops[i].used < s.budget ensures !LogFull(s) {
      NoPanic(s, i);
    }
  }

  /** Nothing has happened yet. */
  predicate Idle(s: State) {
    s.lh == [] && s.ops == [] && !s.committing && s.trace == []
  }

  /** The entries at which log_write panics. */
  function Room(log: Region): int {
    if log.size - 1 < LOGSIZE then log.size - 1 else LOGSIZE
  }

  /** Sectors 0 up to m are logged; operations up to id k have been seen. */
  ghost predicate Logged(s: State, m: nat, k: nat) {
    !s.committing && |s.lh| == m && (forall x :: x in s.lh ==> x < m) && forall e :: e in s.trace ==> e.op <= k
  }

  /** First, operation 0 waits while others come, write one block and go. */
  ghost predicate Solo(s: State, m: nat) {
    m <= MAXOPBLOCKS && s.ops == [Op(0, 0)] && Logged(s, m, m)
  }

  lemma LogNext(s: State, i: nat, m: nat, k: nat)
    requires Logged(s, m, k) && i < |s.ops| && m < |s.view| && s.ops[i].id <= k
    ensures Logged(DoLogWrite(s, i, m, s.view[m]), m + 1, k)
  {
    assert m !in s.lh;
  }

  lemma SizesMatch(s: State)
    requires DiskInv(s)
    ensures |s.disk| == |s.view| && s.log.start + s.log.size <= |s.view|
  {
  }

  lemma Extend(s0: State, front: Schedule, step: Step) returns (steps: Schedule)
    requires Inv(s0) && Legal(s0, front) && Enabled(Run(s0, front), step)
    ensures Legal(s0, steps) && Run(s0, steps) == Next(Run(s0, front), step)
  {
    steps := Then(front, step);
  }

  /** One such operation has begun; n is what it has written. */
  ghost predicate Duo(s: State, m: nat, n: nat) {
    m < MAXOPBLOCKS && s.ops == [Op(0, 0), Op(m + 1, n)] && Logged(s, m + n, m + 1)
  }

  lemma DuoBegin(s: State, m: nat)
    requires Solo(s, m) && m < MAXOPBLOCKS
    ensures Enabled(s, BeginOp(m + 1)) && Duo(DoBegin(s, m + 1), m, 0)
  {
  }

  lemma DuoWrite(s: State, m: nat)
    requires Duo(s, m, 0) && m < Room(s.log) <= s.log.start && DiskInv(s) && s.budget > 0
    ensures |s.disk| == |s.view| && m < |s.view|
    ensures Enabled(s, LogWrite(1, m, s.view[m])) && Duo(DoLogWrite(s, 1, m, s.view[m]), m, 1)
  {
    SizesMatch(s);
    LogNext(s, 1, m, m + 1);
  }

  lemma DuoEnd(s: State, m: nat)
    requires Duo(s, m, 1) && DiskInv(s)
    ensures Enabled(s, EndOp(1)) && Solo(DoEnd(s, 1), m + 1)
  {
    assert Remove(s.ops, 1) == [Op(0, 0)];
  }

  lemma SoloStep(s0: State, front: Schedule, m: nat) returns (steps: Schedule)
    requires Inv(s0) && Legal(s0, front) && Solo(Run(s0, front), m) && m < MAXOPBLOCKS
    requires m < Room(s0.log) <= s0.log.start && s0.budget > 0
    ensures Legal(s0, steps) && Solo(Run(s0, steps), m + 1)
  {
    DuoBegin(Run(s0, front), m);
    steps := Extend(s0, front, BeginOp(m + 1));
    var s := Run(s0, steps);
    DuoWrite(s, m);
    steps := Extend(s0, steps, LogWrite(1, m, s.view[m]));
    DuoEnd(Run(s0, steps), m);
    steps := Extend(s0, steps, EndOp(1));
  }

  lemma {:induction false} FillSolo(s0: State, m: nat) returns (steps: Schedule)
    requires Inv(s0) && Idle(s0) && m <= MAXOPBLOCKS && m <= Room(s0.log) <= s0.log.start && s0.budget > 0
    ensures Legal(s0, steps) && Solo(Run(s0, steps), m)
  {
    if m == 0 {
      steps := Extend(s0, Start, BeginOp(0));
    } else {
      var front := FillSolo(s0, m - 1);
      steps := SoloStep(s0, front, m - 1);
    }
  }

  /** Then one more operation comes, while there is just room for it, and both
      use up their budgets, the newcomer first. */
  ghost predicate Pair(s: State, m: nat) {
    && MAXOPBLOCKS <= m <= Most(s.budget) && Logged(s, m, MAXOPBLOCKS + 1)
    && |s.ops| == 2 && s.ops[0].id == 0 && s.ops[1].id == MAXOPBLOCKS + 1
    && s.ops[1].used == First(s.budget, m) && s.ops[0].used == m - MAXOPBLOCKS - First(s.budget, m)
  }

  function First(budget: nat, m: nat): nat
    requires MAXOPBLOCKS <= m
  {
    if m - MAXOPBLOCKS < budget then m - MAXOPBLOCKS else budget
  }

  lemma PairStep(s: State, m: nat) returns (step: Step)
    requires m > 0 && Pair(s, m - 1) && m <= Room(s.log) <= s.log.start && m <= Most(s.budget) && Inv(s)
    ensures Enabled(s, step) && Pair(Next(s, step), m)
  {
    SizesMatch(s);
    var i := if m - 1 - MAXOPBLOCKS < s.budget then 1 else 0;
    LogNext(s, i, m - 1, MAXOPBLOCKS + 1);
    step := LogWrite(i, m - 1, s.view[m - 1]);
  }

  lemma PairBegin(s: State)
    requires Solo(s, MAXOPBLOCKS)
    ensures Enabled(s, BeginOp(MAXOPBLOCKS + 1)) && Pair(DoBegin(s, MAXOPBLOCKS + 1), MAXOPBLOCKS)
  {
  }

  lemma PairStart(s0: State) returns (steps: Schedule)
    requires Inv(s0) && Idle(s0) && MAXOPBLOCKS <= Room(s0.log) <= s0.log.start && s0.budget > 0
    ensures Legal(s0, steps) && Pair(Run(s0, steps), MAXOPBLOCKS)
  {
    steps := FillSolo(s0, MAXOPBLOCKS);
    PairBegin(Run(s0, steps));
    steps := Extend(s0, steps, BeginOp(MAXOPBLOCKS + 1));
  }

  lemma PairOn(s0: State, front: Schedule, m: nat) returns (steps: Schedule)
    requires m > 0 && Inv(s0) && Legal(s0, front) && Pair(Run(s0, front), m - 1)
    requires m <= Room(s0.log) <= s0.log.start && m <= Most(s0.budget)
    ensures Legal(s0, steps) && Pair(Run(s0, steps), m)
  {
    var step := PairStep(Run(s0, front), m);
    steps := Extend(s0, front, step);
  }

  lemma {:induction false} FillPair(s0: State, m: nat) returns (steps: Schedule)
    requires Inv(s0) && Idle(s0) && MAXOPBLOCKS <= m <= Most(s0.budget)
    requires m <= Room(s0.log) <= s0.log.start && s0.budget > 0
    ensures Legal(s0, steps) && Pair(Run(s0, steps), m)
    decreases m
  {
    if m == MAXOPBLOCKS {
      steps := PairStart(s0);
    } else {
      steps := FillPair(s0, m - 1);
      steps := PairOn(s0, steps, m);
    }
  }

  /** Operations within their budgets do run into the panic: if the log is too
      small for the reservation, and whatever its size if the budget exceeds
      MAXOPBLOCKS. */
  lemma SpacePanicReachable(s0: State) returns (steps: Schedule)
    requires Inv(s0) && Idle(s0) && Room(s0.log) <= s0.log.start
    requires s0.budget > MAXOPBLOCKS || (s0.budget > 0 && s0.log.size <= Most(s0.budget))
    ensures RunsIntoPanic(s0, steps)
  {
    var m := Room(s0.log);
    SizesMatch(s0);
    if m <= MAXOPBLOCKS {
      steps := FillSolo(s0, m);
      assert Run(s0, steps).ops[0].used < s0.budget;
    } else {
      steps := FillPair(s0, m);
      var s := Run(s0, steps);
      assert s.ops[if m - MAXOPBLOCKS < s.budget then 1 else 0].used < s.budget;
    }
  }

  /** So exactly then; with a budget of MAXOPBLOCKS, exactly if the log has no
      more than LOGSIZE sectors. */
  lemma SpacePanicExactly(s0: State)
    requires Inv(s0) && Idle(s0) && Room(s0.log) <= s0.log.start
    ensures (exists steps: Schedule :: RunsIntoPanic(s0, steps)) <==>
            s0.budget > MAXOPBLOCKS || (s0.budget > 0 && s0.log.size <= Most(s0.budget))
    ensures Most(MAXOPBLOCKS) == LOGSIZE
  {
    if s0.budget > MAXOPBLOCKS || (s0.budget > 0 && s0.log.size <= Most(s0.budget)) {
      var steps := SpacePanicReachable(s0);
    } else {
      forall steps: Schedule ensures !RunsIntoPanic(s0, steps) {
        if Legal(s0, steps) {
          NoSpacePanic(Run(s0, steps));
        }
      }
    }
  }

  // ---- three big operations --------------------------------------------------

  /** What operation i has logged, if three together log m blocks and each stops
      at b. */
  function Share(b: nat, m: nat, i: nat): nat {
    if m <= i * b then 0 else if m - i * b < b then m - i * b else b
  }

  /** Three operations have begun before any has logged a block; one after the
      other they log b different blocks each. */
  ghost predicate Trio(s: State, b: nat, m: nat) {
    && MAXOPBLOCKS < b <= s.budget && m <= LOGSIZE && Logged(s, m, 2)
    && s.ops == [Op(0, Share(b, m, 0)), Op(1, Share(b, m, 1)), Op(2, Share(b, m, 2))]
  }

  /** Operations 0 up to n have begun, and nothing is logged. */
  ghost predicate Begin(s: State, n: nat) {
    && n <= 3 && s.lh == [] && !s.committing && |s.ops| == n && (forall e :: e in s.trace ==> e.op < n)
    && forall i :: 0 <= i < n ==> s.ops[i] == Op(i, 0)
  }

  lemma BeginNext(s: State, n: nat)
    requires Begin(s, n) && n < 3
    ensures Enabled(s, BeginOp(n)) && Begin(DoBegin(s, n), n + 1)
  {
  }

  lemma {:induction false} BeginAll(s0: State, n: nat) returns (steps: Schedule)
    requires Inv(s0) && Idle(s0) && n <= 3
    ensures Legal(s0, steps) && Begin(Run(s0, steps), n)
  {
    if n == 0 {
      steps := Start;
    } else {
      steps := BeginAll(s0, n - 1);
      BeginNext(Run(s0, steps), n - 1);
      steps := Extend(s0, steps, BeginOp(n - 1));
    }
  }

  lemma TrioStep(s: State, b: nat, m: nat) returns (step: Step)
    requires Inv(s) && Trio(s, b, m) && m < Room(s.log) <= s.log.start
    ensures Enabled(s, step) && Trio(Next(s, step), b, m + 1)
  {
    SizesMatch(s);
    var i := if m < b then 0 else if m < 2 * b then 1 else 2;
    LogNext(s, i, m, 2);
    step := LogWrite(i, m, s.view[m]);
  }

  lemma TrioBegin(s: State, b: nat)
    requires Begin(s, 3) && MAXOPBLOCKS < b <= s.budget
    ensures Trio(s, b, 0)
  {
  }

  lemma TrioOn(s0: State, front: Schedule, b: nat, m: nat) returns (steps: Schedule)
    requires Inv(s0) && Legal(s0, front) && Trio(Run(s0, front), b, m) && m < Room(s0.log) <= s0.log.start
    ensures Legal(s0, steps) && Trio(Run(s0, steps), b, m + 1)
  {
    var step := TrioStep(Run(s0, front), b, m);
    steps := Extend(s0, front, step);
  }

  lemma {:induction false} FillTrio(s0: State, b: nat, m: nat) returns (steps: Schedule)
    requires Inv(s0) && Idle(s0) && MAXOPBLOCKS < b <= s0.budget && m <= Room(s0.log) <= s0.log.start
    ensures Legal(s0, steps) && Trio(Run(s0, steps), b, m)
  {
    if m == 0 {
      steps := BeginAll(s0, 3);
      TrioBegin(Run(s0, steps), b);
    } else {
      steps := FillTrio(s0, b, m - 1);
      steps := TrioOn(s0, steps, b, m - 1);
    }
  }

  /** Three operations that each log more than MAXOPBLOCKS blocks, with nothing
      logged before them, run into the panic whatever the size of the log. */
  lemma ThreePanic(s0: State, b: nat) returns (steps: Schedule)
    requires Inv(s0) && Idle(s0) && MAXOPBLOCKS < b <= s0.budget && 0 <= Room(s0.log) <= s0.log.start
    ensures RunsIntoPanic(s0, steps) && Trio(Run(s0, steps), b, Room(s0.log))
  {
    steps := FillTrio(s0, b, Room(s0.log));
    assert Run(s0, steps).ops[2].used < b;
  }

  // ---- a commit of LOGSIZE blocks ------------------------------------------

  /** A commit that starts with as many blocks as there are buffers. */
  ghost predicate FullCommit(s: State) {
    s.committing && |s.lh| == LOGSIZE
  }

  ghost predicate RunsIntoFull(s0: State, steps: Schedule)
    requires Inv(s0)
  {
    Legal(s0, steps) && FullCommit(Run(s0, steps))
  }

  lemma FullLater(s: State)
    requires Inv(s) && Pair(s, LOGSIZE)
    ensures Enabled(s, EndOp(1)) && Inv(DoEnd(s, 1)) && Enabled(DoEnd(s, 1), EndOp(0))
    ensures FullCommit(DoEnd(DoEnd(s, 1), 0))
  {
    EndInv(s, 1);
  }

  lemma FullReachable(s0: State) returns (steps: Schedule)
    requires Inv(s0) && Idle(s0) && Room(s0.log) <= s0.log.start
    requires s0.log.size > LOGSIZE && s0.budget >= MAXOPBLOCKS
    ensures RunsIntoFull(s0, steps)
  {
    steps := FillPair(s0, LOGSIZE);
    FullLater(Run(s0, steps));
    steps := Extend(s0, steps, EndOp(1));
    steps := Extend(s0, steps, EndOp(0));
  }

  /** Operations fill a transaction to LOGSIZE blocks exactly if the log has more
      than LOGSIZE sectors and they may make MAXOPBLOCKS calls each. */
  lemma FullExactly(s0: State)
    requires Inv(s0) && Idle(s0) && Room(s0.log) <= s0.log.start
    ensures (exists steps: Schedule :: RunsIntoFull(s0, steps)) <==> s0.log.size > LOGSIZE && s0.budget >= MAXOPBLOCKS
  {
    if s0.log.size > LOGSIZE && s0.budget >= MAXOPBLOCKS {
      var steps := FullReachable(s0);
    } else {
      forall steps: Schedule ensures !RunsIntoFull(s0, steps) {
        if Legal(s0, steps) {
          var s := Run(s0, steps);
          assert s.committing ==> s.ops == [] && |s.lh| <= s.log.size - 1;
        }
      }
    }
  }
}

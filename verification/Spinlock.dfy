/** Spin locks (spinlock.c): every interleaving of the instructions of acquire and
    release on any number of processors, and the nesting of pushcli and popcli. */
module Spinlock {
  /** Where a processor is in acquire or release: outside; about to xchg; having
      won the xchg but not yet stored lk->cpu; holding; having cleared lk->cpu but
      not yet lk->locked. */
  datatype Pc = Outside | Spinning | Won | Holds | Leaving

  /** lk->locked, lk->cpu (-1 for none), and each processor's place. */
  datatype State = State(locked: bool, owner: int, pcs: seq<Pc>)

  datatype Step = Enter(c: nat) | Xchg(c: nat) | SetCpu(c: nat) | ClearCpu(c: nat) | Unlock(c: nat)

  /** holding(lk) as processor c evaluates it (spinlock.c:87-91). */
  predicate Holding(s: State, c: nat) {
    s.locked && s.owner == c
  }

  /** acquire panics if the lock is held, release unless it is; otherwise each
      instruction can be executed when its turn comes. */
  predicate Enabled(s: State, e: Step) {
    e.c < |s.pcs| && match e
      case Enter(c) => s.pcs[c] == Outside && !Holding(s, c)
      case Xchg(c) => s.pcs[c] == Spinning
      case SetCpu(c) => s.pcs[c] == Won
      case ClearCpu(c) => s.pcs[c] == Holds && Holding(s, c)
      case Unlock(c) => s.pcs[c] == Leaving
  }

  function Next(s: State, e: Step): State
    requires Enabled(s, e)
  {
    match e
    case Enter(c) => s.(pcs := s.pcs[c := Spinning])
    case Xchg(c) => if s.locked then s else s.(locked := true, pcs := s.pcs[c := Won])
    case SetCpu(c) => s.(owner := c, pcs := s.pcs[c := Holds])
    case ClearCpu(c) => s.(owner := -1, pcs := s.pcs[c := Leaving])
    case Unlock(c) => s.(locked := false, pcs := s.pcs[c := Outside])
  }

  function Init(n: nat): State {
    State(false, -1, seq(n, _ => Outside))
  }

  datatype Schedule = Start | Then(before: Schedule, step: Step)

  ghost predicate Legal(n: nat, h: Schedule)
    decreases h, 0
  {
    h.Then? ==> Legal(n, h.before) && Enabled(Run(n, h.before), h.step)
  }

  ghost function Run(n: nat, h: Schedule): State
    requires Legal(n, h)
    decreases h, 1
  {
    if h.Start? then Init(n) else Next(Run(n, h.before), h.step)
  }

  predicate Inside(p: Pc) {
    p == Won || p == Holds || p == Leaving
  }

  ghost predicate Inv(s: State) {
    && (forall c, d :: 0 <= c < |s.pcs| && 0 <= d < |s.pcs| && Inside(s.pcs[c]) && Inside(s.pcs[d]) ==> c == d)
    && (s.locked <==> exists c :: 0 <= c < |s.pcs| && Inside(s.pcs[c]))
    && (forall c :: 0 <= c < |s.pcs| ==> (s.owner == c <==> s.pcs[c] == Holds))
    && -1 <= s.owner < |s.pcs|
  }

  lemma StepInv(s: State, e: Step)
    requires Inv(s) && Enabled(s, e)
    ensures Inv(Next(s, e))
  {
    var s', c := Next(s, e), e.c;
    assert forall d :: 0 <= d < |s.pcs| && d != c ==> s'.pcs[d] == s.pcs[d];
    if Inside(s'.pcs[c]) {
      assert s'.locked;
    } else if Inside(s.pcs[c]) {
      assert !s'.locked && forall d :: 0 <= d < |s.pcs| ==> !Inside(s'.pcs[d]);
    } else if s.locked {
      var d :| 0 <= d < |s.pcs| && Inside(s.pcs[d]);
      assert Inside(s'.pcs[d]);
    }
  }

  lemma {:induction false} RunInv(n: nat, h: Schedule)
    requires Legal(n, h)
    ensures Inv(Run(n, h)) && |Run(n, h).pcs| == n
  {
    if h.Then? {
      RunInv(n, h.before);
      StepInv(Run(n, h.before), h.step);
    }
  }

  /** At most one processor is between its xchg and the one that releases. */
  lemma MutualExclusion(n: nat, h: Schedule, c: nat, d: nat)
    requires Legal(n, h) && c < n && d < n
    ensures |Run(n, h).pcs| == n
    ensures Inside(Run(n, h).pcs[c]) && Inside(Run(n, h).pcs[d]) ==> c == d
  {
    RunInv(n, h);
  }

  /** holding is exact: true for the processor that holds the lock and no other.
      So acquire panics only on a lock its processor holds, release never on
      one it holds. */
  lemma HoldingExact(n: nat, h: Schedule, c: nat)
    requires Legal(n, h) && c < n
    ensures |Run(n, h).pcs| == n
    ensures Holding(Run(n, h), c) <==> Run(n, h).pcs[c] == Holds
  {
    RunInv(n, h);
    var s := Run(n, h);
    if s.pcs[c] == Holds {
      assert Inside(s.pcs[c]);
    }
  }

  /** No other processor changes what c finds, so it does not matter that holding
      reads the two fields one after the other. */
  lemma HoldingStable(s: State, e: Step, c: nat)
    requires Inv(s) && Enabled(s, e) && c < |s.pcs| && e.c != c
    ensures (Next(s, e).owner == c <==> s.owner == c) && (s.owner == c ==> s.locked && Next(s, e).locked)
  {
    if s.owner == c {
      assert Inside(s.pcs[c]);
    }
  }

  /* Nesting of pushcli and popcli (spinlock.c:94-118). */

  datatype Irq = Push | Pop

  /** The depth after a run of them, or -1 if popcli would panic. */
  function Depth(ops: seq<Irq>): int {
    if |ops| == 0 then 0
    else
      var d := Depth(ops[..|ops| - 1]);
      if d < 0 then -1 else if ops[|ops| - 1] == Push then d + 1 else d - 1
  }

  class Cpu {
    var ncli: int
    var intena: bool
    /** The interrupt flag, FL_IF. */
    var enabled: bool
    /** The calls since ncli was last known to be 0, and the flag then. */
    ghost var ops: seq<Irq>
    ghost var first: bool

    ghost predicate Valid()
      reads this
    {
      && ncli == Depth(ops) && 0 <= ncli
      && (ncli > 0 ==> !enabled && intena == first)
      && (ncli == 0 ==> enabled == first)
    }

    constructor (enabled: bool)
      ensures Valid() && ops == [] && ncli == 0 && this.enabled == first == enabled
    {
      ncli, intena, this.enabled, ops, first := 0, false, enabled, [], enabled;
    }

    method Pushcli()
      requires Valid()
      modifies this
      ensures Valid() && ops == old(ops) + [Push] && first == old(first) && ncli == old(ncli) + 1 && !enabled
    {
      var eflags := enabled;
      enabled := false;
      if ncli == 0 {
        intena := eflags;
      }
      ncli := ncli + 1;
      ops := ops + [Push];
      assert ops[..|ops| - 1] == old(ops);
    }

    /** Neither of its panics happens while pushes outnumber pops. */
    method Popcli()
      requires Valid() && ncli > 0
      modifies this
      ensures Valid() && ops == old(ops) + [Pop] && first == old(first) && ncli == old(ncli) - 1
      ensures ncli == 0 ==> enabled == first
    {
      ncli := ncli - 1;
      if ncli == 0 && intena {
        enabled := true;
      }
      ops := ops + [Pop];
      assert ops[..|ops| - 1] == old(ops);
    }

    /** Any run of calls in which pops never outnumber pushes leaves interrupts
        off while it is unbalanced and as they were once it is balanced. */
    method RunAll(calls: seq<Irq>)
      requires Valid() && ncli == 0 && ops == [] && forall i :: 0 <= i <= |calls| ==> Depth(calls[..i]) >= 0
      modifies this
      ensures Valid() && ops == calls && first == old(first) && ncli == Depth(calls)
      ensures enabled == (old(enabled) && Depth(calls) == 0)
    {
      var i := 0;
      while i < |calls|
        invariant 0 <= i <= |calls| && Valid() && ops == calls[..i] && first == old(first)
      {
        assert calls[..i + 1][..i] == calls[..i] && calls[..i + 1] == calls[..i] + [calls[i]];
        assert Depth(calls[..i + 1]) >= 0;
        if calls[i] == Push {
          Pushcli();
        } else {
          Popcli();
        }
        i := i + 1;
      }
      assert calls[..|calls|] == calls;
    }
  }
}

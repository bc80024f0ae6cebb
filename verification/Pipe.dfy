/** Kernel pipes (pipe.c): a 512-byte ring indexed by two free-running 32-bit
    counters.  A run of the locked sections of pipewrite and piperead, in any
    interleaving, delivers the accepted bytes in order. */
module Pipe {
  import opened Common

  const PIPESIZE: nat := 512

  /** The ring as a value: the buffer and the two wrapping counters. */
  datatype Ring = Ring(data: seq<char>, nread: nat, nwrite: nat) {
    /** Bytes between the counters, in 32-bit arithmetic. */
    function InFlight(): nat {
      (nwrite - nread) % UINT_MOD
    }

    /** Where the k-th pending byte lives. */
    function Slot(k: nat): nat {
      (nread + k) % PIPESIZE
    }

    ghost predicate Valid() {
      |data| == PIPESIZE && nread < UINT_MOD && nwrite < UINT_MOD && InFlight() <= PIPESIZE
    }

    /** The bytes still to be delivered, oldest first. */
    ghost function Pending(): seq<char>
      requires Valid()
    {
      seq(InFlight(), k requires 0 <= k < InFlight() => data[Slot(k)])
    }

    predicate Full() {
      nwrite == (nread + PIPESIZE) % UINT_MOD
    }
  }

  datatype Op = PutByte(c: char) | GetByte

  function Apply(r: Ring, op: Op): Ring
    requires |r.data| == PIPESIZE
  {
    match op
    case PutByte(c) => r.(data := r.data[r.nwrite % PIPESIZE := c], nwrite := (r.nwrite + 1) % UINT_MOD)
    case GetByte => r.(nread := (r.nread + 1) % UINT_MOD)
  }

  /** The tests that guard the two byte copies. */
  predicate Enabled(r: Ring, op: Op) {
    match op
    case PutByte(_) => !r.Full()
    case GetByte => r.nread != r.nwrite
  }

  function Run(r: Ring, ops: seq<Op>): (r': Ring)
    requires |r.data| == PIPESIZE
    ensures |r'.data| == PIPESIZE
  {
    if ops == [] then r else Apply(Run(r, ops[..|ops| - 1]), ops[|ops| - 1])
  }

  ghost predicate Legal(r: Ring, ops: seq<Op>)
    requires |r.data| == PIPESIZE
  {
    ops == [] || (Legal(r, ops[..|ops| - 1]) && Enabled(Run(r, ops[..|ops| - 1]), ops[|ops| - 1]))
  }

  /** The bytes writers put in, in order. */
  ghost function Accepted(ops: seq<Op>): seq<char> {
    if ops == [] then [] else
      Accepted(ops[..|ops| - 1]) + (match ops[|ops| - 1] case PutByte(c) => [c] case GetByte => [])
  }

  /** The bytes readers copied out of the buffer, in order. */
  ghost function Returned(r: Ring, ops: seq<Op>): seq<char>
    requires |r.data| == PIPESIZE
  {
    if ops == [] then [] else
      var before := Run(r, ops[..|ops| - 1]);
      Returned(r, ops[..|ops| - 1]) +
      (match ops[|ops| - 1] case PutByte(_) => [] case GetByte => [before.data[before.nread % PIPESIZE]])
  }

  lemma FullMeansFull(r: Ring)
    requires r.Valid()
    ensures r.Full() <==> r.InFlight() == PIPESIZE
    ensures r.nread == r.nwrite <==> r.InFlight() == 0
  {
  }

  /** 32-bit arithmetic wraps at most once between the counters. */
  lemma Counters(r: Ring)
    requires r.Valid()
    ensures r.nwrite == r.nread + r.InFlight() || r.nwrite == r.nread + r.InFlight() - UINT_MOD
  {
  }

  lemma SlotsDiffer(a: nat, k: nat, n: nat)
    requires k < n < PIPESIZE
    ensures (a + k) % PIPESIZE != (a + n) % PIPESIZE
  {
    assert (a + n) - (a + k) < PIPESIZE;
  }

  /** The slot a store uses is the one after the pending bytes, and none of
      theirs, also when a counter has wrapped: 512 divides 2^32. */
  lemma NextSlot(r: Ring)
    requires r.Valid() && !r.Full()
    ensures r.InFlight() < PIPESIZE && r.nwrite % PIPESIZE == r.Slot(r.InFlight())
    ensures forall k :: 0 <= k < r.InFlight() ==> r.Slot(k) != r.nwrite % PIPESIZE
  {
    FullMeansFull(r);
    Counters(r);
    var n := r.InFlight();
    assert r.nread + n == r.nwrite || r.nread + n == r.nwrite + PIPESIZE * 0x80_0000;
    forall k | 0 <= k < n ensures r.Slot(k) != r.Slot(n) {
      SlotsDiffer(r.nread, k, n);
    }
  }

  /** Storing a byte appends it to the pending bytes and disturbs no other. */
  lemma PutAppends(r: Ring, c: char)
    requires r.Valid() && Enabled(r, PutByte(c))
    ensures var r' := Apply(r, PutByte(c)); r'.Valid() && r'.Pending() == r.Pending() + [c]
  {
    var r', n := Apply(r, PutByte(c)), r.InFlight();
    NextSlot(r);
    OneMore(r);
    forall k | 0 <= k <= n ensures r'.data[r'.Slot(k)] == (r.Pending() + [c])[k] {
    }
  }

  lemma OneMore(r: Ring)
    requires r.Valid() && r.InFlight() < PIPESIZE
    ensures ((r.nwrite + 1) % UINT_MOD - r.nread) % UINT_MOD == r.InFlight() + 1
  {
    Counters(r);
  }

  lemma NextRead(a: nat, k: nat)
    requires a < UINT_MOD
    ensures ((a + 1) % UINT_MOD + k) % PIPESIZE == (a + (k + 1)) % PIPESIZE
  {
    if a + 1 == UINT_MOD {
      assert a + (k + 1) == k + PIPESIZE * 0x80_0000;
    }
  }

  lemma OneLess(r: Ring)
    requires r.Valid() && r.InFlight() > 0
    ensures (r.nwrite - (r.nread + 1) % UINT_MOD) % UINT_MOD == r.InFlight() - 1
  {
    Counters(r);
  }

  lemma GetRemoves(r: Ring)
    requires r.Valid() && Enabled(r, GetByte)
    ensures Apply(r, GetByte).Valid()
    ensures r.Pending() == [r.data[r.nread % PIPESIZE]] + Apply(r, GetByte).Pending()
  {
    var r' := Apply(r, GetByte);
    FullMeansFull(r);
    OneLess(r);
    forall k | 0 <= k < r.InFlight() - 1 ensures r'.Pending()[k] == r.Pending()[k + 1] {
      NextRead(r.nread, k);
    }
  }

  function Taken(op: Op): seq<char> {
    match op case PutByte(c) => [c] case GetByte => []
  }

  function Given(r: Ring, op: Op): seq<char>
    requires |r.data| == PIPESIZE
  {
    match op case PutByte(_) => [] case GetByte => [r.data[r.nread % PIPESIZE]]
  }

  /** A run is its last copy after the run before it. */
  lemma LastCopy(r: Ring, ops: seq<Op>) returns (front: seq<Op>, op: Op, before: Ring)
    requires |r.data| == PIPESIZE && ops != []
    ensures ops == front + [op] && |front| < |ops| && before == Run(r, front) && |before.data| == PIPESIZE
    ensures Run(r, ops) == Apply(before, op) && (Legal(r, ops) <==> Legal(r, front) && Enabled(before, op))
    ensures Accepted(ops) == Accepted(front) + Taken(op) && Returned(r, ops) == Returned(r, front) + Given(before, op)
  {
    front, op := ops[..|ops| - 1], ops[|ops| - 1];
    before := Run(r, front);
  }

  lemma Regroup(a: seq<char>, b: seq<char>, c: seq<char>, d: seq<char>, x: seq<char>, y: seq<char>, d': seq<char>)
    requires a + b == c + d && d + x == y + d'
    ensures a + (b + x) == (c + y) + d'
  {
    assert a + (b + x) == (a + b) + x == c + (d + x) == (c + y) + d';
  }

  /** Whatever the interleaving and however often the counters wrap: what went
      in is what came out followed by at most 512 pending bytes. */
  lemma {:induction false} StreamOrder(r: Ring, ops: seq<Op>)
    requires r.Valid() && Legal(r, ops)
    ensures Run(r, ops).Valid()
    ensures r.Pending() + Accepted(ops) == Returned(r, ops) + Run(r, ops).Pending()
    ensures |Run(r, ops).Pending()| <= PIPESIZE
    decreases |ops|
  {
    if ops != [] {
      var front, op, before := LastCopy(r, ops);
      StreamOrder(r, front);
      if op.PutByte? {
        PutAppends(before, op.c);
      } else {
        GetRemoves(before);
      }
      Regroup(r.Pending(), Accepted(front), Returned(r, front), before.Pending(), Taken(op), Given(before, op),
              Apply(before, op).Pending());
    }
  }

  /** From a freshly allocated pipe the returned bytes are a prefix of the
      accepted ones. */
  lemma DeliveredPrefix(r: Ring, ops: seq<Op>)
    requires |r.data| == PIPESIZE && r.nread == r.nwrite == 0 && Legal(r, ops)
    ensures Returned(r, ops) <= Accepted(ops)
    ensures |Accepted(ops)| - |Returned(r, ops)| <= PIPESIZE
  {
    StreamOrder(r, ops);
    assert r.Pending() == [];
    assert Accepted(ops) == Returned(r, ops) + Run(r, ops).Pending();
  }

  lemma {:induction false} SectionsRun(r: Ring, first: seq<Op>, second: seq<Op>)
    requires |r.data| == PIPESIZE
    ensures Run(r, first + second) == Run(Run(r, first), second)
    ensures Legal(r, first + second) <==> Legal(r, first) && Legal(Run(r, first), second)
    decreases |second|
  {
    if second == [] {
      assert first + second == first;
    } else {
      var front, op, before := LastCopy(Run(r, first), second);
      SectionsRun(r, first, front);
      SectionStep(r, first, front, op, before);
    }
  }

  lemma {:induction false} SectionsBytes(r: Ring, first: seq<Op>, second: seq<Op>)
    requires |r.data| == PIPESIZE
    ensures Accepted(first + second) == Accepted(first) + Accepted(second)
    ensures Returned(r, first + second) == Returned(r, first) + Returned(Run(r, first), second)
    decreases |second|
  {
    if second == [] {
      assert first + second == first;
    } else {
      var front, op, before := LastCopy(Run(r, first), second);
      SectionsRun(r, first, front);
      SectionsBytes(r, first, front);
      SectionStep(r, first, front, op, before);
      Associates(Accepted(first), Accepted(front), Taken(op));
      Associates(Returned(r, first), Returned(Run(r, first), front), Given(before, op));
    }
  }

  lemma Associates(a: seq<char>, b: seq<char>, c: seq<char>)
    ensures a + (b + c) == (a + b) + c
  {
  }

  /** Locked sections compose: running one section's copies after another's is
      one run, so StreamOrder speaks about every interleaving of sections. */
  lemma SectionsCompose(r: Ring, first: seq<Op>, second: seq<Op>)
    requires |r.data| == PIPESIZE
    ensures Run(r, first + second) == Run(Run(r, first), second)
    ensures Legal(r, first + second) <==> Legal(r, first) && Legal(Run(r, first), second)
    ensures Accepted(first + second) == Accepted(first) + Accepted(second)
    ensures Returned(r, first + second) == Returned(r, first) + Returned(Run(r, first), second)
  {
    SectionsRun(r, first, second);
    SectionsBytes(r, first, second);
  }

  lemma SectionStep(r: Ring, first: seq<Op>, front: seq<Op>, op: Op, before: Ring)
    requires |r.data| == PIPESIZE && before == Run(r, first + front)
    ensures Run(r, first + (front + [op])) == Apply(before, op)
    ensures Legal(r, first + (front + [op])) <==> Legal(r, first + front) && Enabled(before, op)
    ensures Accepted(first + (front + [op])) == Accepted(first + front) + Taken(op)
    ensures Returned(r, first + (front + [op])) == Returned(r, first + front) + Given(before, op)
  {
    var all, last, _ := LastCopy(r, first + (front + [op]));
    assert all + [last] == (first + front) + [op];
    assert all == (all + [last])[..|all|] == first + front && last == (all + [last])[|all|] == op;
  }

  function Puts(bytes: seq<char>): (ops: seq<Op>)
    ensures |ops| == |bytes|
  {
    seq(|bytes|, k requires 0 <= k < |bytes| => PutByte(bytes[k]))
  }

  function Gets(n: nat): (ops: seq<Op>)
    ensures |ops| == n
  {
    seq(n, _ => GetByte)
  }

  /** A legal burst of stores only appends. */
  lemma {:induction false} PutsAppend(r: Ring, bytes: seq<char>)
    requires r.Valid() && r.InFlight() + |bytes| <= PIPESIZE
    ensures Legal(r, Puts(bytes)) && Run(r, Puts(bytes)).Valid()
    ensures Run(r, Puts(bytes)).Pending() == r.Pending() + bytes
  {
    var ops := Puts(bytes);
    if bytes == [] {
    } else {
      var front := bytes[..|bytes| - 1];
      assert ops[..|ops| - 1] == Puts(front);
      PutsAppend(r, front);
      var before := Run(r, Puts(front));
      assert before.InFlight() == |before.Pending()|;
      FullMeansFull(before);
      PutAppends(before, bytes[|bytes| - 1]);
      assert bytes == front + [bytes[|bytes| - 1]];
    }
  }

  lemma RunPutsStep(r: Ring, bytes: seq<char>, c: char)
    requires |r.data| == PIPESIZE
    ensures Run(r, Puts(bytes + [c])) == Apply(Run(r, Puts(bytes)), PutByte(c))
  {
    var ops := Puts(bytes + [c]);
    assert ops[..|ops| - 1] == Puts(bytes);
  }

  /** A legal burst of loads takes the oldest pending bytes, in order. */
  lemma {:induction false} GetsRemove(r: Ring, n: nat)
    requires r.Valid() && n <= r.InFlight()
    ensures Legal(r, Gets(n)) && Run(r, Gets(n)).Valid()
    ensures r.Pending() == Returned(r, Gets(n)) + Run(r, Gets(n)).Pending()
    ensures |Returned(r, Gets(n))| == n
  {
    var ops := Gets(n);
    if n == 0 {
    } else {
      assert ops[..|ops| - 1] == Gets(n - 1);
      GetsRemove(r, n - 1);
      var before := Run(r, Gets(n - 1));
      assert before.InFlight() == |before.Pending()|;
      FullMeansFull(before);
      GetRemoves(before);
    }
  }

  lemma RunGetsStep(r: Ring, n: nat)
    requires |r.data| == PIPESIZE
    ensures Run(r, Gets(n + 1)) == Apply(Run(r, Gets(n)), GetByte)
    ensures var before := Run(r, Gets(n));
            Returned(r, Gets(n + 1)) == Returned(r, Gets(n)) + [before.data[before.nread % PIPESIZE]]
  {
    var ops := Gets(n + 1);
    assert ops[..|ops| - 1] == Gets(n);
  }

  /** How one locked section of a call ends: the call returns its count, it
      sleeps and will resume here, or it fails. */
  datatype Outcome = Done | Sleeping | Failed

  class KernelPipe {
    var data: array<char>
    var nread: nat
    var nwrite: nat
    var readopen: bool
    var writeopen: bool
    var readersWoken: bool
    var writersWoken: bool

    ghost function Value(): Ring
      reads this, data
    {
      Ring(data[..], nread, nwrite)
    }

    ghost predicate Valid()
      reads this, data
    {
      data.Length == PIPESIZE && Value().Valid()
    }

    /** pipealloc (pipe.c:33-36). */
    constructor ()
      ensures Valid() && fresh(data)
      ensures Value().Pending() == [] && readopen && writeopen
      ensures nread == nwrite == 0 && !readersWoken && !writersWoken
    {
      data := new char[PIPESIZE];
      nread, nwrite := 0, 0;
      readopen, writeopen := true, true;
      readersWoken, writersWoken := false, false;
    }

    /** The byte copy of pipewrite (pipe.c:93). */
    method StoreByte(c: char)
      requires Valid() && !Value().Full()
      modifies this`nwrite, data
      ensures Value() == Apply(old(Value()), PutByte(c))
      ensures Valid() && Value().InFlight() == old(Value().InFlight()) + 1
    {
      PutAppends(Value(), c);
      data[nwrite % PIPESIZE] := c;
      nwrite := (nwrite + 1) % UINT_MOD;
    }

    /** The byte copy of piperead (pipe.c:116). */
    method LoadByte() returns (c: char)
      requires Valid() && nread != nwrite
      modifies this`nread
      ensures c == data[old(nread) % PIPESIZE]
      ensures Value() == Apply(old(Value()), GetByte)
      ensures Valid() && Value().InFlight() == old(Value().InFlight()) - 1
    {
      GetRemoves(Value());
      c := data[nread % PIPESIZE];
      nread := (nread + 1) % UINT_MOD;
    }

    /** One locked section of pipewrite (pipe.c:84-95), entered at byte `from`
        on the call or after a sleep.  It accepts exactly as many bytes as fit. */
    method Write(addr: seq<char>, from: nat, killed: bool) returns (next: nat, outcome: Outcome)
      requires Valid() && from <= |addr|
      modifies this`nwrite, this`readersWoken, data
      ensures Valid()
      ensures next == Min(|addr|, from + PIPESIZE - old(Value().InFlight()))
      ensures Value() == Run(old(Value()), Puts(addr[from..next]))
      ensures Legal(old(Value()), Puts(addr[from..next]))
      ensures Value().Pending() == old(Value().Pending()) + addr[from..next]
      ensures outcome == if next == |addr| then Done else if !readopen || killed then Failed else Sleeping
      ensures readersWoken == (outcome.Failed? ==> old(readersWoken))
    {
      ghost var start := Value();
      next, outcome := from, Done;
      ghost var sent := [];
      while next < |addr|
        invariant from <= next <= |addr| && sent == addr[from..next]
        invariant Valid() && Value().InFlight() == start.InFlight() + |sent|
        invariant readersWoken == old(readersWoken)
        invariant Value() == Run(start, Puts(sent))
      {
        FullMeansFull(Value());
        if nwrite == (nread + PIPESIZE) % UINT_MOD {
          outcome := if !readopen || killed then Failed else Sleeping;
          break;
        }
        RunPutsStep(start, sent, addr[next]);
        StoreByte(addr[next]);
        sent := sent + [addr[next]];
        next := next + 1;
      }
      PutsAppend(start, sent);
      if outcome != Failed {
        readersWoken := true;
      }
    }

    /** One locked section of piperead (pipe.c:105-120).  An empty pipe with an
        open write end blocks; otherwise the call takes min(n, pending) bytes. */
    method Read(n: nat, killed: bool) returns (bytes: seq<char>, outcome: Outcome)
      requires Valid()
      modifies this`nread, this`writersWoken
      ensures Valid()
      ensures outcome == if old(Value().InFlight()) != 0 || !writeopen then Done
                         else if killed then Failed else Sleeping
      ensures |bytes| == if outcome.Done? then Min(n, old(Value().InFlight())) else 0
      ensures old(Value().Pending()) == bytes + Value().Pending()
      ensures Value() == Run(old(Value()), Gets(|bytes|))
      ensures Legal(old(Value()), Gets(|bytes|)) && bytes == Returned(old(Value()), Gets(|bytes|))
      ensures writersWoken == (outcome.Done? || old(writersWoken))
    {
      ghost var start := Value();
      bytes := [];
      FullMeansFull(Value());
      if nread == nwrite && writeopen {
        outcome := if killed then Failed else Sleeping;
        return;
      }
      var i := 0;
      while i < n
        invariant 0 <= i <= n && |bytes| == i
        invariant Valid() && Value().InFlight() == start.InFlight() - i
        invariant Value() == Run(start, Gets(i)) && bytes == Returned(start, Gets(i))
      {
        FullMeansFull(Value());
        if nread == nwrite {
          break;
        }
        RunGetsStep(start, i);
        var c := LoadByte();
        bytes := bytes + [c];
        i := i + 1;
      }
      GetsRemove(start, i);
      writersWoken := true;
      outcome := Done;
    }

    /** pipeclose (pipe.c:60-75).  The page is freed when both ends are shut. */
    method Close(writable: bool) returns (freed: bool)
      modifies this`readopen, this`writeopen, this`readersWoken, this`writersWoken
      ensures readopen == (old(readopen) && writable)
      ensures writeopen == (old(writeopen) && !writable)
      ensures readersWoken == (writable || old(readersWoken))
      ensures writersWoken == (!writable || old(writersWoken))
      ensures freed <==> !readopen && !writeopen
    {
      if writable {
        writeopen, readersWoken := false, true;
      } else {
        readopen, writersWoken := false, true;
      }
      freed := !readopen && !writeopen;
    }
  }

  /** What closing the write end is for (pipe.c:62-64, 105-120): read calls of n
      bytes get all that is pending and then the end of the file, and no call
      sleeps or fails, not even in a process that has been killed. */
  method ReadToEnd(p: KernelPipe, n: nat, killed: bool) returns (all: seq<char>, outcome: Outcome)
    requires p.Valid() && n > 0
    modifies p
    ensures p.Valid() && all == old(p.Value().Pending()) && p.Value().Pending() == [] && outcome == Done
    ensures !p.writeopen && p.readersWoken
  {
    var freed := p.Close(true);
    var more := true;
    all, outcome := [], Done;
    while more
      invariant p.Valid() && outcome == Done && !p.writeopen && p.readersWoken && p.data == old(p.data)
      invariant old(p.Value().Pending()) == all + p.Value().Pending()
      invariant more || p.Value().Pending() == []
      decreases |p.Value().Pending()|, more
    {
      var bytes;
      bytes, outcome := p.Read(n, killed);
      all, more := all + bytes, bytes != [];
    }
  }

  /** And of closing the read end (pipe.c:65-67, 86-89): a write call does not
      sleep; it fails exactly when its bytes do not fit. */
  method WriteToNobody(p: KernelPipe, addr: seq<char>, killed: bool) returns (next: nat, outcome: Outcome)
    requires p.Valid()
    modifies p, p.data
    ensures p.Valid() && !p.readopen && p.writersWoken
    ensures outcome == if old(|p.Value().Pending()|) + |addr| <= PIPESIZE then Done else Failed
    ensures next <= |addr| && p.Value().Pending() == old(p.Value().Pending()) + addr[..next]
    ensures next == |addr| || |p.Value().Pending()| == PIPESIZE
  {
    var freed := p.Close(false);
    next, outcome := p.Write(addr, 0, killed);
    assert addr[0..next] == addr[..next];
  }
}

/** The buffer cache (bio.c) over the synchronous disk (memide.c).  Buffers are
    array slots and the prev/next pointers hold slot numbers; slot NBUF is the
    list head.  The cache is proved invisible: bread returns the last block
    logged or written for its sector. */
module Bio {
  import opened CrashSpec

  const NBUF: nat := 30
  const HEAD: nat := NBUF
  const NODEV: int := -1
  const DISK1: int := 1

  /** struct buf, without the list pointers. */
  datatype Buf = Buf(dev: int, sector: nat, busy: bool, valid: bool, dirty: bool, data: Block) {
    predicate Caches(d: int, s: nat) {
      dev == d && sector == s
    }

    predicate Recyclable() {
      !busy && !dirty
    }
  }

  // ---- the doubly linked ring ---------------------------------------------

  function Succ(i: nat, n: nat): nat
    requires i < n
  {
    if i + 1 < n then i + 1 else 0
  }

  ghost predicate Distinct(cyc: seq<nat>) {
    forall i, j :: 0 <= i < j < |cyc| ==> Differ(cyc, i, j)
  }

  predicate Differ(cyc: seq<nat>, i: nat, j: nat)
    requires i < |cyc| && j < |cyc|
  {
    cyc[i] != cyc[j]
  }

  lemma AllDiffer(cyc: seq<nat>)
    ensures Distinct(cyc) <==> forall i, j :: 0 <= i < j < |cyc| ==> cyc[i] != cyc[j]
  {
    if Distinct(cyc) {
      forall i, j | 0 <= i < j < |cyc| ensures cyc[i] != cyc[j] {
        assert Differ(cyc, i, j);
      }
    }
  }

  /** next and prev lead around this cycle, and back. */
  ghost predicate Ring(next: seq<nat>, prev: seq<nat>, cyc: seq<nat>) {
    && |next| == |prev| == NBUF + 1 && |cyc| >= 1 && cyc[0] == HEAD && Distinct(cyc)
    && (forall i :: 0 <= i < |cyc| ==> Linked(next, prev, cyc, i))
  }

  ghost predicate Linked(next: seq<nat>, prev: seq<nat>, cyc: seq<nat>, i: nat)
    requires i < |cyc|
  {
    cyc[i] < |next| == |prev| && cyc[Succ(i, |cyc|)] < |prev| &&
    next[cyc[i]] == cyc[Succ(i, |cyc|)] && prev[cyc[Succ(i, |cyc|)]] == cyc[i]
  }

  /** Take node k out of the ring. */
  function Without(cyc: seq<nat>, k: nat): seq<nat>
    requires k < |cyc|
  {
    cyc[..k] + cyc[k + 1..]
  }

  /** Put b right behind the head. */
  function PushFront(cyc: seq<nat>, b: nat): seq<nat>
    requires |cyc| >= 1
  {
    [cyc[0], b] + cyc[1..]
  }

  /** The first half of brelse's relinking (bio.c:129-130). */
  lemma RingUnlink(next: seq<nat>, prev: seq<nat>, cyc: seq<nat>, k: nat)
    requires Ring(next, prev, cyc) && 1 <= k < |cyc|
    ensures var b := cyc[k];
            b < |next| && next[b] < |prev| && prev[b] < |next| &&
            Ring(next[prev[b] := next[b]], prev[next[b] := prev[b]], Without(cyc, k)) && b !in Without(cyc, k)
  {
    var b, g, n := cyc[k], Without(cyc, k), |cyc|;
    AllDiffer(cyc);
    AllDiffer(g);
    assert Linked(next, prev, cyc, k) && Linked(next, prev, cyc, k - 1);
    var next', prev' := next[prev[b] := next[b]], prev[next[b] := prev[b]];
    forall i | 0 <= i < |g| ensures Linked(next', prev', g, i) {
      var m := if i < k then i else i + 1;
      assert g[i] == cyc[m] && Linked(next, prev, cyc, m);
      if m == k - 1 {
        assert g[Succ(i, |g|)] == cyc[Succ(k, n)];
      } else {
        assert g[Succ(i, |g|)] == cyc[Succ(m, n)];
        assert Succ(m, n) != Succ(k, n) && m != k - 1;
      }
    }
  }

  function PushNext(next: seq<nat>, b: nat): seq<nat>
    requires |next| == NBUF + 1 && b < NBUF
  {
    next[b := next[HEAD]][HEAD := b]
  }

  function PushPrev(next: seq<nat>, prev: seq<nat>, b: nat): seq<nat>
    requires |next| == |prev| == NBUF + 1 && b < NBUF && next[HEAD] < |prev|
  {
    prev[b := HEAD][next[HEAD] := b]
  }

  /** The second half (bio.c:131-134), which binit also runs (bio.c:50-54). */
  lemma RingPush(next: seq<nat>, prev: seq<nat>, cyc: seq<nat>, b: nat)
    requires Ring(next, prev, cyc) && b < NBUF && b !in cyc
    ensures var first := next[HEAD];
            first < |prev| && Ring(PushNext(next, b), PushPrev(next, prev, b), PushFront(cyc, b))
  {
    var g, n := PushFront(cyc, b), |cyc|;
    AllDiffer(cyc);
    AllDiffer(g);
    assert Linked(next, prev, cyc, 0);
    var next', prev' := PushNext(next, b), PushPrev(next, prev, b);
    assert forall i :: 1 <= i < n ==> g[i + 1] == cyc[i];
    forall i | 0 <= i < |g| ensures Linked(next', prev', g, i) {
      if i >= 2 {
        assert Linked(next, prev, cyc, i - 1) && g[i] == cyc[i - 1];
        assert g[Succ(i, |g|)] == cyc[Succ(i - 1, n)];
      }
    }
  }

  // ---- release recency ----------------------------------------------------

  ghost predicate NotOlder(cyc: seq<nat>, last: seq<nat>, i: nat, j: nat)
    requires i < |cyc| && j < |cyc|
  {
    cyc[i] < |last| && cyc[j] < |last| && last[cyc[i]] >= last[cyc[j]]
  }

  /** From the head on, buffers stand in the order of their last release. */
  ghost predicate ByRecency(cyc: seq<nat>, last: seq<nat>, clock: nat) {
    |last| == NBUF && (forall b :: 0 <= b < NBUF ==> last[b] <= clock) &&
    forall i, j :: 1 <= i < j < |cyc| ==> NotOlder(cyc, last, i, j)
  }

  lemma RecencyKept(cyc: seq<nat>, last: seq<nat>, clock: nat, k: nat)
    requires Distinct(cyc) && ByRecency(cyc, last, clock) && 1 <= k < |cyc| && cyc[k] < NBUF
    requires forall i :: 1 <= i < |cyc| ==> cyc[i] < NBUF
    ensures ByRecency(PushFront(Without(cyc, k), cyc[k]), last[cyc[k] := clock + 1], clock + 1)
  {
    var g, last' := PushFront(Without(cyc, k), cyc[k]), last[cyc[k] := clock + 1];
    AllDiffer(cyc);
    forall i, j | 1 <= i < j < |g| ensures NotOlder(g, last', i, j) {
      var m, n := if i <= k then i - 1 else i, if j <= k then j - 1 else j;
      assert g[j] == cyc[n] && (i > 1 ==> g[i] == cyc[m] && NotOlder(cyc, last, m, n));
    }
  }

  // ---- what the buffers hold ----------------------------------------------

  /** Some buffer holds changes to sector s that are not on the disk yet. */
  ghost predicate Pinned(bufs: seq<Buf>, s: nat) {
    exists i :: 0 <= i < |bufs| && bufs[i].Caches(DISK1, s) && bufs[i].dirty
  }

  /** A buffer nobody holds shows the current block; a dirty one has data. */
  ghost predicate SlotOk(b: Buf, disk: Disk, view: Disk) {
    && |view| == |disk|
    && (b.dev == NODEV ==> !b.busy && !b.valid && !b.dirty)
    && (b.dev != NODEV ==> b.dev == DISK1 && b.sector < |disk|)
    && (b.dirty ==> b.valid)
    && (b.valid && !b.busy ==> b.data == view[b.sector])
  }

  ghost predicate SectorOk(bufs: seq<Buf>, disk: Disk, view: Disk, s: nat)
    requires s < |disk| == |view|
  {
    view[s] == disk[s] || Pinned(bufs, s)
  }

  /** view is what the disk should hold: at most one buffer per sector, and the
      disk differs from the view only where a dirty buffer remembers it. */
  ghost predicate BufsOk(bufs: seq<Buf>, disk: Disk, view: Disk) {
    && |bufs| == NBUF && |view| == |disk|
    && (forall i, j :: 0 <= i < j < NBUF && bufs[i].dev != NODEV ==> !bufs[j].Caches(bufs[i].dev, bufs[i].sector))
    && (forall i :: 0 <= i < NBUF ==> SlotOk(bufs[i], disk, view))
    && (forall s :: 0 <= s < |disk| ==> SectorOk(bufs, disk, view, s))
  }

  /** Replacing slot i by a buffer for the same sector, with the disk and the
      view changed at that sector only. */
  lemma ReplaceSlot(bufs: seq<Buf>, disk: Disk, view: Disk, i: nat, b: Buf, disk': Disk, view': Disk)
    requires BufsOk(bufs, disk, view) && i < NBUF && bufs[i].dev == DISK1 && b.Caches(DISK1, bufs[i].sector)
    requires |disk'| == |view'| == |disk| && SlotOk(b, disk', view')
    requires forall s :: 0 <= s < |disk| && s != b.sector ==> disk'[s] == disk[s] && view'[s] == view[s]
    requires view'[b.sector] == disk'[b.sector] || b.dirty
    ensures BufsOk(bufs[i := b], disk', view')
  {
    var bufs' := bufs[i := b];
    forall j | 0 <= j < NBUF ensures SlotOk(bufs'[j], disk', view') {
      assert SlotOk(bufs[j], disk, view);
    }
    forall s | 0 <= s < |disk'| ensures SectorOk(bufs', disk', view', s) {
      if s == b.sector {
        assert b.dirty ==> bufs'[i].Caches(DISK1, s) && Pinned(bufs', s);
      } else {
        assert SectorOk(bufs, disk, view, s);
        if j :| 0 <= j < |bufs| && bufs[j].Caches(DISK1, s) && bufs[j].dirty {
          assert bufs'[j].Caches(DISK1, s);
        }
      }
    }
  }

  /** Recycling a clean buffer for a sector that is not cached. */
  lemma RecycleSlot(bufs: seq<Buf>, disk: Disk, view: Disk, i: nat, b: Buf)
    requires BufsOk(bufs, disk, view) && i < NBUF && bufs[i].Recyclable()
    requires b.dev == DISK1 && b.sector < |disk| && !b.valid && !b.dirty
    requires forall j :: 0 <= j < NBUF ==> !bufs[j].Caches(DISK1, b.sector)
    ensures BufsOk(bufs[i := b], disk, view)
  {
    var bufs' := bufs[i := b];
    forall s | 0 <= s < |disk| ensures SectorOk(bufs', disk, view, s) {
      assert SectorOk(bufs, disk, view, s);
      if j :| 0 <= j < |bufs| && bufs[j].Caches(DISK1, s) && bufs[j].dirty {
        assert bufs'[j].Caches(DISK1, s);
      }
    }
  }

  /** A sector without a buffer is up to date on the disk. */
  lemma UncachedIsOnDisk(bufs: seq<Buf>, disk: Disk, view: Disk, i: nat)
    requires BufsOk(bufs, disk, view) && i < NBUF && bufs[i].dev == DISK1 && !bufs[i].dirty
    ensures bufs[i].sector < |disk| && view[bufs[i].sector] == disk[bufs[i].sector]
  {
    assert SlotOk(bufs[i], disk, view);
    assert SectorOk(bufs, disk, view, bufs[i].sector);
  }

  datatype GetResult = Got(b: nat) | MustSleep(b: nat) | NoBuffers

  ghost predicate Hit(bufs: seq<Buf>, i: nat, dev: int, sector: nat) {
    i < |bufs| && bufs[i].Caches(dev, sector)
  }

  ghost predicate Miss(bufs: seq<Buf>, dev: int, sector: nat) {
    forall i :: 0 <= i < |bufs| ==> !bufs[i].Caches(dev, sector)
  }

  /** b is the least recently released buffer that may be recycled. */
  ghost predicate Oldest(bufs: seq<Buf>, cyc: seq<nat>, b: nat) {
    exists k :: 1 <= k < |cyc| && cyc[k] == b && OlderHeld(bufs, cyc, k + 1)
  }

  ghost predicate OlderHeld(bufs: seq<Buf>, cyc: seq<nat>, k: nat) {
    forall m :: k <= m < |cyc| ==> cyc[m] < |bufs| && !bufs[cyc[m]].Recyclable()
  }

  /** What bget does to the buffers. */
  ghost predicate GetSpec(bufs: seq<Buf>, bufs': seq<Buf>, cyc: seq<nat>, dev: int, sector: nat, r: GetResult) {
    |bufs| == |bufs'| == NBUF &&
    match r
    case MustSleep(b) => bufs' == bufs && Hit(bufs, b, dev, sector) && bufs[b].busy
    case NoBuffers =>
      bufs' == bufs && Miss(bufs, dev, sector) && forall i :: 0 <= i < NBUF ==> !bufs[i].Recyclable()
    case Got(b) =>
      b < NBUF &&
      if Hit(bufs, b, dev, sector) then !bufs[b].busy && bufs' == bufs[b := bufs[b].(busy := true)]
      else
        Miss(bufs, dev, sector) && bufs[b].Recyclable() && Oldest(bufs, cyc, b) &&
        bufs' == bufs[b := Buf(dev, sector, true, false, false, bufs[b].data)]
  }

  /** After bget, and after the read that an invalid buffer needs. */
  lemma GotBuffer(bufs: seq<Buf>, bufs': seq<Buf>, cyc: seq<nat>, disk: Disk, view: Disk, sector: nat, r: GetResult)
    requires BufsOk(bufs, disk, view) && sector < |disk| && GetSpec(bufs, bufs', cyc, DISK1, sector, r) && r.Got?
    ensures BufsOk(bufs', disk, view) && bufs'[r.b].Caches(DISK1, sector) && bufs'[r.b].busy
    ensures bufs'[r.b].valid ==> bufs'[r.b].data == view[sector]
    ensures !bufs'[r.b].valid ==>
              !bufs'[r.b].dirty && view[sector] == disk[sector] &&
              BufsOk(bufs'[r.b := bufs'[r.b].(data := disk[sector], valid := true)], disk, view)
  {
    var b := r.b;
    assert SlotOk(bufs[b], disk, view);
    if Hit(bufs, b, DISK1, sector) {
      ReplaceSlotBusy(bufs, disk, view, b);
    } else {
      RecycleSlot(bufs, disk, view, b, bufs'[b]);
    }
    if !bufs'[b].valid {
      UncachedIsOnDisk(bufs', disk, view, b);
      ReplaceSlot(bufs', disk, view, b, bufs'[b].(data := disk[sector], valid := true), disk, view);
    }
  }

  lemma ReplaceSlotBusy(bufs: seq<Buf>, disk: Disk, view: Disk, i: nat)
    requires BufsOk(bufs, disk, view) && i < NBUF && bufs[i].dev == DISK1
    ensures BufsOk(bufs[i := bufs[i].(busy := true)], disk, view)
  {
    assert SlotOk(bufs[i], disk, view);
    SlotChange(bufs, disk, view, i, bufs[i].(busy := true));
  }

  /** Moving a buffer to the front keeps all of them on the ring. */
  lemma MovedToFront(cyc: seq<nat>, k: nat)
    requires 1 <= k < |cyc|
    ensures var g := PushFront(Without(cyc, k), cyc[k]);
            |g| == |cyc| && g[1] == cyc[k] && (forall x :: x in cyc ==> x in g) &&
            forall i :: 1 <= i < |g| ==> g[i] in cyc[1..]
  {
    var g := PushFront(Without(cyc, k), cyc[k]);
    forall i | 0 <= i < |cyc| ensures cyc[i] in g {
      assert cyc[i] == if i == 0 then g[0] else if i < k then g[i + 1] else if i == k then g[1] else g[i];
    }
    forall i | 1 <= i < |g| ensures g[i] in cyc[1..] {
      assert g[i] == cyc[1..][if i == 1 then k - 1 else if i <= k then i - 2 else i - 1];
    }
  }

  lemma SlotChange(bufs: seq<Buf>, disk: Disk, view: Disk, i: nat, b: Buf)
    requires BufsOk(bufs, disk, view) && i < NBUF && bufs[i].dev == DISK1
    requires b.Caches(DISK1, bufs[i].sector) && b.dirty == bufs[i].dirty && SlotOk(b, disk, view)
    ensures BufsOk(bufs[i := b], disk, view)
  {
    assert SectorOk(bufs, disk, view, b.sector);
    if view[b.sector] != disk[b.sector] {
      var j :| 0 <= j < |bufs| && bufs[j].Caches(DISK1, b.sector) && bufs[j].dirty;
    }
    ReplaceSlot(bufs, disk, view, i, b, disk, view);
  }

  lemma ReleaseSlot(bufs: seq<Buf>, disk: Disk, view: Disk, i: nat)
    requires BufsOk(bufs, disk, view) && i < NBUF && bufs[i].busy && bufs[i].valid
    requires bufs[i].sector < |view| && bufs[i].data == view[bufs[i].sector]
    ensures BufsOk(bufs[i := bufs[i].(busy := false)], disk, view)
  {
    assert SlotOk(bufs[i], disk, view);
    SlotChange(bufs, disk, view, i, bufs[i].(busy := false));
  }

  /** The victim was released no later than any other that could be taken. */
  lemma OldestIsLeastRecent(bufs: seq<Buf>, cyc: seq<nat>, last: seq<nat>, clock: nat, b: nat)
    requires |bufs| == NBUF && ByRecency(cyc, last, clock)
    requires Oldest(bufs, cyc, b) && b < NBUF && cyc != [] && cyc[0] == HEAD
    requires forall i :: 0 <= i < NBUF ==> i in cyc
    ensures forall i :: 0 <= i < NBUF && bufs[i].Recyclable() ==> last[b] <= last[i]
  {
    var k :| 1 <= k < |cyc| && cyc[k] == b && OlderHeld(bufs, cyc, k + 1);
    forall i | 0 <= i < NBUF && bufs[i].Recyclable() ensures last[b] <= last[i] {
      assert i in cyc;
      var m :| 0 <= m < |cyc| && cyc[m] == i;
      if m < k {
        assert NotOlder(cyc, last, m, k);
      }
    }
  }

  class BCache {
    const bufs: array<Buf>
    const next: array<nat>
    const prev: array<nat>
    var disk: Disk
    ghost var cyc: seq<nat>
    ghost var view: Disk
    /** Every disk write so far, in order. */
    ghost var journal: seq<Write>
    /** When each buffer was last released, by a clock that ticks at brelse. */
    ghost var last: seq<nat>
    ghost var clock: nat

    ghost predicate Shape()
      reads this, next, prev, bufs
    {
      && next != prev && bufs.Length == NBUF && next.Length == prev.Length == NBUF + 1
      && Ring(next[..], prev[..], cyc)
      && (forall b :: 0 <= b < NBUF ==> b in cyc) && (forall i :: 1 <= i < |cyc| ==> cyc[i] < NBUF)
    }

    ghost predicate Valid()
      reads this, next, prev, bufs
    {
      Shape() && BufsOk(bufs[..], disk, view) && ByRecency(cyc, last, clock)
    }

    /** binit (bio.c:39-56): all buffers on the ring, the last one in front. */
    constructor (d: Disk)
      ensures Valid() && fresh(next) && fresh(prev) && fresh(bufs)
      ensures disk == view == d && journal == []
      ensures |cyc| == NBUF + 1 && forall i :: 1 <= i < |cyc| ==> cyc[i] == NBUF - i
      ensures forall i :: 0 <= i < NBUF ==> bufs[i].dev == NODEV
    {
      disk, view, journal := d, d, [];
      last, clock := seq(NBUF, _ => 0), 0;
      bufs := new Buf[NBUF](_ => Buf(NODEV, 0, false, false, false, seq(BLOCK_WORDS, _ => 0)));
      next := new nat[NBUF + 1](_ => HEAD);
      prev := new nat[NBUF + 1](_ => HEAD);
      cyc := [HEAD];
      new;
      assert Linked(next[..], prev[..], cyc, 0);
      var b: nat := 0;
      while b < NBUF
        invariant 0 <= b <= NBUF && disk == view == d && journal == [] && last == seq(NBUF, _ => 0)
        invariant next != prev && next.Length == prev.Length == NBUF + 1
        invariant fresh(next) && fresh(prev) && fresh(bufs)
        invariant bufs.Length == NBUF
        invariant forall i :: 0 <= i < NBUF ==> bufs[i].dev == NODEV && bufs[i].Recyclable() && !bufs[i].valid
        invariant |cyc| == b + 1 && forall i :: 1 <= i < |cyc| ==> cyc[i] == b - i
        invariant Ring(next[..], prev[..], cyc)
      {
        RingPush(next[..], prev[..], cyc, b);
        ghost var n0, p0 := next[..], prev[..];
        next[b] := next[HEAD];
        prev[b] := HEAD;
        prev[next[HEAD]] := b;
        next[HEAD] := b;
        assert next[..] == PushNext(n0, b) && prev[..] == PushPrev(n0, p0, b);
        cyc := PushFront(cyc, b);
        b := b + 1;
      }
      forall i | 0 <= i < NBUF ensures i in cyc {
        assert cyc[NBUF - i] == i;
      }
    }

    /** iderw (memide.c:37-58); its panics are the requires. */
    method Iderw(b: nat)
      requires b < bufs.Length && bufs[b].busy && (bufs[b].valid ==> bufs[b].dirty)
      requires bufs[b].dev == DISK1 && bufs[b].sector < |disk|
      modifies this`disk, this`journal, bufs
      ensures var was := old(bufs[..])[b];
              if was.dirty then
                bufs[..] == old(bufs[..])[b := was.(dirty := false, valid := true)] &&
                disk == old(disk)[was.sector := was.data] && journal == old(journal) + [Write(was.sector, was.data)]
              else
                bufs[..] == old(bufs[..])[b := was.(data := old(disk)[was.sector], valid := true)] &&
                disk == old(disk) && journal == old(journal)
    {
      if bufs[b].dirty {
        bufs[b] := bufs[b].(dirty := false);
        disk := disk[bufs[b].sector := bufs[b].data];
        journal := journal + [Write(bufs[b].sector, bufs[b].data)];
      } else {
        bufs[b] := bufs[b].(data := disk[bufs[b].sector]);
      }
      bufs[b] := bufs[b].(valid := true);
    }

    /** The search of bget for the sector (bio.c:70-80), most recent first. */
    method FindCached(dev: int, sector: nat) returns (b: nat)
      requires Shape()
      ensures b == HEAD ==> Miss(bufs[..], dev, sector)
      ensures b != HEAD ==> b < NBUF && Hit(bufs[..], b, dev, sector)
    {
      ghost var k := 1;
      assert Linked(next[..], prev[..], cyc, 0);
      b := next[HEAD];
      while b != HEAD
        invariant 1 <= k <= |cyc| && b == if k < |cyc| then cyc[k] else HEAD
        invariant forall m :: 1 <= m < k ==> !bufs[cyc[m]].Caches(dev, sector)
        decreases |cyc| - k
      {
        assert Linked(next[..], prev[..], cyc, k);
        if bufs[b].dev == dev && bufs[b].sector == sector {
          return;
        }
        b := next[b];
        k := k + 1;
      }
      forall i | 0 <= i < NBUF ensures !bufs[i].Caches(dev, sector) {
        assert i in cyc;
        var m :| 0 <= m < |cyc| && cyc[m] == i;
      }
    }

    /** The search of bget for a victim (bio.c:85-93), least recent first. */
    method FindOldest() returns (b: nat)
      requires Shape()
      ensures b == HEAD ==> forall i :: 0 <= i < NBUF ==> !bufs[i].Recyclable()
      ensures b != HEAD ==> b < NBUF && bufs[b].Recyclable() && Oldest(bufs[..], cyc, b)
    {
      assert Linked(next[..], prev[..], cyc, |cyc| - 1);
      ghost var k := |cyc| - 1;
      b := prev[HEAD];
      while b != HEAD
        invariant 0 <= k < |cyc| && b == cyc[k] && OlderHeld(bufs[..], cyc, k + 1)
        decreases k
      {
        assert Linked(next[..], prev[..], cyc, k - 1);
        if !bufs[b].busy && !bufs[b].dirty {
          return;
        }
        b := prev[b];
        k := k - 1;
      }
      forall i | 0 <= i < NBUF ensures !bufs[i].Recyclable() {
        assert i in cyc;
        var m :| 0 <= m < |cyc| && cyc[m] == i;
      }
    }

    /** bget (bio.c:62-95): the cached buffer, or the least recently released
        idle clean one. */
    method Bget(dev: int, sector: nat) returns (r: GetResult)
      requires Shape()
      modifies bufs
      ensures Shape() && GetSpec(old(bufs[..]), bufs[..], cyc, dev, sector, r)
    {
      var b := FindCached(dev, sector);
      if b != HEAD {
        if !bufs[b].busy {
          bufs[b] := bufs[b].(busy := true);
          return Got(b);
        }
        return MustSleep(b);
      }
      b := FindOldest();
      if b != HEAD {
        bufs[b] := Buf(dev, sector, true, false, false, bufs[b].data);
        return Got(b);
      }
      return NoBuffers;
    }

    /** bread (bio.c:99-107).  A caller that gets a buffer gets the current block
        of the sector; nothing else changes. */
    method Bread(dev: int, sector: nat) returns (r: GetResult)
      requires Valid() && dev == DISK1 && sector < |disk|
      modifies bufs, this`disk, this`journal
      ensures Valid() && disk == old(disk) && journal == old(journal)
      ensures r.Got? ==>
                r.b < NBUF && !old(bufs[r.b]).busy &&
                bufs[..] == old(bufs[..])[r.b := Buf(DISK1, sector, true, true, old(bufs[r.b]).dirty, view[sector])]
      // a dirty buffer is never recycled, and the victim is the oldest idle clean one
      ensures r.Got? && !old(bufs[r.b]).Caches(DISK1, sector) ==>
                Miss(old(bufs[..]), DISK1, sector) && !old(bufs[r.b]).dirty &&
                forall i :: 0 <= i < NBUF && old(bufs[i]).Recyclable() ==> last[r.b] <= last[i]
      ensures !r.Got? ==> bufs[..] == old(bufs[..])
      ensures r.MustSleep? <==> exists i :: 0 <= i < NBUF && old(bufs[i]).Caches(DISK1, sector) && old(bufs[i]).busy
      ensures r.NoBuffers? <==>
                Miss(old(bufs[..]), DISK1, sector) && forall i :: 0 <= i < NBUF ==> !old(bufs[i]).Recyclable()
    {
      ghost var bufs0 := bufs[..];
      r := Bget(dev, sector);
      if r.Got? {
        if !Hit(bufs0, r.b, dev, sector) {
          OldestIsLeastRecent(bufs0, cyc, last, clock, r.b);
        }
        GotBuffer(bufs0, bufs[..], cyc, disk, view, sector, r);
        if !bufs[r.b].valid {
          Iderw(r.b);
        }
      }
    }

    /** The holder of a buffer changes its data in memory. */
    method SetData(b: nat, data: Block)
      requires Valid() && b < NBUF && bufs[b].busy
      modifies bufs
      ensures Valid() && bufs[..] == old(bufs[..])[b := old(bufs[b]).(data := data)]
    {
      SlotChange(bufs[..], disk, view, b, bufs[b].(data := data));
      bufs[b] := bufs[b].(data := data);
    }

    /** log_write marks the buffer dirty (log.c:228): from here on the data is
        the sector's current block, though not yet the disk's. */
    method Pin(b: nat)
      requires Valid() && b < NBUF && bufs[b].busy && bufs[b].valid
      modifies bufs, this`view
      ensures Valid() && bufs[..] == old(bufs[..])[b := old(bufs[b]).(dirty := true)]
      ensures bufs[b].sector < |old(view)| && view == old(view)[bufs[b].sector := bufs[b].data]
    {
      ghost var was := bufs[b];
      assert SlotOk(was, disk, view);
      ghost var view' := view[was.sector := was.data];
      ReplaceSlot(bufs[..], disk, view, b, was.(dirty := true), disk, view');
      bufs[b] := bufs[b].(dirty := true);
      view := view';
    }

    /** bwrite (bio.c:111-117): the data reaches the disk at once. */
    method Bwrite(b: nat)
      requires Valid() && b < NBUF && bufs[b].busy
      modifies bufs, this`disk, this`view, this`journal
      ensures Valid() && bufs[..] == old(bufs[..])[b := old(bufs[b]).(dirty := false, valid := true)]
      ensures bufs[b].sector < |old(disk)|
      ensures disk == old(disk)[bufs[b].sector := bufs[b].data] && view == old(view)[bufs[b].sector := bufs[b].data]
      ensures journal == old(journal) + [Write(bufs[b].sector, bufs[b].data)]
    {
      ghost var was, bufs0 := bufs[b], bufs[..];
      assert SlotOk(was, disk, view);
      ghost var disk', view' := disk[was.sector := was.data], view[was.sector := was.data];
      ReplaceSlot(bufs0, disk, view, b, was.(dirty := false, valid := true), disk', view');
      bufs[b] := bufs[b].(dirty := true);
      Iderw(b);
      view := view';
      assert bufs[..] == bufs0[b := was.(dirty := false, valid := true)];
    }

    /** The relinking of brelse (bio.c:129-134). */
    method MoveToFront(b: nat, ghost k: nat)
      requires Shape() && 1 <= k < |cyc| && cyc[k] == b
      modifies next, prev, this`cyc
      ensures Shape() && cyc == PushFront(Without(old(cyc), k), b)
    {
      assert Linked(next[..], prev[..], cyc, k) && Linked(next[..], prev[..], cyc, k - 1);
      ghost var n0, p0, mid := next[..], prev[..], Without(cyc, k);
      RingUnlink(n0, p0, cyc, k);
      prev[next[b]] := prev[b];
      next[prev[b]] := next[b];
      ghost var n1, p1 := next[..], prev[..];
      assert n1 == n0[p0[b] := n0[b]] && p1 == p0[n0[b] := p0[b]];
      RingPush(n1, p1, mid, b);
      next[b] := next[HEAD];
      prev[b] := HEAD;
      prev[next[HEAD]] := b;
      next[HEAD] := b;
      assert next[..] == PushNext(n1, b) && prev[..] == PushPrev(n1, p1, b);
      MovedToFront(cyc, k);
      cyc := PushFront(mid, b);
    }

    /** brelse (bio.c:122-140).  The client has logged or written its changes,
        or made none. */
    method Brelse(b: nat)
      requires Valid() && b < NBUF && bufs[b].busy
      requires bufs[b].valid && bufs[b].data == view[bufs[b].sector]
      modifies bufs, next, prev, this`cyc, this`last, this`clock
      ensures Valid() && bufs[..] == old(bufs[..])[b := old(bufs[b]).(busy := false)]
      ensures clock == old(clock) + 1 && last == old(last)[b := clock]
    {
      assert b in cyc;
      ghost var k :| 0 <= k < |cyc| && cyc[k] == b;
      ReleaseSlot(bufs[..], disk, view, b);
      RecencyKept(cyc, last, clock, k);
      MoveToFront(b, k);
      clock := clock + 1;
      last := last[b := clock];
      bufs[b] := bufs[b].(busy := false);
    }
  }
}

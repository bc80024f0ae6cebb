/** The log's own code (log.c) on top of the buffer cache: the writes that
    commit and recovery send to the disk are exactly those of CrashSpec. */
module Log {
  import opened CrashSpec
  import opened Bio
  import opened GroupCommit

  /** Exactly these buffers are busy. */
  ghost predicate Held(bufs: seq<Buf>, held: set<nat>) {
    forall i :: 0 <= i < |bufs| ==> (bufs[i].busy <==> i in held)
  }

  ghost predicate SamePinned(bufs: seq<Buf>, bufs': seq<Buf>) {
    forall s :: Pinned(bufs, s) <==> Pinned(bufs', s)
  }

  ghost predicate SomeClean(bufs: seq<Buf>) {
    exists i :: 0 <= i < |bufs| && !bufs[i].dirty
  }

  /** Which sectors are pinned after one slot is replaced. */
  lemma PinnedReplace(bufs: seq<Buf>, disk: Disk, view: Disk, i: nat, b: Buf, s: nat)
    requires BufsOk(bufs, disk, view) && i < NBUF
    ensures Pinned(bufs[i := b], s) <==>
            (b.Caches(DISK1, s) && b.dirty) || (Pinned(bufs, s) && !(bufs[i].Caches(DISK1, s) && bufs[i].dirty))
  {
    var bufs' := bufs[i := b];
    if Pinned(bufs', s) {
      var j :| 0 <= j < |bufs'| && bufs'[j].Caches(DISK1, s) && bufs'[j].dirty;
      assert j != i ==> bufs[j].Caches(DISK1, s);
    }
    if Pinned(bufs, s) {
      var j :| 0 <= j < |bufs| && bufs[j].Caches(DISK1, s) && bufs[j].dirty;
      assert j != i ==> bufs'[j].Caches(DISK1, s);
    }
    assert bufs'[i] == b;
  }

  /** Different numbers that all occur in b are no more than b has. */
  lemma {:induction false} FitIn(a: seq<nat>, b: seq<nat>)
    requires (forall i, j :: 0 <= i < j < |a| ==> a[i] != a[j]) && forall i :: 0 <= i < |a| ==> a[i] in b
    ensures |a| <= |b|
    decreases |a|
  {
    if |a| > 0 {
      var n := |a| - 1;
      var k :| 0 <= k < |b| && b[k] == a[n];
      var rest := b[..k] + b[k + 1..];
      forall i | 0 <= i < n ensures a[..n][i] in rest {
        var m :| 0 <= m < |b| && b[m] == a[i];
        assert rest[if m < k then m else m - 1] == a[i];
      }
      FitIn(a[..n], rest);
    }
  }

  function Sectors(bufs: seq<Buf>): (r: seq<nat>)
    ensures |r| == |bufs| && forall i :: 0 <= i < |bufs| ==> r[i] == bufs[i].sector
  {
    seq(|bufs|, i requires 0 <= i < |bufs| => bufs[i].sector)
  }

  /** With fewer logged sectors than buffers, some buffer is clean. */
  lemma CleanBufferExists(bufs: seq<Buf>, disk: Disk, view: Disk, lh: seq<nat>)
    requires BufsOk(bufs, disk, view) && |lh| < NBUF
    requires forall s :: Pinned(bufs, s) ==> s in lh
    ensures SomeClean(bufs)
  {
    if forall i :: 0 <= i < NBUF ==> bufs[i].dirty {
      forall i | 0 <= i < NBUF ensures bufs[i].sector in lh {
        assert SlotOk(bufs[i], disk, view) && bufs[i].Caches(DISK1, bufs[i].sector);
        assert Pinned(bufs, bufs[i].sector);
      }
      FitIn(Sectors(bufs), lh);
      assert false;
    }
  }

  /** With as many logged sectors as buffers, none is. */
  lemma AllDirty(bufs: seq<Buf>, disk: Disk, view: Disk, lh: seq<nat>)
    requires BufsOk(bufs, disk, view) && |lh| == NBUF && Distinct(lh) && forall s :: s in lh ==> Pinned(bufs, s)
    ensures forall i :: 0 <= i < NBUF ==> bufs[i].dirty
  {
    AllDiffer(lh);
    forall x | 0 <= x < NBUF ensures bufs[x].dirty {
      if !bufs[x].dirty {
        var rest := bufs[..x] + bufs[x + 1..];
        forall k | 0 <= k < |lh| ensures lh[k] in Sectors(rest) {
          assert Pinned(bufs, lh[k]);
          var i :| 0 <= i < |bufs| && bufs[i].Caches(DISK1, lh[k]) && bufs[i].dirty;
          assert Sectors(rest)[if i < x then i else i - 1] == lh[k];
        }
        FitIn(lh, Sectors(rest));
        assert false;
      }
    }
  }

  /** So in a valid log a buffer is clean exactly if fewer than NBUF sectors are
      logged. */
  lemma CleanBufferExactly(bufs: seq<Buf>, disk: Disk, view: Disk, lh: seq<nat>)
    requires BufsOk(bufs, disk, view) && Distinct(lh) && |lh| <= NBUF && forall s :: Pinned(bufs, s) <==> s in lh
    ensures SomeClean(bufs) <==> |lh| < NBUF
  {
    if |lh| < NBUF {
      CleanBufferExists(bufs, disk, view, lh);
    } else {
      AllDirty(bufs, disk, view, lh);
    }
  }

  /** Replacing a slot keeps the pinned sectors if the dirty flag and, where it
      matters, the sector are kept. */
  lemma SamePinnedAfter(bufs: seq<Buf>, disk: Disk, view: Disk, i: nat, b: Buf)
    requires BufsOk(bufs, disk, view) && i < NBUF && b.dirty == bufs[i].dirty
    requires b.dirty ==> b.dev == bufs[i].dev && b.sector == bufs[i].sector
    ensures SamePinned(bufs, bufs[i := b])
  {
    var bufs' := bufs[i := b];
    forall s ensures Pinned(bufs, s) <==> Pinned(bufs', s) {
      if Pinned(bufs, s) {
        var j :| 0 <= j < |bufs| && bufs[j].Caches(DISK1, s) && bufs[j].dirty;
        assert bufs'[j].Caches(DISK1, s) && bufs'[j].dirty;
      }
      if Pinned(bufs', s) {
        var j :| 0 <= j < |bufs'| && bufs'[j].Caches(DISK1, s) && bufs'[j].dirty;
        assert bufs[j].Caches(DISK1, s) && bufs[j].dirty;
      }
    }
  }

  lemma Available(bufs: seq<Buf>, s: nat, held: set<nat>)
    requires Held(bufs, held)
    requires Pinned(bufs, s) || exists i :: 0 <= i < |bufs| && i !in held && !bufs[i].dirty
    ensures !Miss(bufs, DISK1, s) || exists i :: 0 <= i < |bufs| && bufs[i].Recyclable()
  {
    if !Pinned(bufs, s) {
      var i :| 0 <= i < |bufs| && i !in held && !bufs[i].dirty;
      assert bufs[i].Recyclable();
    }
  }

  /** bread of a sector that is not held.  It panics if the sector is not cached
      and no buffer can be recycled; then ok is false. */
  method Take(c: BCache, s: nat, ghost held: set<nat>) returns (ok: bool, b: nat)
    requires c.Valid() && s < |c.disk| && Held(c.bufs[..], held)
    requires forall i :: i in held && i < NBUF ==> c.bufs[i].sector != s
    modifies c.bufs, c`disk, c`journal
    ensures c.Valid() && c.disk == old(c.disk) && c.journal == old(c.journal)
    ensures Pinned(old(c.bufs[..]), s) || (exists i :: 0 <= i < NBUF && i !in held && !old(c.bufs[i]).dirty) ==> ok
    ensures (forall i :: 0 <= i < NBUF ==> old(c.bufs[i]).dirty) && !Pinned(old(c.bufs[..]), s) ==> !ok
    ensures !ok ==> c.bufs[..] == old(c.bufs[..])
    ensures ok ==> b < NBUF && b !in held && Held(c.bufs[..], held + {b})
    ensures ok ==> c.bufs[..] == old(c.bufs[..])[b := Buf(DISK1, s, true, true, old(c.bufs[b]).dirty, c.view[s])]
    ensures SamePinned(old(c.bufs[..]), c.bufs[..])
    ensures ok && old(c.bufs[b]).dirty ==> old(c.bufs[b]).sector == s
  {
    ghost var bufs0 := c.bufs[..];
    if Pinned(bufs0, s) || (exists i :: 0 <= i < NBUF && i !in held && !bufs0[i].dirty) {
      Available(bufs0, s, held);
    }
    NoneAvailable(bufs0, c.disk, c.view, s);
    var r := c.Bread(DISK1, s);
    if !r.Got? {
      return false, 0;
    }
    b := r.b;
    assert SlotOk(bufs0[b], c.disk, c.view);
    SamePinnedAfter(bufs0, c.disk, c.view, b, c.bufs[b]);
    return true, b;
  }

  lemma NoneAvailable(bufs: seq<Buf>, disk: Disk, view: Disk, s: nat)
    requires BufsOk(bufs, disk, view)
    ensures (forall i :: 0 <= i < NBUF ==> bufs[i].dirty) && !Pinned(bufs, s) ==>
              Miss(bufs, DISK1, s) && forall i :: 0 <= i < NBUF ==> !bufs[i].Recyclable()
  {
  }

  lemma AnotherClean(bufs: seq<Buf>, x: nat)
    requires |bufs| == NBUF && forall i :: 0 <= i < NBUF ==> !bufs[i].dirty
    ensures exists i :: 0 <= i < NBUF && i !in {x} && !bufs[i].dirty
  {
    var i := if x == 0 then 1 else 0;
    assert !bufs[i].dirty;
  }

  method TakeBoth(c: BCache, src: nat, dst: nat, dstFirst: bool) returns (ok: bool, f: nat, d: nat)
    requires c.Valid() && Held(c.bufs[..], {}) && src < |c.disk| && dst < |c.disk| && src != dst
    requires Pinned(c.bufs[..], if dstFirst then src else dst) || forall i :: 0 <= i < NBUF ==> !c.bufs[i].dirty
    modifies c.bufs, c`disk, c`journal
    ensures c.Valid() && c.disk == old(c.disk) && c.journal == old(c.journal)
    ensures SomeClean(old(c.bufs[..])) ==> ok
    ensures (forall i :: 0 <= i < NBUF ==> old(c.bufs[i]).dirty) ==>
              !Pinned(old(c.bufs[..]), if dstFirst then dst else src) ==> !ok
    ensures !ok ==> c.bufs[..] == old(c.bufs[..])
    ensures ok ==> f < NBUF && d < NBUF && f != d && Held(c.bufs[..], {f, d})
    ensures ok ==> c.bufs[f] == Buf(DISK1, src, true, true, c.bufs[f].dirty, c.view[src])
    ensures ok ==> c.bufs[d].Caches(DISK1, dst) && c.bufs[d].valid
    ensures SamePinned(old(c.bufs[..]), c.bufs[..])
  {
    var first, second := if dstFirst then dst else src, if dstFirst then src else dst;
    var a, b;
    ok, a := Take(c, first, {});
    if !ok {
      return false, 0, 0;
    }
    if !Pinned(c.bufs[..], second) {
      AnotherClean(c.bufs[..], a);
    }
    ok, b := Take(c, second, {a});
    f, d := if dstFirst then b else a, if dstFirst then a else b;
  }

  /** bwrite, brelse of the source and brelse of the destination. */
  method StoreAndRelease(c: BCache, f: nat, d: nat)
    requires c.Valid() && f < NBUF && d < NBUF && f != d && Held(c.bufs[..], {f, d})
    requires c.bufs[f].valid && c.bufs[f].data == c.view[c.bufs[f].sector]
    requires c.bufs[f].sector != c.bufs[d].sector
    modifies c, c.bufs, c.next, c.prev
    ensures c.Valid() && Held(c.bufs[..], {})
    ensures old(c.bufs[d]).sector < |old(c.disk)|
    ensures var dst, data := old(c.bufs[d]).sector, old(c.bufs[d]).data;
            c.disk == old(c.disk)[dst := data] && c.view == old(c.view)[dst := data] &&
            c.journal == old(c.journal) + [Write(dst, data)] &&
            forall s :: Pinned(c.bufs[..], s) <==> Pinned(old(c.bufs[..]), s) && s != dst
  {
    ghost var bufs0 := c.bufs[..];
    assert SlotOk(bufs0[d], c.disk, c.view);
    forall s
      ensures Pinned(bufs0[d := bufs0[d].(dirty := false, valid := true)], s) <==>
                Pinned(bufs0, s) && s != bufs0[d].sector
    {
      PinnedReplace(bufs0, c.disk, c.view, d, bufs0[d].(dirty := false, valid := true), s);
    }
    c.Bwrite(d);
    ghost var bufs1 := c.bufs[..];
    SamePinnedAfter(bufs1, c.disk, c.view, f, bufs1[f].(busy := false));
    c.Brelse(f);
    ghost var bufs2 := c.bufs[..];
    SamePinnedAfter(bufs2, c.disk, c.view, d, bufs2[d].(busy := false));
    c.Brelse(d);
  }

  /** Copy one sector onto another through the cache: one turn of write_log's
      loop (log.c:180-185, destination read first) or of install_trans's
      (log.c:74-79, source read first). */
  method CopySector(c: BCache, src: nat, dst: nat, dstFirst: bool) returns (ok: bool)
    requires c.Valid() && Held(c.bufs[..], {}) && src < |c.disk| && dst < |c.disk| && src != dst
    requires Pinned(c.bufs[..], if dstFirst then src else dst) || forall i :: 0 <= i < NBUF ==> !c.bufs[i].dirty
    modifies c, c.bufs, c.next, c.prev
    ensures c.Valid() && Held(c.bufs[..], {})
    ensures SomeClean(old(c.bufs[..])) ==> ok
    ensures (forall i :: 0 <= i < NBUF ==> old(c.bufs[i]).dirty) ==>
              !Pinned(old(c.bufs[..]), if dstFirst then dst else src) ==> !ok
    ensures !ok ==>
              c.bufs[..] == old(c.bufs[..]) && c.disk == old(c.disk) && c.view == old(c.view) &&
              c.journal == old(c.journal)
    ensures ok ==> c.disk == old(c.disk)[dst := old(c.view)[src]] && c.view == old(c.view)[dst := old(c.view)[src]]
    ensures ok ==> c.journal == old(c.journal) + [Write(dst, old(c.view)[src])]
    ensures ok ==> forall s :: Pinned(c.bufs[..], s) <==> Pinned(old(c.bufs[..]), s) && s != dst
  {
    var f, d;
    ok, f, d := TakeBoth(c, src, dst, dstFirst);
    if ok {
      c.SetData(d, c.bufs[f].data);
      StoreAndRelease(c, f, d);
    }
  }

  /** bwrite of new data in a held buffer, then brelse. */
  method WriteBack(c: BCache, b: nat, data: Block)
    requires c.Valid() && b < NBUF && Held(c.bufs[..], {b}) && !Pinned(c.bufs[..], c.bufs[b].sector)
    modifies c, c.bufs, c.next, c.prev
    ensures c.Valid() && Held(c.bufs[..], {})
    ensures old(c.bufs[b]).sector < |old(c.disk)| && SamePinned(old(c.bufs[..]), c.bufs[..])
    ensures var s := old(c.bufs[b]).sector;
            c.disk == old(c.disk)[s := data] && c.view == old(c.view)[s := data] &&
            c.journal == old(c.journal) + [Write(s, data)]
  {
    ghost var bufs0 := c.bufs[..];
    assert SlotOk(bufs0[b], c.disk, c.view);
    assert bufs0[b].Caches(DISK1, bufs0[b].sector) && !bufs0[b].dirty;
    SamePinnedAfter(bufs0, c.disk, c.view, b, Buf(DISK1, bufs0[b].sector, false, true, false, data));
    c.SetData(b, data);
    c.Bwrite(b);
    c.Brelse(b);
  }

  lemma PinnedClean(bufs: seq<Buf>, disk: Disk, view: Disk, lh: seq<nat>)
    requires BufsOk(bufs, disk, view) && |lh| < NBUF
    requires forall s :: Pinned(bufs, s) ==> s in lh
    ensures SomeClean(bufs)
    ensures lh == [] ==> forall i :: 0 <= i < NBUF ==> !bufs[i].dirty
  {
    CleanBufferExists(bufs, disk, view, lh);
    forall i | 0 <= i < NBUF && bufs[i].dirty ensures bufs[i].sector in lh {
      assert SlotOk(bufs[i], disk, view) && bufs[i].Caches(DISK1, bufs[i].sector) && Pinned(bufs, bufs[i].sector);
    }
  }

  ghost predicate ToInstall(lh: seq<nat>, k: nat, s: nat) {
    exists i :: k <= i < |lh| && lh[i] == s
  }

  /** Installing one sector leaves the others to be installed. */
  lemma RestDiffers(lh: seq<nat>, k: nat, commit: bool)
    requires k < |lh| && (commit ==> Distinct(lh))
    ensures ToInstall(lh, k, lh[k])
    ensures commit ==> forall s :: ToInstall(lh, k + 1, s) <==> ToInstall(lh, k, s) && s != lh[k]
    ensures forall s :: ToInstall(lh, k, s) ==> s in lh
  {
    AllDiffer(lh);
  }

  lemma AddOne(j0: seq<Write>, ws: seq<Write>, w: Write)
    ensures j0 + ws + [w] == j0 + (ws + [w])
  {
  }

  /** The log writes and the header write that follows them. */
  lemma SavePieces(v0: Disk, j0: seq<Write>, log: Region, lh: seq<nat>, data: seq<Block>)
    requires log.Fits(v0) && |lh| == |data| <= LOGSIZE
    ensures var lw, head := LogWrites(log, data), WithHeader(v0[log.start], lh);
            var save := SaveWrites(log, v0[log.start], lh, data);
            j0 + lw + [Write(log.start, head)] == j0 + save && Apply(v0, lw)[log.start := head] == Apply(v0, save)
  {
    var lw, head := LogWrites(log, data), WithHeader(v0[log.start], lh);
    ApplySnoc(v0, lw, Write(log.start, head));
    AddOne(j0, lw, Write(log.start, head));
  }

  /** One more write of a planned sequence. */
  lemma OneMore(d: Disk, j0: seq<Write>, ws: seq<Write>, t: nat)
    requires t < |ws| && ws[t].sector < |d|
    ensures Apply(d, ws[..t + 1]) == Apply(d, ws[..t])[ws[t].sector := ws[t].data]
    ensures j0 + ws[..t] + [ws[t]] == j0 + ws[..t + 1]
  {
    assert ws[..t + 1] == ws[..t] + [ws[t]];
    ApplySnoc(d, ws[..t], ws[t]);
  }

  /** A sector that is not pinned shows what is on the disk. */
  lemma UnpinnedOnDisk(bufs: seq<Buf>, disk: Disk, view: Disk, s: nat)
    requires BufsOk(bufs, disk, view) && s < |disk| && !Pinned(bufs, s)
    ensures view[s] == disk[s]
  {
    assert SectorOk(bufs, disk, view, s);
  }

  lemma AllOnDisk(bufs: seq<Buf>, disk: Disk, view: Disk)
    requires BufsOk(bufs, disk, view) && forall s :: !Pinned(bufs, s)
    ensures view == disk
  {
    forall s | 0 <= s < |disk| ensures view[s] == disk[s] {
      UnpinnedOnDisk(bufs, disk, view, s);
    }
  }

  /** Disk and view differ before a commit only where it writes, so its writes
      take both to the same blocks. */
  lemma CommitMeets(disk: Disk, view: Disk, log: Region, lh: seq<nat>, ws: seq<Write>)
    requires |view| == |disk| && log.Fits(disk) && HomeSectors(lh, log, disk)
    requires forall s :: 0 <= s < |disk| && s !in lh ==> view[s] == disk[s]
    requires ws == CommitWrites(log, disk[log.start], lh, Blocks(view, lh))
    ensures Apply(disk, ws) == Apply(view, ws)
  {
    forall s | 0 <= s < |disk| ensures Apply(disk, ws)[s] == Apply(view, ws)[s] {
      if s in lh {
        var k :| 0 <= k < |lh| && lh[k] == s;
        assert ws[|lh| + 1 + k].sector == s;
      }
      ApplyCongruent(disk, view, ws, s);
    }
  }

  /** The home blocks after a commit are those of the view before it. */
  lemma CommitKeepsView(view: Disk, log: Region, header: Block, lh: seq<nat>, ws: seq<Write>)
    requires log.Fits(view) && HomeSectors(lh, log, view)
    requires ws == CommitWrites(log, header, lh, Blocks(view, lh))
    ensures SameHome(Apply(view, ws), view, log)
  {
    forall s | 0 <= s < |view| && !log.Has(s) ensures Apply(view, ws)[s] == view[s] {
      if s in lh {
        var k :| 0 <= k < |lh| && lh[k] == s;
        assert ws[|lh| + 1 + k] == Write(s, view[s]);
        ApplyLast(view, ws, s, |lh| + 1 + k, view[s]);
      } else {
        ApplyFrame(view, ws, s);
      }
    }
  }

  lemma CommitDisk(bufs: seq<Buf>, disk: Disk, view: Disk, log: Region, lh: seq<nat>)
    requires BufsOk(bufs, disk, view) && log.Fits(disk) && HomeSectors(lh, log, disk)
    requires forall s :: Pinned(bufs, s) <==> s in lh
    ensures view[log.start] == disk[log.start]
    ensures var ws := CommitWrites(log, disk[log.start], lh, Blocks(view, lh));
            Apply(disk, ws) == Apply(view, ws) && SameHome(Apply(view, ws), view, log)
  {
    forall s | 0 <= s < |disk| && s !in lh ensures view[s] == disk[s] {
      UnpinnedOnDisk(bufs, disk, view, s);
    }
    var ws := CommitWrites(log, disk[log.start], lh, Blocks(view, lh));
    CommitMeets(disk, view, log, lh, ws);
    CommitKeepsView(view, log, disk[log.start], lh, ws);
  }

  /** What commit reads back after the commit point: the header and the log
      blocks are those it has just written.  Its two halves make CommitWrites. */
  lemma CommitViews(v0: Disk, j0: seq<Write>, log: Region, lh: seq<nat>, data: seq<Block>)
    requires log.Fits(v0) && HomeSectors(lh, log, v0) && |lh| == |data|
    ensures var v2 := Apply(v0, SaveWrites(log, v0[log.start], lh, data));
            v2[log.start] == WithHeader(v0[log.start], lh) && LogBlocks(v2, log, |lh|) == data
    ensures lh != [] ==>
              var save := SaveWrites(log, v0[log.start], lh, data);
              var clear := ClearWrites(log, WithHeader(v0[log.start], lh), lh, data);
              var all := CommitWrites(log, v0[log.start], lh, data);
              j0 + save + clear == j0 + all && Apply(Apply(v0, save), clear) == Apply(v0, all)
  {
    HeadWrittenCommits(v0, log, lh, data);
    var save := SaveWrites(log, v0[log.start], lh, data);
    var clear := ClearWrites(log, WithHeader(v0[log.start], lh), lh, data);
    assert j0 + save + clear == j0 + (save + clear);
    ApplyConcat(v0, save, clear);
  }

  lemma AbsorbDistinct(lh: seq<nat>, s: nat)
    requires Distinct(lh)
    ensures Distinct(Absorb(lh, s)) && forall x :: x in Absorb(lh, s) <==> x in lh || x == s
  {
    AllDiffer(lh);
    AllDiffer(Absorb(lh, s));
  }

  class KernelLog {
    const c: BCache
    var start: nat
    var size: nat
    var outstanding: nat
    var committing: bool
    var n: nat
    const sector: array<nat>

    ghost function Where(): Region
      reads this
    {
      Region(start, size)
    }

    ghost function LH(): seq<nat>
      requires n <= sector.Length
      reads this, sector
    {
      sector[..n]
    }

    ghost predicate Shape()
      reads this, sector, c, c.bufs, c.next, c.prev
    {
      && sector.Length == LOGSIZE && sector != c.next && sector != c.prev && n <= LOGSIZE
      && c.Valid() && Where().Fits(c.disk)
    }

    /** The logged sectors are the pinned ones. */
    ghost predicate Valid()
      reads this, sector, c, c.bufs, c.next, c.prev
    {
      && Shape() && HomeSectors(LH(), Where(), c.disk) && Distinct(LH())
      && forall s :: Pinned(c.bufs[..], s) <==> s in LH()
    }

    /** The superblock's values (log.c:61-63); recovery comes next. */
    constructor Attach(c: BCache, start: nat, size: nat)
      requires c.Valid() && Region(start, size).Fits(c.disk)
      ensures Shape() && this.c == c && this.start == start && this.size == size
      ensures outstanding == 0 && !committing && n == 0 && fresh(sector)
    {
      this.c := c;
      this.start, this.size := start, size;
      outstanding, committing, n := 0, false, 0;
      sector := new nat[LOGSIZE](_ => 0);
    }

    /** The header overlay of write_head (log.c:104-109). */
    method HeaderBlock(was: Block) returns (data: Block)
      requires sector.Length == LOGSIZE && n <= LOGSIZE
      ensures data == WithHeader(was, LH())
    {
      data := was[0 := n];
      var i := 0;
      while i < n
        invariant 0 <= i <= n && |data| == BLOCK_WORDS
        invariant forall k :: 0 <= k < BLOCK_WORDS ==>
                    data[k] == if k == 0 then n else if k <= i then sector[k - 1] else was[k]
      {
        data := data[1 + i := sector[i]];
        i := i + 1;
      }
    }

    /** write_head (log.c:100-112). */
    method WriteHead()
      requires Shape() && Held(c.bufs[..], {}) && SomeClean(c.bufs[..]) && !Pinned(c.bufs[..], start)
      modifies c, c.bufs, c.next, c.prev
      ensures Shape() && Held(c.bufs[..], {}) && SamePinned(old(c.bufs[..]), c.bufs[..])
      ensures |c.disk| == |old(c.disk)| && LH() == old(LH())
      ensures var head := WithHeader(old(c.view)[start], LH());
              c.journal == old(c.journal) + [Write(start, head)] && c.view == old(c.view)[start := head]
    {
      var _, b := Take(c, start, {});
      var data := HeaderBlock(c.bufs[b].data);
      WriteBack(c, b, data);
    }

    /** One turn of write_log's loop (log.c:180-185).  With all buffers pinned
        there is none for the log block, and bget panics. */
    method LogOne(tail: nat, ghost w: Write) returns (ok: bool)
      requires Valid() && Held(c.bufs[..], {}) && tail < n
      requires w == Write(start + 1 + tail, c.view[sector[tail]])
      modifies c, c.bufs, c.next, c.prev
      ensures Valid() && Held(c.bufs[..], {}) && (ok <==> n < NBUF)
      ensures !ok ==> c.journal == old(c.journal) && c.disk == old(c.disk) && c.view == old(c.view)
      ensures ok ==> c.journal == old(c.journal) + [w] && c.view == old(c.view)[w.sector := w.data]
    {
      CleanBufferExactly(c.bufs[..], c.disk, c.view, LH());
      assert LH()[tail] in LH();
      ok := CopySector(c, sector[tail], start + tail + 1, true);
    }

    /** write_log (log.c:174-187): the cached blocks go to the log sectors. */
    method WriteLog() returns (ok: bool)
      requires Valid() && Held(c.bufs[..], {})
      modifies c, c.bufs, c.next, c.prev
      ensures Valid() && Held(c.bufs[..], {}) && (ok <==> n < NBUF)
      ensures LH() == old(LH()) && c.view[start] == old(c.view)[start]
      ensures !ok ==> c.journal == old(c.journal) && c.disk == old(c.disk) && c.view == old(c.view)
      ensures ok ==> var ws := LogWrites(Where(), Blocks(old(c.view), LH()));
                c.journal == old(c.journal) + ws && c.view == Apply(old(c.view), ws)
    {
      ghost var j0, view0, data := c.journal, c.view, Blocks(c.view, LH());
      ghost var ws := LogWrites(Where(), data);
      var tail := 0;
      while tail < n
        invariant 0 <= tail <= n && Valid() && Held(c.bufs[..], {})
        invariant c.journal == j0 + ws[..tail] && c.view == Apply(view0, ws[..tail])
        invariant tail == 0 || n < NBUF
        invariant tail == 0 ==> c.disk == old(c.disk)
      {
        LogWritesStayInLog(view0, Where(), data, tail, sector[tail]);
        ok := LogOne(tail, ws[tail]);
        if !ok {
          return;
        }
        OneMore(view0, j0, ws, tail);
        tail := tail + 1;
      }
      assert ws[..n] == ws;
      LogWritesStayInLog(view0, Where(), data, n, start);
      return true;
    }

    /** Before the turn `tail` of install_trans: in a commit the sectors still to
        be installed are pinned, in recovery none is. */
    ghost predicate Installing(tail: nat, commit: bool)
      reads this, sector, c, c.bufs, c.next, c.prev
    {
      && Shape() && Held(c.bufs[..], {}) && HomeSectors(LH(), Where(), c.disk) && tail <= n
      && (commit ==> n < NBUF && Distinct(LH()))
      && (forall s :: Pinned(c.bufs[..], s) <==> commit && ToInstall(LH(), tail, s))
    }

    /** One turn of install_trans's loop (log.c:74-79). */
    method InstallOne(tail: nat, ghost commit: bool, ghost w: Write)
      requires tail < n && Installing(tail, commit) && w == Write(sector[tail], c.view[start + 1 + tail])
      modifies c, c.bufs, c.next, c.prev
      ensures Installing(tail + 1, commit) && LH() == old(LH())
      ensures c.journal == old(c.journal) + [w] && c.view == old(c.view)[w.sector := w.data]
    {
      PinnedClean(c.bufs[..], c.disk, c.view, if commit then LH() else []);
      RestDiffers(LH(), tail, commit);
      var _ := CopySector(c, start + tail + 1, sector[tail], false);
    }

    /** install_trans (log.c:68-81). */
    method InstallTrans(ghost commit: bool)
      requires Installing(0, commit)
      modifies c, c.bufs, c.next, c.prev
      ensures Installing(n, commit) && LH() == old(LH())
      ensures var ws := InstallWrites(LH(), LogBlocks(old(c.view), Where(), n));
              c.journal == old(c.journal) + ws && c.view == Apply(old(c.view), ws)
    {
      ghost var lh, j0, view0, data := LH(), c.journal, c.view, LogBlocks(c.view, Where(), n);
      ghost var ws := InstallWrites(lh, data);
      var tail := 0;
      while tail < n
        invariant 0 <= tail <= n && Installing(tail, commit) && LH() == lh
        invariant c.journal == j0 + ws[..tail] && c.view == Apply(view0, ws[..tail])
      {
        InstallKeepsLog(view0, Where(), lh, data, tail, start + 1 + tail);
        InstallOne(tail, commit, ws[tail]);
        OneMore(view0, j0, ws, tail);
        tail := tail + 1;
      }
      assert ws[..n] == ws;
    }

    /** The part of commit up to the commit point (log.c:193-194). */
    method SaveToLog() returns (ok: bool)
      requires Valid() && Held(c.bufs[..], {})
      modifies c, c.bufs, c.next, c.prev
      ensures Valid() && Held(c.bufs[..], {}) && LH() == old(LH()) && (ok <==> n < NBUF)
      ensures !ok ==> c.journal == old(c.journal) && c.disk == old(c.disk) && c.view == old(c.view)
      ensures ok ==> var ws := SaveWrites(Where(), old(c.view)[start], old(LH()), Blocks(old(c.view), old(LH())));
                c.journal == old(c.journal) + ws && c.view == Apply(old(c.view), ws)
    {
      SavePieces(c.view, c.journal, Where(), LH(), Blocks(c.view, LH()));
      ok := WriteLog();
      if ok {
        WriteHeadOfLog();
      }
    }

    /** The true commit (log.c:194), with the logged blocks pinned. */
    method WriteHeadOfLog()
      requires Valid() && Held(c.bufs[..], {}) && n < NBUF
      modifies c, c.bufs, c.next, c.prev
      ensures Valid() && Held(c.bufs[..], {}) && LH() == old(LH())
      ensures var head := WithHeader(old(c.view)[start], LH());
              c.journal == old(c.journal) + [Write(start, head)] && c.view == old(c.view)[start := head]
    {
      CleanBufferExists(c.bufs[..], c.disk, c.view, LH());
      WriteHead();
    }

    lemma ReadyToInstall()
      requires Valid() && Held(c.bufs[..], {}) && n < NBUF
      ensures Installing(0, true)
    {
      assert forall s :: s in LH() <==> ToInstall(LH(), 0, s);
    }

    /** Install, then clear the header: the end of commit (log.c:195-197) and of
        recovery (log.c:118-120). */
    method InstallAndClear(ghost commit: bool)
      requires Installing(0, commit)
      modifies this`n, c, c.bufs, c.next, c.prev
      ensures Valid() && Held(c.bufs[..], {}) && n == 0
      ensures var ws := ClearWrites(Where(), old(c.view)[start], old(LH()), LogBlocks(old(c.view), Where(), old(n)));
              c.journal == old(c.journal) + ws && c.view == Apply(old(c.view), ws)
    {
      ghost var lh, data := LH(), LogBlocks(c.view, Where(), n);
      ghost var iw, clear := InstallWrites(lh, data), Write(start, WithHeader(c.view[start], []));
      InstallKeepsLog(c.view, Where(), lh, data, |lh|, start);
      assert iw[..|lh|] == iw;
      ApplySnoc(c.view, iw, clear);
      AddOne(c.journal, iw, clear);
      InstallTrans(commit);
      PinnedClean(c.bufs[..], c.disk, c.view, []);
      n := 0;
      WriteHead();
    }

    /** commit (log.c:189-199), as the cache sees it. */
    method CommitThroughCache() returns (ok: bool)
      requires Valid() && Held(c.bufs[..], {}) && c.view[start] == c.disk[start]
      modifies this`n, c, c.bufs, c.next, c.prev
      ensures Valid() && Held(c.bufs[..], {}) && (ok <==> old(n) < NBUF)
      ensures !ok ==> LH() == old(LH()) && c.journal == old(c.journal) && c.disk == old(c.disk) && c.view == old(c.view)
      ensures ok ==>
                n == 0 &&
                var ws := CommitWrites(Where(), old(c.view)[start], old(LH()), Blocks(old(c.view), old(LH())));
                c.journal == old(c.journal) + ws && c.view == Apply(old(c.view), ws)
    {
      CommitViews(c.view, c.journal, Where(), LH(), Blocks(c.view, LH()));
      ok := true;
      if n > 0 {
        ok := SaveToLog();
        if ok {
          ReadyToInstall();
          InstallAndClear(true);
        }
      }
    }

    /** commit (log.c:189-199).  It panics, before its first write, exactly if as
        many sectors are logged as there are buffers; a log of at most NBUF
        sectors never gets there.  Otherwise its disk writes are those of
        CommitWrites, in that order; no buffer stays dirty, and no home block
        changes its current contents. */
    method Commit() returns (ok: bool)
      requires Valid() && Held(c.bufs[..], {})
      modifies this`n, c, c.bufs, c.next, c.prev
      ensures Valid() && Held(c.bufs[..], {}) && (ok <==> old(n) < NBUF) && (size <= NBUF ==> ok)
      ensures !ok ==> LH() == old(LH()) && c.journal == old(c.journal) && c.disk == old(c.disk) && c.view == old(c.view)
      ensures ok ==> n == 0 && forall i :: 0 <= i < NBUF ==> !c.bufs[i].dirty
      ensures ok ==> var ws := CommitWrites(Where(), old(c.disk)[start], old(LH()), Blocks(old(c.view), old(LH())));
                c.journal == old(c.journal) + ws && c.disk == Apply(old(c.disk), ws) && c.view == c.disk
      ensures SameHome(c.view, old(c.view), Where())
    {
      CommitDisk(c.bufs[..], c.disk, c.view, Where(), LH());
      ok := CommitThroughCache();
      if ok {
        PinnedClean(c.bufs[..], c.disk, c.view, []);
        AllOnDisk(c.bufs[..], c.disk, c.view);
      }
    }

    /** The overlay of read_head (log.c:88-93). */
    method ParseHeader(data: Block)
      requires sector.Length == LOGSIZE && HeaderCount(data) <= LOGSIZE
      modifies this`n, sector
      ensures n == HeaderCount(data) && sector[..n] == HeaderSectors(data)
    {
      n := data[0];
      var i := 0;
      while i < n
        invariant 0 <= i <= n == data[0] && forall k :: 0 <= k < i ==> sector[k] == data[1 + k]
      {
        sector[i] := data[1 + i];
        i := i + 1;
      }
    }

    /** read_head (log.c:84-95). */
    method ReadHead()
      requires Shape() && Held(c.bufs[..], {}) && SomeClean(c.bufs[..])
      requires HeaderCount(c.view[start]) <= LOGSIZE
      modifies this`n, sector, c`disk, c`journal, c.bufs, c.next, c.prev, c`cyc, c`last, c`clock
      ensures Shape() && Held(c.bufs[..], {}) && SamePinned(old(c.bufs[..]), c.bufs[..])
      ensures c.view == old(c.view) && c.disk == old(c.disk) && c.journal == old(c.journal)
      ensures LH() == HeaderSectors(c.view[start])
    {
      var _, b := Take(c, start, {});
      ParseHeader(c.bufs[b].data);
      ghost var bufs1 := c.bufs[..];
      SamePinnedAfter(bufs1, c.disk, c.view, b, bufs1[b].(busy := false));
      c.Brelse(b);
    }

    /** recover_from_log (log.c:114-121) on a fresh cache: its disk writes are
        those of RecoverWrites. */
    method RecoverFromLog()
      requires Shape() && Held(c.bufs[..], {}) && Sane(c.disk, Where())
      requires c.view == c.disk && forall s :: !Pinned(c.bufs[..], s)
      modifies this`n, sector, c, c.bufs, c.next, c.prev
      ensures Valid() && Held(c.bufs[..], {}) && n == 0
      ensures c.journal == old(c.journal) + RecoverWrites(old(c.disk), Where())
      ensures c.disk == c.view == Recovered(old(c.disk), Where())
    {
      PinnedClean(c.bufs[..], c.disk, c.view, []);
      ReadHead();
      InstallAndClear(false);
      AllOnDisk(c.bufs[..], c.disk, c.view);
    }

    /** log_write (log.c:211-230); its panics are the requires.  An entry is
        added unless the sector has one, and the buffer is pinned. */
    method LogWrite(b: nat)
      requires Valid() && b < NBUF && c.bufs[b].busy && c.bufs[b].valid && !Where().Has(c.bufs[b].sector)
      requires n < LOGSIZE && n < size - 1 && outstanding >= 1
      modifies this`n, sector, c.bufs, c`view
      ensures Valid() && LH() == Absorb(old(LH()), c.bufs[b].sector)
      ensures c.bufs[..] == old(c.bufs[..])[b := old(c.bufs[b]).(dirty := true)]
      ensures c.bufs[b].sector < |old(c.view)| && c.view == old(c.view)[c.bufs[b].sector := c.bufs[b].data]
    {
      ghost var lh, bufs0, s := LH(), c.bufs[..], c.bufs[b].sector;
      assert SlotOk(bufs0[b], c.disk, c.view);
      var i := 0;
      while i < n && sector[i] != c.bufs[b].sector
        invariant 0 <= i <= n && forall k :: 0 <= k < i ==> sector[k] != s
      {
        i := i + 1;
      }
      sector[i] := c.bufs[b].sector;
      if i == n {
        n := n + 1;
      }
      AbsorbDistinct(lh, s);
      assert LH() == Absorb(lh, s);
      forall x ensures Pinned(bufs0[b := bufs0[b].(dirty := true)], x) <==> Pinned(bufs0, x) || x == s {
        PinnedReplace(bufs0, c.disk, c.view, b, bufs0[b].(dirty := true), x);
      }
      c.Pin(b);
    }

    /** One turn of begin_op's loop (log.c:129-138): wait, or enter. */
    method BeginOp() returns (entered: bool)
      modifies this`outstanding
      ensures entered <==> !committing && n + (old(outstanding) + 1) * MAXOPBLOCKS <= LOGSIZE
      ensures outstanding == old(outstanding) + if entered then 1 else 0
    {
      if committing {
        return false;
      } else if n + (outstanding + 1) * MAXOPBLOCKS > LOGSIZE {
        return false;
      }
      outstanding := outstanding + 1;
      return true;
    }

    /** end_op (log.c:145-171): the last operation out commits for all, unless
        the commit panics. */
    method EndOp() returns (ok: bool)
      requires Valid() && outstanding >= 1 && !committing && (outstanding == 1 ==> Held(c.bufs[..], {}))
      modifies this`outstanding, this`committing, this`n, c, c.bufs, c.next, c.prev
      ensures Valid() && outstanding == old(outstanding) - 1 && committing == !ok
      ensures ok <==> outstanding > 0 || old(n) < NBUF
      ensures outstanding > 0 || !ok ==>
                LH() == old(LH()) && c.journal == old(c.journal) && c.disk == old(c.disk) && c.view == old(c.view)
      ensures outstanding == 0 && ok ==> n == 0 && Held(c.bufs[..], {})
      ensures outstanding == 0 && ok ==>
                var ws := CommitWrites(Where(), old(c.disk)[start], old(LH()), Blocks(old(c.view), old(LH())));
                c.journal == old(c.journal) + ws && c.disk == Apply(old(c.disk), ws) && c.view == c.disk
      ensures SameHome(c.view, old(c.view), Where())
    {
      outstanding := outstanding - 1;
      ok := true;
      if outstanding == 0 {
        committing := true;
        ok := Commit();
        if ok {
          committing := false;
        }
      }
    }
  }

  /** Start-up: binit, then initlog (log.c:53-65).  Whatever disk a crash left,
      the log comes up clear over the recovered blocks. */
  method InitLog(d: Disk, start: nat, size: nat) returns (l: KernelLog)
    requires Sane(d, Region(start, size))
    ensures fresh(l) && l.Valid() && l.start == start && l.size == size && l.n == 0
    ensures Held(l.c.bufs[..], {}) && l.outstanding == 0 && !l.committing
    ensures l.c.disk == l.c.view == Recovered(d, Region(start, size))
    ensures HeaderCount(l.c.disk[start]) == 0 && l.c.journal == RecoverWrites(d, Region(start, size))
  {
    var c := new BCache(d);
    assert forall s :: !Pinned(c.bufs[..], s);
    l := new KernelLog.Attach(c, start, size);
    RecoveredBlocks(d, Region(start, size));
    l.RecoverFromLog();
  }

  /** After k of the writes and any number of crashes in recovery, the home
      blocks are those of v once the header is written, and of d before. */
  ghost predicate AllOrNothing(d: Disk, v: Disk, log: Region, ws: seq<Write>, n: nat, k: nat, js: seq<nat>)
    requires k <= |ws|
  {
    Sane(Apply(d, ws[..k]), log) &&
    SameHome(Recovered(CrashyRecovery(Apply(d, ws[..k]), log, js), log), if k > n then v else d, log)
  }

  /** The crash theorem about the code: wherever a crash cuts commit short, and
      however often recovery is cut short after it, the disk comes up with all
      that was current in the cache, or with nothing new.  A commit that panics
      has written nothing. */
  method CommitOrNothing(l: KernelLog) returns (ok: bool, ghost ws: seq<Write>)
    requires l.Valid() && Held(l.c.bufs[..], {}) && HeaderCount(l.c.disk[l.start]) == 0
    modifies l`n, l.c, l.c.bufs, l.c.next, l.c.prev
    ensures l.Valid() && HeaderCount(l.c.disk[l.start]) == 0 && (ok <==> old(l.n) < NBUF)
    ensures l.c.journal == old(l.c.journal) + ws && if ok then l.n == 0 else ws == []
    ensures forall k, js :: 0 <= k <= |ws| ==>
              AllOrNothing(old(l.c.disk), old(l.c.view), l.Where(), ws, old(l.n), k, js)
  {
    ghost var d, v, log, lh := l.c.disk, l.c.view, l.Where(), l.LH();
    ok := l.Commit();
    if ok {
      ghost var data := Blocks(v, lh);
      ws := CommitWrites(log, d[log.start], lh, data);
      CommitInstalls(d, v, log, lh, l.c.disk);
      forall k: nat, js: seq<nat> | k <= |ws| ensures AllOrNothing(d, v, log, ws, |lh|, k, js) {
        CrashAtomicity(d, log, lh, data, k, js);
      }
    } else {
      ws := [];
      forall k: nat, js: seq<nat> | k <= |ws| ensures AllOrNothing(d, v, log, ws, |lh|, k, js) {
        NothingWritten(d, log, js);
      }
    }
  }

  lemma NothingWritten(d: Disk, log: Region, js: seq<nat>)
    requires Sane(d, log) && HeaderCount(d[log.start]) == 0
    ensures Apply(d, []) == d && SameHome(Recovered(CrashyRecovery(d, log, js), log), d, log)
  {
    RecoveredClear(d, log);
    ManyRecoveryCrashes(d, log, js);
  }

  lemma CommitInstalls(d: Disk, v: Disk, log: Region, lh: seq<nat>, d': Disk)
    requires Sane(d, log) && HeaderCount(d[log.start]) == 0 && HomeSectors(lh, log, d) && |v| == |d|
    requires d' == Apply(d, CommitWrites(log, d[log.start], lh, Blocks(v, lh))) && SameHome(d', v, log)
    ensures HeaderCount(d'[log.start]) == 0 && SameHome(Apply(d, InstallWrites(lh, Blocks(v, lh))), v, log)
  {
    if lh != [] {
      CommitComplete(d, log, lh, Blocks(v, lh));
    }
  }
}

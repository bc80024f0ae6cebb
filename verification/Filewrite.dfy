/** filewrite (file.c:116-150): a write is cut into pieces, each one operation of
    the log, and the pieces are bigger than the operation's reservation. */
module Filewrite {
  import opened Common
  import opened BlockMap
  import opened Fs
  import CrashSpec
  import GroupCommit

  /** The bytes of a full piece: 13 blocks (file.c:132). */
  const MAXPIECE: nat := (CrashSpec.LOGSIZE - 1 - 1 - 2) / 2 * BSIZE

  /** The pieces one after the other make one write. */
  lemma OverwriteTwice(data: seq<byte>, off: nat, a: seq<byte>, b: seq<byte>)
    requires off <= |data|
    ensures off + |a| <= |Overwrite(data, off, a)|
    ensures Overwrite(Overwrite(data, off, a), off + |a|, b) == Overwrite(data, off, a + b)
  {
    var one, two := Overwrite(Overwrite(data, off, a), off + |a|, b), Overwrite(data, off, a + b);
    assert |one| == |two|;
    forall k | 0 <= k < |one| ensures one[k] == two[k] {
    }
  }

  /** How filewrite ends: n, -1, or balloc's panic. */
  datatype Outcome = AllWritten | Failed | Panicked

  /** No file but i has changed. */
  ghost predicate OthersKept(inodes0: seq<Inode>, blocks0: seq<Block>, inodes: seq<Inode>, blocks: seq<Block>, i: nat) {
    && WellFormed(inodes0) && WellFormed(inodes) && |inodes| == |inodes0|
    && forall j :: 0 <= j < |inodes| && j != i ==> Content(inodes[j], blocks) == Content(inodes0[j], blocks0)
  }

  /** The file has these bytes at off, and no other file has changed. */
  ghost predicate Holds(inodes0: seq<Inode>, blocks0: seq<Block>, inodes: seq<Inode>, blocks: seq<Block>,
                        i: nat, off: nat, addr: seq<byte>)
  {
    && OthersKept(inodes0, blocks0, inodes, blocks, i) && i < |inodes| && off <= inodes0[i].size
    && Content(inodes[i], blocks) == Overwrite(Content(inodes0[i], blocks0), off, addr)
  }

  lemma HoldsOn(inodes0: seq<Inode>, blocks0: seq<Block>, inodes1: seq<Inode>, blocks1: seq<Block>,
                inodes: seq<Inode>, blocks: seq<Block>, i: nat, off: nat, addr: seq<byte>, k: nat, n: nat)
    requires k + n <= |addr| && Holds(inodes0, blocks0, inodes1, blocks1, i, off, addr[..k])
    requires off + k <= inodes1[i].size
    requires Holds(inodes1, blocks1, inodes, blocks, i, off + k, addr[k..k + n])
    ensures Holds(inodes0, blocks0, inodes, blocks, i, off, addr[..k + n])
  {
    assert addr[..k] + addr[k..k + n] == addr[..k + n];
    OverwriteTwice(Content(inodes0[i], blocks0), off, addr[..k], addr[k..k + n]);
  }

  /** One piece (file.c:138-143): it panics exactly when the blocks it lacks are
      more than there are. */
  method WriteOne(fs: FileSystem, i: nat, at: nat, piece: seq<byte>) returns (r: Outcome)
    requires fs.Valid() && i < |fs.inodes| && at < UINT_MOD && |piece| < UINT_MOD / 2
    modifies fs`bitmap, fs`blocks, fs`inodes, fs`dinodes, fs`owner
    ensures fs.Valid() && |fs.inodes| == |old(fs.inodes)| && |fs.blocks| == |old(fs.blocks)|
    ensures r == Failed <==> at > old(fs.inodes)[i].size || at + |piece| > MAXFILE * BSIZE
    ensures r == Failed ==> fs.inodes == old(fs.inodes) && fs.blocks == old(fs.blocks)
    ensures r == Panicked ==> forall c :: 0 <= c < |fs.blocks| ==> Bits(fs.bitmap)[c]
    ensures r == Panicked ==> TooFew(Bits(old(fs.bitmap)), old(fs.inodes), old(fs.blocks), i, at / BSIZE,
                                     SlotsEnd(at, |piece|))
    ensures r == AllWritten ==>
              at + |piece| <= fs.inodes[i].size && old(fs.inodes)[i].size <= fs.inodes[i].size &&
              Holds(old(fs.inodes), old(fs.blocks), fs.inodes, fs.blocks, i, at, piece)
    ensures r == AllWritten ==>
              Taken(Bits(old(fs.bitmap)), old(fs.inodes), old(fs.blocks), Bits(fs.bitmap), fs.inodes, fs.blocks, i,
                    at / BSIZE, SlotsEnd(at, |piece|))
    ensures OthersKept(old(fs.inodes), old(fs.blocks), fs.inodes, fs.blocks, i)
  {
    var w := fs.Writei(i, at, piece);
    match w {
      case Refused => r := Failed;
      case OutOfBlocks(_) => r := Panicked;
      case Wrote(_) => r := AllWritten;
    }
  }

  /** The slots have their blocks now, which were taken as far as they were
      lacking. */
  ghost predicate Taken(bits: seq<bool>, inodes: seq<Inode>, blocks: seq<Block>, bits': seq<bool>,
                        inodes': seq<Inode>, blocks': seq<Block>, i: nat, lo: nat, hi: nat)
  {
    && WellFormed(inodes) && WellFormed(inodes') && i < |inodes| == |inodes'| && hi <= MAXFILE
    && Mapped(inodes'[i], blocks', lo, hi) && KeepsRefs(inodes[i], blocks, inodes'[i], blocks')
    && AllPaid(bits, inodes, blocks, bits', inodes', blocks', i, lo, hi)
  }

  /** All the bytes up to k are on blocks of the file, and as many blocks have been
      taken as were lacking. */
  ghost predicate Placed(bits0: seq<bool>, inodes0: seq<Inode>, blocks0: seq<Block>, bits: seq<bool>,
                         inodes: seq<Inode>, blocks: seq<Block>, i: nat, off: nat, k: nat, n: nat)
  {
    && k <= n && off + n <= MAXFILE * BSIZE && i < |inodes| && WellFormed(inodes)
    && AllPaid(bits0, inodes0, blocks0, bits, inodes, blocks, i, off / BSIZE, SlotsEnd(off, n))
    && Mapped(inodes[i], blocks, off / BSIZE, SlotsEnd(off, k))
  }

  lemma PieceWithin(off: nat, k: nat, k': nat, n: nat)
    requires k < k' <= n && off + n <= MAXFILE * BSIZE
    ensures off / BSIZE <= (off + k) / BSIZE <= SlotsEnd(off, k)
    ensures SlotsEnd(off + k, k' - k) == SlotsEnd(off, k') <= SlotsEnd(off, n) <= MAXFILE
  {
  }

  lemma PlacedOn(bits0: seq<bool>, inodes0: seq<Inode>, blocks0: seq<Block>,
                 bits1: seq<bool>, inodes1: seq<Inode>, blocks1: seq<Block>,
                 bits: seq<bool>, inodes: seq<Inode>, blocks: seq<Block>, i: nat, off: nat, k: nat, k': nat, n: nat)
    requires Placed(bits0, inodes0, blocks0, bits1, inodes1, blocks1, i, off, k, n) && k < k' <= n
    requires Taken(bits1, inodes1, blocks1, bits, inodes, blocks, i, (off + k) / BSIZE, SlotsEnd(off + k, k' - k))
    ensures Placed(bits0, inodes0, blocks0, bits, inodes, blocks, i, off, k', n)
  {
    PieceWithin(off, k, k', n);
    PayNext(bits0, inodes0, blocks0, bits1, inodes1, blocks1, bits, inodes, blocks, i, off / BSIZE, SlotsEnd(off, n),
            (off + k) / BSIZE, SlotsEnd(off + k, k' - k));
  }

  lemma PlacedShort(bits0: seq<bool>, inodes0: seq<Inode>, blocks0: seq<Block>,
                    bits1: seq<bool>, inodes1: seq<Inode>, blocks1: seq<Block>, i: nat, off: nat, k: nat, k': nat,
                    n: nat)
    requires Placed(bits0, inodes0, blocks0, bits1, inodes1, blocks1, i, off, k, n) && k < k' <= n
    requires TooFew(bits1, inodes1, blocks1, i, (off + k) / BSIZE, SlotsEnd(off + k, k' - k))
    ensures TooFew(bits0, inodes0, blocks0, i, off / BSIZE, SlotsEnd(off, n))
  {
    PieceWithin(off, k, k', n);
    ShortForAll(bits0, inodes0, blocks0, bits1, inodes1, blocks1, i, off / BSIZE, (off + k) / BSIZE,
                SlotsEnd(off + k, k' - k), SlotsEnd(off, n));
  }

  /** How far the write has come: the first k bytes are in the file and nothing
      else has changed. */
  ghost predicate Progress(bits0: seq<bool>, inodes0: seq<Inode>, blocks0: seq<Block>,
                           bits: seq<bool>, inodes: seq<Inode>, blocks: seq<Block>,
                           i: nat, off: nat, addr: seq<byte>, k: nat)
  {
    && k <= |addr| && i < |inodes| && OthersKept(inodes0, blocks0, inodes, blocks, i)
    && (k == 0 ==> inodes == inodes0 && blocks == blocks0)
    && (k > 0 ==> off <= inodes0[i].size && off + k <= inodes[i].size && off + k <= MAXFILE * BSIZE)
    && (off <= inodes0[i].size ==> Holds(inodes0, blocks0, inodes, blocks, i, off, addr[..k]))
    && (off + |addr| <= MAXFILE * BSIZE ==> Placed(bits0, inodes0, blocks0, bits, inodes, blocks, i, off, k, |addr|))
  }

  lemma PieceDone(bits0: seq<bool>, inodes0: seq<Inode>, blocks0: seq<Block>,
                  bits1: seq<bool>, inodes1: seq<Inode>, blocks1: seq<Block>,
                  bits: seq<bool>, inodes: seq<Inode>, blocks: seq<Block>,
                  i: nat, off: nat, addr: seq<byte>, k: nat, k': nat)
    requires Progress(bits0, inodes0, blocks0, bits1, inodes1, blocks1, i, off, addr, k) && k < k' <= |addr|
    requires Holds(inodes1, blocks1, inodes, blocks, i, off + k, addr[k..k'])
    requires off + k' <= MAXFILE * BSIZE && off + k' <= inodes[i].size
    requires Taken(bits1, inodes1, blocks1, bits, inodes, blocks, i, (off + k) / BSIZE, SlotsEnd(off + k, k' - k))
    ensures Progress(bits0, inodes0, blocks0, bits, inodes, blocks, i, off, addr, k')
  {
    HoldsOn(inodes0, blocks0, inodes1, blocks1, inodes, blocks, i, off, addr, k, k' - k);
    if off + |addr| <= MAXFILE * BSIZE {
      PlacedOn(bits0, inodes0, blocks0, bits1, inodes1, blocks1, bits, inodes, blocks, i, off, k, k', |addr|);
    }
  }

  /** Out of blocks for a piece. */
  lemma PieceShort(bits0: seq<bool>, inodes0: seq<Inode>, blocks0: seq<Block>,
                   bits1: seq<bool>, inodes1: seq<Inode>, blocks1: seq<Block>,
                   i: nat, off: nat, addr: seq<byte>, k: nat, k': nat)
    requires Progress(bits0, inodes0, blocks0, bits1, inodes1, blocks1, i, off, addr, k) && k < k' <= |addr|
    requires TooFew(bits1, inodes1, blocks1, i, (off + k) / BSIZE, SlotsEnd(off + k, k' - k))
    ensures off + |addr| <= MAXFILE * BSIZE ==>
              TooFew(bits0, inodes0, blocks0, i, off / BSIZE, SlotsEnd(off, |addr|))
  {
    if off + |addr| <= MAXFILE * BSIZE {
      PlacedShort(bits0, inodes0, blocks0, bits1, inodes1, blocks1, i, off, k, k', |addr|);
    }
  }

  /** One turn of the loop (file.c:135-147), for the bytes from k up to k'. */
  method Turn(fs: FileSystem, i: nat, off: nat, addr: seq<byte>, k: nat, k': nat, ghost bits0: seq<bool>,
              ghost inodes0: seq<Inode>, ghost blocks0: seq<Block>)
    returns (r: Outcome)
    requires fs.Valid() && off + k < UINT_MOD && |addr| < UINT_MOD / 2 && k < k' <= |addr|
    requires Progress(bits0, inodes0, blocks0, Bits(fs.bitmap), fs.inodes, fs.blocks, i, off, addr, k)
    modifies fs`bitmap, fs`blocks, fs`inodes, fs`dinodes, fs`owner
    ensures fs.Valid() && |fs.inodes| == |old(fs.inodes)|
    ensures r == AllWritten ==>
              Progress(bits0, inodes0, blocks0, Bits(fs.bitmap), fs.inodes, fs.blocks, i, off, addr, k')
    ensures r == Failed <==> off > inodes0[i].size || off + k' > MAXFILE * BSIZE
    ensures r == Failed ==> fs.inodes == old(fs.inodes) && fs.blocks == old(fs.blocks)
    ensures r == Panicked ==> forall c :: 0 <= c < |fs.blocks| ==> Bits(fs.bitmap)[c]
    ensures r == Panicked && off + |addr| <= MAXFILE * BSIZE ==>
              TooFew(bits0, inodes0, blocks0, i, off / BSIZE, SlotsEnd(off, |addr|))
    ensures OthersKept(inodes0, blocks0, fs.inodes, fs.blocks, i)
  {
    ghost var bits1, inodes1, blocks1 := Bits(fs.bitmap), fs.inodes, fs.blocks;
    r := WriteOne(fs, i, off + k, addr[k..k']);
    if r == AllWritten {
      PieceDone(bits0, inodes0, blocks0, bits1, inodes1, blocks1, Bits(fs.bitmap), fs.inodes, fs.blocks, i, off, addr,
                k, k');
    } else if r == Panicked {
      PieceShort(bits0, inodes0, blocks0, bits1, inodes1, blocks1, i, off, addr, k, k');
    }
  }

  /** The bytes go to the file in order, at its offset.  What is written before a
      failure stays; it fails on an offset behind the end of the file, and on
      the piece that would go beyond the biggest file.  Nothing is missing in the
      end exactly if the offset is in the file, the end in the biggest one, and
      there are free blocks for all that lack one. */
  method Filewrite(fs: FileSystem, i: nat, off: nat, addr: seq<byte>) returns (r: Outcome, k: nat)
    requires fs.Valid() && i < |fs.inodes| && off < UINT_MOD && |addr| < UINT_MOD / 2
    modifies fs`bitmap, fs`blocks, fs`inodes, fs`dinodes, fs`owner
    ensures fs.Valid() && |fs.inodes| == |old(fs.inodes)| && k <= |addr|
    ensures r == AllWritten <==> k == |addr|
    ensures r == AllWritten <==>
              addr == [] ||
              (off <= old(fs.inodes)[i].size && off + |addr| <= MAXFILE * BSIZE &&
               old(fs.Free()) >= Lacking(old(fs.inodes)[i], old(fs.blocks), off / BSIZE, SlotsEnd(off, |addr|)))
    ensures r == Panicked ==>
              off <= old(fs.inodes)[i].size && forall c :: 0 <= c < |fs.blocks| ==> Bits(fs.bitmap)[c]
    ensures r != Panicked && off <= old(fs.inodes)[i].size ==>
              Holds(old(fs.inodes), old(fs.blocks), fs.inodes, fs.blocks, i, off, addr[..k])
    ensures OthersKept(old(fs.inodes), old(fs.blocks), fs.inodes, fs.blocks, i)
    ensures r == Failed ==>
              if off > old(fs.inodes)[i].size then k == 0 else off + k + Min(|addr| - k, MAXPIECE) > MAXFILE * BSIZE
  {
    k := 0;
    while k < |addr|
      invariant fs.Valid() && |fs.inodes| == |old(fs.inodes)|
      invariant Progress(Bits(old(fs.bitmap)), old(fs.inodes), old(fs.blocks), Bits(fs.bitmap), fs.inodes, fs.blocks, i,
                         off, addr, k)
    {
      var k' := k + Min(|addr| - k, MAXPIECE);
      r := Turn(fs, i, off, addr, k, k', Bits(old(fs.bitmap)), old(fs.inodes), old(fs.blocks));
      if r != AllWritten {
        return;
      }
      k := k';
    }
    r := AllWritten;
    if addr != [] {
      AllFilled(Bits(old(fs.bitmap)), old(fs.inodes), old(fs.blocks), Bits(fs.bitmap), fs.inodes, fs.blocks, i,
                off / BSIZE, SlotsEnd(off, |addr|));
    }
  }

  /** A piece calls log_write for every block it touches, so more often than
      begin_op has reserved for exactly if it reaches past MAXOPBLOCKS blocks. */
  lemma PieceExceeds(off: nat, n: nat)
    ensures Touched(off, n) > GroupCommit.MAXOPBLOCKS <==> off % BSIZE + n > GroupCommit.MAXOPBLOCKS * BSIZE
  {
  }

  /** A full piece always does: three of them at once, each logging the blocks it
      touches, run into the panic of log_write whatever the size of the log. */
  lemma FullPiecePanics(off: nat, s0: GroupCommit.State) returns (steps: GroupCommit.Schedule)
    requires GroupCommit.Inv(s0) && GroupCommit.Idle(s0) && GroupCommit.Room(s0.log) <= s0.log.start
    requires s0.budget >= Touched(off, MAXPIECE)
    ensures Touched(off, MAXPIECE) > GroupCommit.MAXOPBLOCKS && GroupCommit.RunsIntoPanic(s0, steps)
    ensures GroupCommit.Trio(GroupCommit.Run(s0, steps), Touched(off, MAXPIECE), GroupCommit.Room(s0.log))
  {
    PieceExceeds(off, MAXPIECE);
    steps := GroupCommit.ThreePanic(s0, Touched(off, MAXPIECE));
  }
}

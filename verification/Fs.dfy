/** Inodes and their blocks (fs.c): the bitmap allocator, the direct and
    indirect block map, and byte-level reads and writes.  A file is proved to be
    a flat byte sequence, and every block to have one owner. */
module Fs {
  import opened Common
  import opened BlockMap

  class FileSystem {
    var bitmap: seq<bv8>
    var blocks: seq<Block>
    /** The inodes as the kernel sees them, and as the disk holds them. */
    var inodes: seq<Inode>
    var dinodes: seq<Inode>
    /** Blocks marked although no file owns them: the superblock, inode and bitmap
        blocks.  The image mkfs makes has the log's blocks not among them. */
    ghost const reserved: set<nat>
    ghost var owner: Owner

    ghost predicate Shape()
      reads this
    {
      |blocks| <= 8 * |bitmap| && |blocks| <= UINT_MOD && |dinodes| == |inodes| && Owned(inodes, blocks, owner)
    }

    ghost predicate Valid()
      reads this
    {
      Shape() && Marked(Bits(bitmap), |blocks|, reserved, owner)
    }

    /** The blocks balloc can still hand out. */
    ghost function Free(): nat
      requires |blocks| <= 8 * |bitmap|
      reads this
    {
      Unmarked(Bits(bitmap), |blocks|)
    }

    /** The file system of this image. */
    constructor (bitmap: seq<bv8>, blocks: seq<Block>, inodes: seq<Inode>, ghost reserved: set<nat>, ghost owner: Owner)
      requires |blocks| <= 8 * |bitmap| && |blocks| <= UINT_MOD && Owned(inodes, blocks, owner)
      requires Marked(Bits(bitmap), |blocks|, reserved, owner)
      ensures Valid() && this.bitmap == bitmap && this.blocks == blocks && this.inodes == this.dinodes == inodes
      ensures this.reserved == reserved && this.owner == owner
    {
      this.bitmap, this.blocks := bitmap, blocks;
      this.inodes, this.dinodes := inodes, inodes;
      this.reserved, this.owner := reserved, owner;
    }

    /** balloc (fs.c:54-77): the first free block, marked and zeroed; 0 stands
        for the panic when there is none. */
    method Balloc() returns (b: nat)
      requires |blocks| <= 8 * |bitmap|
      requires |blocks| > 0 ==> Bits(bitmap)[0]
      modifies this`bitmap, this`blocks
      ensures b == 0 ==>
                bitmap == old(bitmap) && blocks == old(blocks) && forall c :: 0 <= c < |blocks| ==> Bits(bitmap)[c]
      ensures b != 0 ==> b < |old(blocks)| && !Bits(old(bitmap))[b] && forall c :: 0 <= c < b ==> Bits(old(bitmap))[c]
      ensures b != 0 ==> |bitmap| == |old(bitmap)| && Bits(bitmap) == Bits(old(bitmap))[b := true]
      ensures b != 0 ==> blocks == old(blocks)[b := Zeros()]
      ensures |blocks| <= 8 * |bitmap| && if b == 0 then old(Free()) == 0 else Free() == old(Free()) - 1
    {
      var base := 0;
      while base < |blocks|
        invariant 0 <= base && bitmap == old(bitmap) && blocks == old(blocks)
        invariant forall c :: 0 <= c < base && c < |blocks| ==> Bits(bitmap)[c]
        decreases |blocks| - base
      {
        var bi := 0;
        while bi < BPB && base + bi < |blocks|
          invariant 0 <= bi <= BPB && bitmap == old(bitmap) && blocks == old(blocks)
          invariant forall c :: 0 <= c < base + bi && c < |blocks| ==> Bits(bitmap)[c]
        {
          var c := base + bi;
          if !TestBit(bitmap[c / 8], c % 8) {
            OneByte(bitmap, c / 8, c % 8, SetBit(bitmap[c / 8], c % 8), true);
            bitmap := bitmap[c / 8 := SetBit(bitmap[c / 8], c % 8)];
            blocks := blocks[c := Zeros()];
            UnmarkedTake(Bits(old(bitmap)), c, |blocks|);
            return c;
          }
          bi := bi + 1;
        }
        base := base + BPB;
      }
      UnmarkedNone(Bits(bitmap), |blocks|);
      return 0;
    }

    /** bfree (fs.c:80-96); "freeing free block" is the requires. */
    method Bfree(b: nat)
      requires b < |blocks| <= 8 * |bitmap| && Bits(bitmap)[b]
      modifies this`bitmap
      ensures |bitmap| == |old(bitmap)| && Bits(bitmap) == Bits(old(bitmap))[b := false]
    {
      OneByte(bitmap, b / 8, b % 8, ClearBit(bitmap[b / 8], b % 8), false);
      bitmap := bitmap[b / 8 := ClearBit(bitmap[b / 8], b % 8)];
    }

    /** iupdate (fs.c:203-218). */
    method Iupdate(i: nat)
      requires i < |inodes| == |dinodes|
      modifies this`dinodes
      ensures dinodes == old(dinodes)[i := inodes[i]]
    {
      dinodes := dinodes[i := inodes[i]];
    }

    /** Fill a pointer of the inode itself with a fresh block (fs.c:366-367,
        374-375). */
    method FillPointer(i: nat, a: nat) returns (b: nat)
      requires Valid() && i < |inodes| && a <= NDIRECT && inodes[i].addrs[a] == 0
      modifies this`bitmap, this`blocks, this`inodes, this`owner
      ensures Valid()
      ensures b == 0 ==>
                bitmap == old(bitmap) && blocks == old(blocks) && inodes == old(inodes) &&
                forall c :: 0 <= c < |blocks| ==> Bits(bitmap)[c]
      ensures b != 0 ==> b < |blocks| && inodes == WithAddr(old(inodes), i, a, b)
      ensures b != 0 ==> Gained(old(inodes), old(blocks), inodes, blocks, i, if a < NDIRECT then a else INDIRECT, b)
      ensures SameBytes(old(inodes), old(blocks), inodes, blocks)
      ensures if b == 0 then old(Free()) == 0 else Free() == old(Free()) - 1
    {
      ghost var s := if a < NDIRECT then a else INDIRECT;
      ghost var inodes0, blocks0 := inodes, blocks;
      b := Balloc();
      if b == 0 {
        return;
      }
      GainPointer(inodes0, blocks0, owner, i, a, b);
      inodes := inodes[i := inodes[i].(addrs := inodes[i].addrs[a := b])];
      GainedOwned(inodes0, blocks0, owner, inodes, blocks, i, s, b);
      forall j | 0 <= j < |inodes| ensures Bytes(inodes[j], blocks) == Bytes(inodes0[j], blocks0) {
        GainedBytes(inodes0, blocks0, owner, inodes, blocks, i, s, b, j);
      }
      owner := owner[b := (i, s)];
    }

    /** Fill a word of the indirect block (fs.c:376-381). */
    method FillWord(i: nat, bn: nat) returns (b: nat)
      requires Valid() && i < |inodes| && NDIRECT <= bn < MAXFILE && Ref(inodes[i], blocks, bn) == 0
      requires inodes[i].addrs[NDIRECT] != 0
      modifies this`bitmap, this`blocks, this`owner
      ensures Valid()
      ensures b == 0 ==> blocks == old(blocks) && forall c :: 0 <= c < |blocks| ==> Bits(bitmap)[c]
      ensures b != 0 ==> b < |blocks| && Gained(inodes, old(blocks), inodes, blocks, i, bn, b)
      ensures SameBytes(inodes, old(blocks), inodes, blocks)
      ensures if b == 0 then Free() == old(Free()) == 0 else Free() == old(Free()) - 1
    {
      ghost var blocks0 := blocks;
      var ind := inodes[i].addrs[NDIRECT];
      assert RefOwned(inodes, blocks, owner, i, INDIRECT);
      assert OwnerRefers(inodes, blocks, owner, ind);
      var bp := blocks[ind];
      b := Balloc();
      if b == 0 {
        return;
      }
      GainWord(inodes, blocks0, owner, i, bn, b);
      blocks := blocks[ind := WithWord(bp, bn - NDIRECT, b)];
      GainedOwned(inodes, blocks0, owner, inodes, blocks, i, bn, b);
      forall j | 0 <= j < |inodes| ensures Bytes(inodes[j], blocks) == Bytes(inodes[j], blocks0) {
        GainedBytes(inodes, blocks0, owner, inodes, blocks, i, bn, b, j);
      }
      owner := owner[b := (i, bn)];
    }

    /** bmap (fs.c:360-387): the block of slot bn, allocated on demand.  No byte
        of any file changes; 0 stands for balloc's panic. */
    method Bmap(i: nat, bn: nat) returns (b: nat)
      requires Valid() && i < |inodes| && bn < MAXFILE
      modifies this`bitmap, this`blocks, this`inodes, this`owner
      ensures Valid()
      ensures b == 0 ==> (forall c :: 0 <= c < |blocks| ==> Bits(bitmap)[c]) && (bn < NDIRECT ==> bitmap == old(bitmap))
      ensures b != 0 ==> b < |blocks| && Ref(inodes[i], blocks, bn) == b
      ensures old(Ref(inodes[i], blocks, bn)) != 0 ==>
                b == old(Ref(inodes[i], blocks, bn)) && bitmap == old(bitmap) && blocks == old(blocks) &&
                inodes == old(inodes)
      ensures RefsGrow(old(inodes), old(blocks), inodes, blocks, i, bn)
      ensures SameMeta(old(inodes), inodes, i) && SameBytes(old(inodes), old(blocks), inodes, blocks)
      ensures if b != 0 then PointerFilled(old(inodes), inodes, i, bn) else Ref(inodes[i], blocks, bn) == 0
      ensures b != 0 <==> old(Free()) >= old(Missing(inodes[i], blocks, bn))
      ensures AllPaid(Bits(old(bitmap)), old(inodes), old(blocks), Bits(bitmap), inodes, blocks, i, bn, bn + 1)
    {
      if bn < NDIRECT {
        b := TakeDirect(i, bn);
      } else {
        b := TakeIndirect(i, bn);
      }
      PaySlot(Bits(old(bitmap)), old(inodes), old(blocks), Bits(bitmap), inodes, blocks, i, bn);
    }

    /** What bmap does for its one slot. */
    twostate predicate Slotted(i: nat, bn: nat, b: nat)
      requires old(Valid()) && Valid() && i < |inodes| == |old(inodes)| && bn < MAXFILE
      reads this
    {
      && (b == 0 ==> (forall c :: 0 <= c < |blocks| ==> Bits(bitmap)[c]) && (bn < NDIRECT ==> bitmap == old(bitmap)))
      && (b != 0 ==> b < |blocks| && Ref(inodes[i], blocks, bn) == b && PointerFilled(old(inodes), inodes, i, bn))
      && (old(Ref(inodes[i], blocks, bn)) != 0 ==>
            b == old(Ref(inodes[i], blocks, bn)) && bitmap == old(bitmap) && blocks == old(blocks) &&
            inodes == old(inodes))
      && RefsGrow(old(inodes), old(blocks), inodes, blocks, i, bn)
      && SameMeta(old(inodes), inodes, i) && SameBytes(old(inodes), old(blocks), inodes, blocks)
      && (b == 0 ==> Free() == 0 && Ref(inodes[i], blocks, bn) == 0)
      && (bn < NDIRECT ==> inodes[i].addrs[NDIRECT] == old(inodes)[i].addrs[NDIRECT])
      && Free() - Missing(inodes[i], blocks, bn) == old(Free() - Missing(inodes[i], blocks, bn))
    }

    /** A slot of the inode itself (fs.c:365-369). */
    method TakeDirect(i: nat, bn: nat) returns (b: nat)
      requires Valid() && i < |inodes| && bn < NDIRECT
      modifies this`bitmap, this`blocks, this`inodes, this`owner
      ensures Valid() && |inodes| == |old(inodes)| && Slotted(i, bn, b)
    {
      ghost var inodes0, blocks0 := inodes, blocks;
      RefsStay(inodes, blocks, i, bn);
      RefInRange(inodes, blocks, owner, i, bn);
      b := inodes[i].addrs[bn];
      if b == 0 {
        b := FillPointer(i, bn);
        if b != 0 {
          GainedGrows(inodes0, blocks0, inodes, blocks, i, bn, b, bn);
        }
      }
    }

    /** The indirect block, before slot bn is looked up in it (fs.c:374-375). */
    method TakeTable(i: nat, ghost bn: nat) returns (ok: bool)
      requires Valid() && i < |inodes| && NDIRECT <= bn < MAXFILE
      modifies this`bitmap, this`blocks, this`inodes, this`owner
      ensures Valid() && RefsGrow(old(inodes), old(blocks), inodes, blocks, i, bn)
      ensures SameMeta(old(inodes), inodes, i) && SameBytes(old(inodes), old(blocks), inodes, blocks)
      ensures Ref(inodes[i], blocks, bn) == old(Ref(inodes[i], blocks, bn))
      ensures !ok ==> Free() == old(Free()) == 0 && inodes[i].addrs[NDIRECT] == 0
      ensures !ok || old(inodes)[i].addrs[NDIRECT] != 0 ==>
                bitmap == old(bitmap) && blocks == old(blocks) && inodes == old(inodes)
      ensures ok ==> PointerFilled(old(inodes), inodes, i, bn) && Ref(inodes[i], blocks, INDIRECT) != 0
      ensures ok ==> Free() == old(Free()) - if old(inodes)[i].addrs[NDIRECT] == 0 then 1 else 0
    {
      ghost var inodes0, blocks0 := inodes, blocks;
      RefsStay(inodes, blocks, i, bn);
      if inodes[i].addrs[NDIRECT] == 0 {
        var b := FillPointer(i, NDIRECT);
        if b == 0 {
          return false;
        }
        GainedGrows(inodes0, blocks0, inodes, blocks, i, INDIRECT, b, bn);
        assert SameRefBut(inodes0, blocks0, inodes, blocks, i, bn, i, INDIRECT, b);
      }
      return true;
    }

    /** A slot of the indirect block (fs.c:372-384). */
    method TakeIndirect(i: nat, bn: nat) returns (b: nat)
      requires Valid() && i < |inodes| && NDIRECT <= bn < MAXFILE
      modifies this`bitmap, this`blocks, this`inodes, this`owner
      ensures Valid() && |inodes| == |old(inodes)| && Slotted(i, bn, b)
    {
      ghost var inodes0, blocks0 := inodes, blocks;
      var ok := TakeTable(i, bn);
      UnmarkedNone(Bits(bitmap), |blocks|);
      if !ok {
        return 0;
      }
      ghost var inodes1, blocks1 := inodes, blocks;
      RefInRange(inodes, blocks, owner, i, INDIRECT);
      RefInRange(inodes, blocks, owner, i, bn);
      b := WordAt(blocks[inodes[i].addrs[NDIRECT]], bn - NDIRECT);
      if b == 0 {
        b := FillWord(i, bn);
        if b != 0 {
          GainedGrows(inodes, blocks1, inodes, blocks, i, bn, b, bn);
          GrowsTwice(inodes0, blocks0, inodes1, blocks1, inodes, blocks, i, bn);
        }
      }
    }

    /** One turn of readi's loop (fs.c:455-458). */
    method ReadPiece(i: nat, at: nat, m: nat, ghost bn: nat) returns (ok: bool, piece: seq<byte>)
      requires Valid() && i < |inodes| && 0 < m <= BSIZE - at % BSIZE
      requires at + m <= inodes[i].size && bn == at / BSIZE < MAXFILE
      modifies this`bitmap, this`blocks, this`inodes, this`owner
      ensures Valid() && RefsGrow(old(inodes), old(blocks), inodes, blocks, i, bn)
      ensures SameMeta(old(inodes), inodes, i) && SameBytes(old(inodes), old(blocks), inodes, blocks)
      ensures old(Ref(inodes[i], blocks, bn)) != 0 ==>
                ok && bitmap == old(bitmap) && blocks == old(blocks) && inodes == old(inodes)
      ensures ok ==> Ref(inodes[i], blocks, bn) != 0 && PointerFilled(old(inodes), inodes, i, bn)
      ensures ok ==> Sliced(old(inodes), old(blocks), i, at, at + m, piece)
      ensures !ok ==> (forall c :: 0 <= c < |blocks| ==> Bits(bitmap)[c]) && Ref(inodes[i], blocks, bn) == 0
      ensures AllPaid(Bits(old(bitmap)), old(inodes), old(blocks), Bits(bitmap), inodes, blocks, i, bn, bn + 1)
    {
      var b := Bmap(i, at / BSIZE);
      if b == 0 {
        return false, [];
      }
      PieceOfBlock(inodes[i], blocks, at, m);
      return true, blocks[b][at % BSIZE..at % BSIZE + m];
    }

    /** readi (fs.c:438-461) is a slice of the file, cut at its end.  No byte
        changes, but blocks missing on the way are allocated. */
    method Readi(i: nat, off: nat, n: nat) returns (r: ReadResult)
      requires Valid() && i < |inodes| && off < UINT_MOD && n < UINT_MOD
      modifies this`bitmap, this`blocks, this`inodes, this`owner
      ensures Valid() && |inodes| == |old(inodes)| && |blocks| == |old(blocks)|
      ensures r == NotRead <==> off > old(inodes)[i].size || off + n >= UINT_MOD
      ensures r == NotRead ==> bitmap == old(bitmap) && blocks == old(blocks) && inodes == old(inodes)
      ensures r.Data? ==> r.data == old(Content(inodes[i], blocks))[off..Min(off + n, old(inodes)[i].size)]
      ensures forall j :: 0 <= j < |inodes| ==> Content(inodes[j], blocks) == Content(old(inodes)[j], old(blocks))
      ensures r.Data? ==> var e := SlotsEnd(off, Min(off + n, old(inodes)[i].size) - off);
                Filled(old(inodes), old(blocks), inodes, blocks, i, off / BSIZE, e) &&
                (Mapped(old(inodes)[i], old(blocks), off / BSIZE, e) ==> bitmap == old(bitmap) && blocks == old(blocks))
      ensures r != NotRead ==>
                (r == NoBlocks <==> old(Free()) < Lacking(old(inodes)[i], old(blocks), off / BSIZE,
                                                          SlotsEnd(off, Min(off + n, old(inodes)[i].size) - off)))
      ensures r == NoBlocks ==> forall c :: 0 <= c < |blocks| ==> Bits(bitmap)[c]
      ensures old(NoHoles(inodes[i], blocks)) ==>
                r != NoBlocks && bitmap == old(bitmap) && blocks == old(blocks) && inodes == old(inodes)
    {
      if off > inodes[i].size || (off + n) % UINT_MOD < off {
        return NotRead;
      }
      var end := if off + n > inodes[i].size then inodes[i].size else off + n;
      r := ReadAll(i, off, end - off);
    }

    /** The same, as the next turn of a read from off on that has come to tot. */
    method ReadTurn(i: nat, off: nat, n: nat, tot: nat, ghost bits0: seq<bool>, ghost inodes0: seq<Inode>,
                    ghost blocks0: seq<Block>)
      returns (ok: bool, piece: seq<byte>, next: nat)
      requires Valid() && i < |inodes| && tot < n && off + n <= inodes[i].size && Paced(off, n, tot)
      requires ReadTo(inodes0, blocks0, inodes, blocks, i, off, tot)
      requires AllPaid(bits0, inodes0, blocks0, Bits(bitmap), inodes, blocks, i, off / BSIZE, SlotsEnd(off, n))
      modifies this`bitmap, this`blocks, this`inodes, this`owner
      ensures Valid() && SameMeta(inodes0, inodes, i)
      ensures SameBytes(inodes0, blocks0, inodes, blocks) && |blocks| == |blocks0|
      ensures tot < next <= n && Paced(off, n, next)
      ensures ok ==> ReadTo(inodes0, blocks0, inodes, blocks, i, off, next)
      ensures ok ==> Sliced(inodes0, blocks0, i, off + tot, off + next, piece)
      ensures SlotsEnd(off, tot) < MAXFILE
      ensures old(Ref(inodes[i], blocks, SlotsEnd(off, tot))) != 0 ==>
                ok && bitmap == old(bitmap) && blocks == old(blocks) && inodes == old(inodes)
      ensures AllPaid(bits0, inodes0, blocks0, Bits(bitmap), inodes, blocks, i, off / BSIZE, SlotsEnd(off, n))
      ensures !ok ==> TooFew(bits0, inodes0, blocks0, i, off / BSIZE, SlotsEnd(off, n))
      ensures !ok ==> forall c :: 0 <= c < |blocks| ==> Bits(bitmap)[c]
    {
      var m := Min(n - tot, BSIZE - (off + tot) % BSIZE);
      next := tot + m;
      ghost var bn := TurnSlots(off, n, tot, m);
      ghost var bits1, inodes1, blocks1 := Bits(bitmap), inodes, blocks;
      ok, piece := ReadPiece(i, off + tot, m, bn);
      TurnRead(bits0, inodes0, blocks0, bits1, inodes1, blocks1, Bits(bitmap), inodes, blocks, i, off, n, tot, m, bn,
               ok);
    }

    /** readi's loop (fs.c:454-459). */
    method ReadAll(i: nat, off: nat, n: nat) returns (r: ReadResult)
      requires Valid() && i < |inodes| && off + n <= inodes[i].size
      modifies this`bitmap, this`blocks, this`inodes, this`owner
      ensures Valid() && SameMeta(old(inodes), inodes, i) && SameBytes(old(inodes), old(blocks), inodes, blocks)
      ensures r != NotRead && |blocks| == |old(blocks)|
      ensures r.Data? ==> r.data == old(Content(inodes[i], blocks))[off..off + n]
      ensures r.Data? ==> Filled(old(inodes), old(blocks), inodes, blocks, i, off / BSIZE, SlotsEnd(off, n))
      ensures Mapped(old(inodes)[i], old(blocks), off / BSIZE, SlotsEnd(off, n)) ==>
                r.Data? && bitmap == old(bitmap) && blocks == old(blocks) && inodes == old(inodes)
      ensures r.Data? <==> old(Free()) >= Lacking(old(inodes)[i], old(blocks), off / BSIZE, SlotsEnd(off, n))
      ensures r == NoBlocks ==> forall c :: 0 <= c < |blocks| ==> Bits(bitmap)[c]
    {
      ghost var whole := Mapped(inodes[i], blocks, off / BSIZE, SlotsEnd(off, n));
      var dst: seq<byte>, tot := [], 0;
      FillStart(inodes, blocks, i, off / BSIZE);
      while tot < n
        invariant tot <= n && Valid() && Paced(off, n, tot) && Sliced(old(inodes), old(blocks), i, off, off + tot, dst)
        invariant ReadTo(old(inodes), old(blocks), inodes, blocks, i, off, tot)
        invariant whole ==> bitmap == old(bitmap) && blocks == old(blocks) && inodes == old(inodes)
        invariant AllPaid(Bits(old(bitmap)), old(inodes), old(blocks), Bits(bitmap), inodes, blocks, i, off / BSIZE,
                          SlotsEnd(off, n))
        decreases n - tot
      {
        TurnBelow(off, n, tot);
        var ok, piece, next := ReadTurn(i, off, n, tot, Bits(old(bitmap)), old(inodes), old(blocks));
        if !ok {
          return NoBlocks;
        }
        SlicedOn(old(inodes), old(blocks), i, off, off + tot, off + next, dst, piece);
        dst, tot := dst + piece, next;
      }
      AllFilled(Bits(old(bitmap)), old(inodes), old(blocks), Bits(bitmap), inodes, blocks, i, off / BSIZE,
                SlotsEnd(off, n));
      return Data(dst);
    }

    /** One turn of writei's loop (fs.c:483-487). */
    method WritePiece(i: nat, at: nat, piece: seq<byte>, ghost bn: nat) returns (ok: bool)
      requires Valid() && i < |inodes| && at + |piece| <= MAXFILE * BSIZE
      requires 0 < |piece| <= BSIZE - at % BSIZE && bn == at / BSIZE < MAXFILE
      modifies this`bitmap, this`blocks, this`inodes, this`owner
      ensures Valid() && RefsGrow(old(inodes), old(blocks), inodes, blocks, i, bn)
      ensures SameMeta(old(inodes), inodes, i)
      ensures SplicedAt(old(inodes), old(blocks), inodes, blocks, i, at, if ok then piece else [])
      ensures ok ==> Ref(inodes[i], blocks, bn) != 0 && PointerFilled(old(inodes), inodes, i, bn)
      ensures !ok ==>
                (forall c :: 0 <= c < |blocks| ==> Bits(bitmap)[c]) && (at < NDIRECT * BSIZE ==> bitmap == old(bitmap))
      ensures !ok ==> Ref(inodes[i], blocks, bn) == 0
      ensures AllPaid(Bits(old(bitmap)), old(inodes), old(blocks), Bits(bitmap), inodes, blocks, i, bn, bn + 1)
    {
      var b := Bmap(i, at / BSIZE);
      if b == 0 {
        return false;
      }
      ghost var blocks1 := blocks;
      StoreBytes(inodes, blocks1, owner, i, at / BSIZE, at % BSIZE, piece);
      blocks := blocks[b := Splice(blocks[b], at % BSIZE, piece)];
      OwnedFrame(inodes, blocks1, owner, blocks);
      RefsFrame(old(inodes), old(blocks), inodes, blocks1, owner, blocks, i, at / BSIZE);
      RefFrame(inodes, blocks1, owner, blocks, i, at / BSIZE);
      PaidFrame(Bits(old(bitmap)), old(inodes), old(blocks), Bits(bitmap), inodes, blocks1, owner, blocks, i,
                at / BSIZE);
      return true;
    }

    /** The same, as the next turn of writing src from off on. */
    method WriteTurn(i: nat, off: nat, src: seq<byte>, tot: nat, ghost inodes0: seq<Inode>, ghost blocks0: seq<Block>)
      returns (ok: bool, next: nat)
      requires Valid() && i < |inodes| && tot < |src| && off + |src| <= MAXFILE * BSIZE && Paced(off, |src|, tot)
      requires WrittenTo(inodes0, blocks0, inodes, blocks, i, off, src, tot)
      modifies this`bitmap, this`blocks, this`inodes, this`owner
      ensures Valid() && SameMeta(inodes0, inodes, i) && |blocks| == |old(blocks)|
      ensures tot < next <= |src| && Paced(off, |src|, next) && SlotsEnd(off, next) == SlotsEnd(off, tot) + 1
      ensures ok ==> WrittenTo(inodes0, blocks0, inodes, blocks, i, off, src, next)
      ensures !ok ==> SplicedAt(inodes0, blocks0, inodes, blocks, i, off, src[..tot])
      ensures !ok ==>
                (forall c :: 0 <= c < |blocks| ==> Bits(bitmap)[c]) &&
                (off + tot < NDIRECT * BSIZE ==> bitmap == old(bitmap))
      ensures SlotsEnd(off, tot) < MAXFILE && (!ok ==> Ref(inodes[i], blocks, SlotsEnd(off, tot)) == 0)
      ensures AllPaid(Bits(old(bitmap)), old(inodes), old(blocks), Bits(bitmap), inodes, blocks, i, SlotsEnd(off, tot),
                      SlotsEnd(off, tot) + 1)
    {
      var m := Min(|src| - tot, BSIZE - (off + tot) % BSIZE);
      next := tot + m;
      ghost var bn := TurnSlots(off, |src|, tot, m);
      ghost var inodes1, blocks1 := inodes, blocks;
      ok := WritePiece(i, off + tot, src[tot..tot + m], bn);
      if ok {
        WrittenOn(inodes0, blocks0, inodes1, blocks1, inodes, blocks, i, off, src, tot, m, bn);
      } else {
        SplicedNone(inodes0, blocks0, inodes1, blocks1, inodes, blocks, i, off, src[..tot], off + tot);
      }
    }

    /** writei's loop (fs.c:482-488); it stops short only in balloc's panic.  It
        logs a block in every turn, so at least as many as the bytes touch. */
    method WriteAll(i: nat, off: nat, src: seq<byte>) returns (tot: nat, ghost turns: nat)
      requires Valid() && i < |inodes| && off + |src| <= MAXFILE * BSIZE
      modifies this`bitmap, this`blocks, this`inodes, this`owner
      ensures Valid() && tot <= |src| && SameMeta(old(inodes), inodes, i) && |blocks| == |old(blocks)|
      ensures SplicedAt(old(inodes), old(blocks), inodes, blocks, i, off, src[..tot])
      ensures tot < |src| ==> (forall c :: 0 <= c < |blocks| ==> Bits(bitmap)[c]) && Paced(off, |src|, tot)
      ensures tot == 0 < |src| && off < NDIRECT * BSIZE ==> bitmap == old(bitmap)
      ensures tot == |src| ==> turns == Touched(off, |src|)
      ensures tot == |src| ==> Filled(old(inodes), old(blocks), inodes, blocks, i, off / BSIZE, SlotsEnd(off, |src|))
      ensures tot == |src| <==> old(Free()) >= Lacking(old(inodes)[i], old(blocks), off / BSIZE, SlotsEnd(off, |src|))
      ensures AllPaid(Bits(old(bitmap)), old(inodes), old(blocks), Bits(bitmap), inodes, blocks, i, off / BSIZE,
                      SlotsEnd(off, |src|))
    {
      tot, turns := 0, 0;
      WriteStart(inodes, blocks, i, off, src);
      while tot < |src|
        invariant Valid() && tot <= |src| && turns == Touched(off, tot) && Paced(off, |src|, tot)
        invariant WrittenTo(old(inodes), old(blocks), inodes, blocks, i, off, src, tot)
        invariant tot == 0 ==> bitmap == old(bitmap)
        invariant AllPaid(Bits(old(bitmap)), old(inodes), old(blocks), Bits(bitmap), inodes, blocks, i, off / BSIZE,
                          SlotsEnd(off, |src|))
        decreases |src| - tot
      {
        TurnBelow(off, |src|, tot);
        ghost var bits1, inodes1, blocks1 := Bits(bitmap), inodes, blocks;
        var ok, next := WriteTurn(i, off, src, tot, old(inodes), old(blocks));
        PayNext(Bits(old(bitmap)), old(inodes), old(blocks), bits1, inodes1, blocks1, Bits(bitmap), inodes, blocks, i,
                off / BSIZE, SlotsEnd(off, |src|), SlotsEnd(off, tot), SlotsEnd(off, tot) + 1);
        if !ok {
          NotPaid(Bits(old(bitmap)), old(inodes), old(blocks), Bits(bitmap), inodes, blocks, i, off / BSIZE,
                  SlotsEnd(off, |src|), SlotsEnd(off, tot));
          return;
        }
        tot, turns := next, turns + 1;
      }
      AllFilled(Bits(old(bitmap)), old(inodes), old(blocks), Bits(bitmap), inodes, blocks, i, off / BSIZE,
                SlotsEnd(off, |src|));
    }

    /** The end of writei (fs.c:490-493): the file is longer now. */
    method Grow(i: nat, size: nat)
      requires Valid() && i < |inodes| && inodes[i].size < size <= MAXFILE * BSIZE
      modifies this`inodes, this`dinodes
      ensures Valid() && inodes == old(inodes)[i := old(inodes)[i].(size := size)]
      ensures dinodes == old(dinodes)[i := inodes[i]]
      ensures forall j :: 0 <= j < |inodes| ==> Bytes(inodes[j], blocks) == old(Bytes(inodes[j], blocks))
      ensures forall t :: 0 <= t <= INDIRECT ==> Ref(inodes[i], blocks, t) == Ref(old(inodes)[i], blocks, t)
    {
      ResizeOwned(inodes, blocks, owner, i, size);
      inodes := inodes[i := inodes[i].(size := size)];
      Iupdate(i);
    }

    /** writei (fs.c:466-495).  The file becomes the spliced byte sequence, no
        file gets a hole, and no other file changes.  The inode is written to
        disk only on growth: if it was current there it still is exactly when
        the file grew or all its own pointers to these bytes were there. */
    method Writei(i: nat, off: nat, src: seq<byte>) returns (r: WriteResult)
      requires Valid() && i < |inodes| && off < UINT_MOD && |src| < UINT_MOD
      modifies this`bitmap, this`blocks, this`inodes, this`dinodes, this`owner
      ensures Valid() && |inodes| == |old(inodes)| && |blocks| == |old(blocks)|
      ensures r == Refused <==> off > old(inodes)[i].size || off + |src| >= UINT_MOD || off + |src| > MAXFILE * BSIZE
      ensures r == Refused ==>
                bitmap == old(bitmap) && blocks == old(blocks) && inodes == old(inodes) && dinodes == old(dinodes)
      ensures forall j :: 0 <= j < |inodes| && j != i ==>
                inodes[j] == old(inodes)[j] && Content(inodes[j], blocks) == old(Content(inodes[j], blocks))
      ensures inodes[i] == old(inodes)[i].(size := inodes[i].size, addrs := inodes[i].addrs)
      ensures r.Wrote? ==> r.n == |src| && inodes[i].size == Max(old(inodes)[i].size, off + |src|)
      ensures r.Wrote? ==> Content(inodes[i], blocks) == Overwrite(old(Content(inodes[i], blocks)), off, src)
      ensures r.Wrote? ==> Mapped(inodes[i], blocks, off / BSIZE, SlotsEnd(off, |src|))
      ensures r.Wrote? ==>
                forall j :: 0 <= j < |inodes| && NoHoles(old(inodes)[j], old(blocks)) ==> NoHoles(inodes[j], blocks)
      ensures r.Wrote? && old(dinodes == inodes) ==>
                (dinodes == inodes <==>
                   off + |src| > old(inodes)[i].size ||
                   PointersThere(old(inodes)[i], off / BSIZE, SlotsEnd(off, |src|)))
      ensures r.OutOfBlocks? ==>
                r.tot < |src| && Paced(off, |src|, r.tot) && forall c :: 0 <= c < |blocks| ==> Bits(bitmap)[c]
      ensures r != Refused ==>
                (r.OutOfBlocks? <==>
                   old(Free()) < Lacking(old(inodes)[i], old(blocks), off / BSIZE, SlotsEnd(off, |src|)))
      ensures r.Wrote? ==>
                AllPaid(Bits(old(bitmap)), old(inodes), old(blocks), Bits(bitmap), inodes, blocks, i, off / BSIZE,
                        SlotsEnd(off, |src|)) &&
                KeepsRefs(old(inodes)[i], old(blocks), inodes[i], blocks)
      ensures r == OutOfBlocks(0) && off < NDIRECT * BSIZE ==> bitmap == old(bitmap)
      ensures off + |src| <= old(inodes)[i].size ==> dinodes == old(dinodes)
      ensures r.OutOfBlocks? ==> Bytes(inodes[i], blocks) == Splice(old(Bytes(inodes[i], blocks)), off, src[..r.tot])
    {
      if off > inodes[i].size || (off + |src|) % UINT_MOD < off {
        return Refused;
      }
      if off + |src| > MAXFILE * BSIZE {
        return Refused;
      }
      var tot, turns := WriteAll(i, off, src);
      if tot < |src| {
        return OutOfBlocks(tot);
      }
      assert src[..|src|] == src;
      SplicedContent(old(inodes), old(blocks), inodes, blocks, i, off, src);
      ghost var inodes1 := inodes;
      FillNoneHoles(old(inodes), old(blocks), inodes, blocks, i, off / BSIZE, SlotsEnd(off, |src|));
      FillKeeps(old(inodes), old(blocks), inodes, blocks, i, off / BSIZE, SlotsEnd(off, |src|));
      if |src| > 0 && off + |src| > inodes[i].size {
        Grow(i, off + |src|);
        GrownNoHoles(inodes1[i], inodes[i], blocks, off, |src|);
        PaidResize(Bits(old(bitmap)), old(inodes), old(blocks), Bits(bitmap), inodes1, inodes, blocks, i, off / BSIZE,
                   SlotsEnd(off, |src|));
      }
      return Wrote(|src|);
    }

    /** What has been written is read back. */
    method WriteThenRead(i: nat, off: nat, src: seq<byte>) returns (r: ReadResult)
      requires Valid() && i < |inodes| && off <= inodes[i].size && off + |src| <= MAXFILE * BSIZE
      requires Free() >= Lacking(inodes[i], blocks, off / BSIZE, SlotsEnd(off, |src|))
      modifies this`bitmap, this`blocks, this`inodes, this`dinodes, this`owner
      ensures Valid() && r == Data(src)
    {
      var w := Writei(i, off, src);
      LackingNone(inodes[i], blocks, off / BSIZE, SlotsEnd(off, |src|));
      r := Readi(i, off, |src|);
    }

    /** Free the block of slot s, if it has one. */
    method FreeSlot(b: nat, ghost i: nat, ghost s: nat, ghost inodes0: seq<Inode>, ghost bits0: seq<bool>)
      requires |blocks| <= 8 * |bitmap| && Owned(inodes0, blocks, owner) && Marked(bits0, |blocks|, reserved, owner)
      requires i < |inodes0| && s <= INDIRECT && b == Ref(inodes0[i], blocks, s)
      requires Freeing(Bits(bitmap), bits0, |blocks|, owner, i, s)
      modifies this`bitmap
      ensures |bitmap| == |old(bitmap)| && Freeing(Bits(bitmap), bits0, |blocks|, owner, i, s + 1)
    {
      FreedNext(inodes0, blocks, owner, i, s);
      if b != 0 {
        assert RefOwned(inodes0, blocks, owner, i, s) && OwnerRefers(inodes0, blocks, owner, b);
        Bfree(b);
      }
    }

    /** itrunc (fs.c:395-422): every block of the inode goes back, no other does,
        and bfree never meets a free block. */
    method Itrunc(i: nat)
      requires Valid() && i < |inodes|
      modifies this`bitmap, this`inodes, this`dinodes, this`owner
      ensures Valid() && inodes == old(inodes)[i := Emptied(old(inodes)[i])]
      ensures dinodes == old(dinodes)[i := inodes[i]]
      ensures owner == OwnerWithout(old(owner), i)
      ensures forall b :: 0 <= b < |blocks| ==>
                (Bits(bitmap)[b] <==> Bits(old(bitmap))[b] && !(b in old(owner) && old(owner)[b].0 == i))
      ensures forall j :: 0 <= j < |inodes| && j != i ==> Bytes(inodes[j], blocks) == old(Bytes(inodes[j], blocks))
    {
      ghost var inodes0, bits0 := inodes, Bits(bitmap);
      FreeDirect(i);
      FreeIndirect(i, inodes0, bits0);
      inodes := inodes[i := inodes[i].(size := 0, addrs := inodes[i].addrs[NDIRECT := 0])];
      assert inodes[i].addrs == seq(NDIRECT + 1, _ => 0);
      assert inodes == inodes0[i := Emptied(inodes0[i])];
      EmptiedOwned(inodes0, blocks, owner, i);
      EmptiedMarked(inodes0, blocks, Bits(bitmap), bits0, reserved, owner, i);
      owner := OwnerWithout(owner, i);
      Iupdate(i);
    }

    /** The direct blocks (fs.c:401-406). */
    method FreeDirect(i: nat)
      requires Valid() && i < |inodes|
      modifies this`bitmap, this`inodes
      ensures |bitmap| == |old(bitmap)| && SameMeta(old(inodes), inodes, i) && |inodes[i].addrs| == NDIRECT + 1
      ensures forall m :: 0 <= m <= NDIRECT ==> inodes[i].addrs[m] == if m < NDIRECT then 0 else old(inodes)[i].addrs[m]
      ensures Freeing(Bits(bitmap), Bits(old(bitmap)), |blocks|, owner, i, NDIRECT)
    {
      ghost var inodes0, bits0 := inodes, Bits(bitmap);
      var k := 0;
      while k < NDIRECT
        invariant 0 <= k <= NDIRECT && |bitmap| == |old(bitmap)|
        invariant SameMeta(inodes0, inodes, i) && |inodes[i].addrs| == NDIRECT + 1
        invariant forall m :: 0 <= m <= NDIRECT ==> inodes[i].addrs[m] == if m < k then 0 else inodes0[i].addrs[m]
        invariant Freeing(Bits(bitmap), bits0, |blocks|, owner, i, k)
      {
        FreeSlot(inodes[i].addrs[k], i, k, inodes0, bits0);
        inodes := inodes[i := inodes[i].(addrs := inodes[i].addrs[k := 0])];
        k := k + 1;
      }
    }

    /** The indirect block's words, then the indirect block (fs.c:408-418). */
    method FreeIndirect(i: nat, ghost inodes0: seq<Inode>, ghost bits0: seq<bool>)
      requires |blocks| <= 8 * |bitmap| && Owned(inodes0, blocks, owner) && Marked(bits0, |blocks|, reserved, owner)
      requires i < |inodes| == |inodes0| && |inodes[i].addrs| == NDIRECT + 1
      requires inodes[i].addrs[NDIRECT] == inodes0[i].addrs[NDIRECT]
      requires Freeing(Bits(bitmap), bits0, |blocks|, owner, i, NDIRECT)
      modifies this`bitmap
      ensures |bitmap| == |old(bitmap)| && Freeing(Bits(bitmap), bits0, |blocks|, owner, i, INDIRECT + 1)
    {
      var ind := inodes[i].addrs[NDIRECT];
      if ind == 0 {
        NothingIndirect(inodes0, blocks, owner, i);
        return;
      }
      RefInRange(inodes0, blocks, owner, i, INDIRECT);
      var a := blocks[ind];
      var j := 0;
      while j < NINDIRECT
        invariant 0 <= j <= NINDIRECT && |bitmap| == |old(bitmap)|
        invariant Freeing(Bits(bitmap), bits0, |blocks|, owner, i, NDIRECT + j)
      {
        FreeSlot(WordAt(a, j), i, NDIRECT + j, inodes0, bits0);
        j := j + 1;
      }
      FreeSlot(ind, i, INDIRECT, inodes0, bits0);
    }
  }

  /** A read from off on has come to tot: no byte has changed. */
  ghost predicate ReadTo(inodes0: seq<Inode>, blocks0: seq<Block>, inodes: seq<Inode>, blocks: seq<Block>, i: nat,
                         off: nat, tot: nat)
  {
    Filled(inodes0, blocks0, inodes, blocks, i, off / BSIZE, SlotsEnd(off, tot)) &&
    SameBytes(inodes0, blocks0, inodes, blocks)
  }

  lemma ReadOn(inodes0: seq<Inode>, blocks0: seq<Block>, inodes1: seq<Inode>, blocks1: seq<Block>,
               inodes: seq<Inode>, blocks: seq<Block>, i: nat, off: nat, tot: nat, m: nat, bn: nat)
    requires ReadTo(inodes0, blocks0, inodes1, blocks1, i, off, tot) && bn == SlotsEnd(off, tot) < MAXFILE
    requires SlotsEnd(off, tot + m) == bn + 1
    requires RefsGrow(inodes1, blocks1, inodes, blocks, i, bn) && Ref(inodes[i], blocks, bn) != 0
    requires PointerFilled(inodes1, inodes, i, bn) && SameBytes(inodes1, blocks1, inodes, blocks)
    ensures ReadTo(inodes0, blocks0, inodes, blocks, i, off, tot + m)
  {
    FillNext(inodes0, blocks0, inodes1, blocks1, inodes, blocks, i, off / BSIZE, bn);
  }

  /** What one turn adds to a read. */
  lemma TurnRead(bits0: seq<bool>, inodes0: seq<Inode>, blocks0: seq<Block>,
                 bits1: seq<bool>, inodes1: seq<Inode>, blocks1: seq<Block>,
                 bits: seq<bool>, inodes: seq<Inode>, blocks: seq<Block>,
                 i: nat, off: nat, n: nat, tot: nat, m: nat, bn: nat, ok: bool)
    requires ReadTo(inodes0, blocks0, inodes1, blocks1, i, off, tot)
    requires bn == SlotsEnd(off, tot) && SlotsEnd(off, tot + m) == bn + 1 <= SlotsEnd(off, n) <= MAXFILE
    requires AllPaid(bits0, inodes0, blocks0, bits1, inodes1, blocks1, i, off / BSIZE, SlotsEnd(off, n))
    requires AllPaid(bits1, inodes1, blocks1, bits, inodes, blocks, i, bn, bn + 1)
    requires RefsGrow(inodes1, blocks1, inodes, blocks, i, bn) && SameMeta(inodes1, inodes, i)
    requires SameBytes(inodes1, blocks1, inodes, blocks)
    requires ok ==> Ref(inodes[i], blocks, bn) != 0 && PointerFilled(inodes1, inodes, i, bn)
    requires !ok ==> Ref(inodes[i], blocks, bn) == 0 && |blocks| <= |bits| && forall c :: 0 <= c < |blocks| ==> bits[c]
    ensures SameMeta(inodes0, inodes, i) && SameBytes(inodes0, blocks0, inodes, blocks) && |blocks| == |blocks0|
    ensures Content(inodes1[i], blocks1) == Content(inodes0[i], blocks0)
    ensures ok ==> ReadTo(inodes0, blocks0, inodes, blocks, i, off, tot + m)
    ensures AllPaid(bits0, inodes0, blocks0, bits, inodes, blocks, i, off / BSIZE, SlotsEnd(off, n))
    ensures !ok ==> TooFew(bits0, inodes0, blocks0, i, off / BSIZE, SlotsEnd(off, n))
  {
    PayNext(bits0, inodes0, blocks0, bits1, inodes1, blocks1, bits, inodes, blocks, i, off / BSIZE, SlotsEnd(off, n),
            bn, bn + 1);
    SameBytesOn(inodes0, blocks0, inodes1, blocks1, inodes, blocks, i);
    if ok {
      ReadOn(inodes0, blocks0, inodes1, blocks1, inodes, blocks, i, off, tot, m, bn);
    } else {
      NotPaid(bits0, inodes0, blocks0, bits, inodes, blocks, i, off / BSIZE, SlotsEnd(off, n), bn);
    }
  }

  /** The bytes of inode i are spliced with src at off; no other byte changed. */
  ghost predicate SplicedAt(inodes0: seq<Inode>, blocks0: seq<Block>, inodes: seq<Inode>, blocks: seq<Block>,
                            i: nat, off: nat, src: seq<byte>)
  {
    && WellFormed(inodes0) && WellFormed(inodes) && i < |inodes| == |inodes0| && off + |src| <= MAXFILE * BSIZE
    && (forall j :: 0 <= j < |inodes| && j != i ==> Bytes(inodes[j], blocks) == Bytes(inodes0[j], blocks0))
    && Bytes(inodes[i], blocks) == Splice(Bytes(inodes0[i], blocks0), off, src)
  }

  lemma SplicedOn(inodes0: seq<Inode>, blocks0: seq<Block>, inodes1: seq<Inode>, blocks1: seq<Block>,
                  inodes: seq<Inode>, blocks: seq<Block>, i: nat, off: nat, src: seq<byte>, tot: nat, m: nat)
    requires tot + m <= |src| && off + |src| <= MAXFILE * BSIZE
    requires SplicedAt(inodes0, blocks0, inodes1, blocks1, i, off, src[..tot])
    requires SplicedAt(inodes1, blocks1, inodes, blocks, i, off + tot, src[tot..tot + m])
    ensures SplicedAt(inodes0, blocks0, inodes, blocks, i, off, src[..tot + m])
  {
    SpliceTwice(Bytes(inodes0[i], blocks0), off, src, tot, m);
  }

  lemma SameBytesOn(inodes0: seq<Inode>, blocks0: seq<Block>, inodes1: seq<Inode>, blocks1: seq<Block>,
                    inodes: seq<Inode>, blocks: seq<Block>, i: nat)
    requires WellFormed(inodes0) && WellFormed(inodes1) && WellFormed(inodes)
    requires SameMeta(inodes0, inodes1, i) && SameMeta(inodes1, inodes, i)
    requires SameBytes(inodes0, blocks0, inodes1, blocks1) && SameBytes(inodes1, blocks1, inodes, blocks)
    ensures SameMeta(inodes0, inodes, i) && SameBytes(inodes0, blocks0, inodes, blocks)
    ensures Content(inodes1[i], blocks1) == Content(inodes0[i], blocks0)
  {
  }

  lemma SplicedContent(inodes0: seq<Inode>, blocks0: seq<Block>, inodes: seq<Inode>, blocks: seq<Block>,
                       i: nat, off: nat, src: seq<byte>)
    requires SplicedAt(inodes0, blocks0, inodes, blocks, i, off, src)
    requires SameMeta(inodes0, inodes, i) && off <= inodes0[i].size
    ensures forall j :: 0 <= j < |inodes| && j != i ==> Content(inodes[j], blocks) == Content(inodes0[j], blocks0)
    ensures Bytes(inodes[i], blocks)[..Max(inodes0[i].size, off + |src|)] ==
            Overwrite(Content(inodes0[i], blocks0), off, src)
  {
    OverwriteContent(Bytes(inodes0[i], blocks0), inodes0[i].size, off, src);
  }

  lemma FillNoneHoles(inodes0: seq<Inode>, blocks0: seq<Block>, inodes: seq<Inode>, blocks: seq<Block>, i: nat,
                      lo: nat, hi: nat)
    requires Filled(inodes0, blocks0, inodes, blocks, i, lo, hi)
    ensures forall j :: 0 <= j < |inodes| && NoHoles(inodes0[j], blocks0) ==> NoHoles(inodes[j], blocks)
  {
    forall j | 0 <= j < |inodes| && NoHoles(inodes0[j], blocks0) ensures NoHoles(inodes[j], blocks) {
      FillNoHoles(inodes0, blocks0, inodes, blocks, i, lo, hi, j);
    }
  }

  /** A write of src from off on has come to tot. */
  ghost predicate WrittenTo(inodes0: seq<Inode>, blocks0: seq<Block>, inodes: seq<Inode>, blocks: seq<Block>,
                            i: nat, off: nat, src: seq<byte>, tot: nat)
    requires tot <= |src|
  {
    && Filled(inodes0, blocks0, inodes, blocks, i, off / BSIZE, SlotsEnd(off, tot))
    && SplicedAt(inodes0, blocks0, inodes, blocks, i, off, src[..tot])
  }

  lemma WrittenOn(inodes0: seq<Inode>, blocks0: seq<Block>, inodes1: seq<Inode>, blocks1: seq<Block>,
                  inodes: seq<Inode>, blocks: seq<Block>, i: nat, off: nat, src: seq<byte>, tot: nat, m: nat, bn: nat)
    requires tot + m <= |src| && off + |src| <= MAXFILE * BSIZE
    requires WrittenTo(inodes0, blocks0, inodes1, blocks1, i, off, src, tot)
    requires bn == SlotsEnd(off, tot) < MAXFILE && SlotsEnd(off, tot + m) == bn + 1
    requires RefsGrow(inodes1, blocks1, inodes, blocks, i, bn) && Ref(inodes[i], blocks, bn) != 0
    requires PointerFilled(inodes1, inodes, i, bn)
    requires SplicedAt(inodes1, blocks1, inodes, blocks, i, off + tot, src[tot..tot + m])
    ensures WrittenTo(inodes0, blocks0, inodes, blocks, i, off, src, tot + m)
  {
    FillNext(inodes0, blocks0, inodes1, blocks1, inodes, blocks, i, off / BSIZE, bn);
    SplicedOn(inodes0, blocks0, inodes1, blocks1, inodes, blocks, i, off, src, tot, m);
  }

  lemma SplicedNone(inodes0: seq<Inode>, blocks0: seq<Block>, inodes1: seq<Inode>, blocks1: seq<Block>,
                    inodes: seq<Inode>, blocks: seq<Block>, i: nat, off: nat, src: seq<byte>, at: nat)
    requires SplicedAt(inodes0, blocks0, inodes1, blocks1, i, off, src)
    requires SplicedAt(inodes1, blocks1, inodes, blocks, i, at, [])
    ensures SplicedAt(inodes0, blocks0, inodes, blocks, i, off, src)
  {
    assert Splice(Bytes(inodes1[i], blocks1), at, []) == Bytes(inodes1[i], blocks1);
  }

  lemma WriteStart(inodes: seq<Inode>, blocks: seq<Block>, i: nat, off: nat, src: seq<byte>)
    requires WellFormed(inodes) && i < |inodes| && off + |src| <= MAXFILE * BSIZE
    ensures WrittenTo(inodes, blocks, inodes, blocks, i, off, src, 0)
  {
    FillStart(inodes, blocks, i, off / BSIZE);
    assert Splice(Bytes(inodes[i], blocks), off, src[..0]) == Bytes(inodes[i], blocks);
  }

  ghost predicate Sliced(inodes: seq<Inode>, blocks: seq<Block>, i: nat, a: nat, b: nat, piece: seq<byte>) {
    WellFormed(inodes) && i < |inodes| && a <= b <= inodes[i].size && piece == Content(inodes[i], blocks)[a..b]
  }

  lemma SlicedOn(inodes: seq<Inode>, blocks: seq<Block>, i: nat, a: nat, b: nat, c: nat, dst: seq<byte>,
                 piece: seq<byte>)
    requires Sliced(inodes, blocks, i, a, b, dst) && Sliced(inodes, blocks, i, b, c, piece)
    ensures Sliced(inodes, blocks, i, a, c, dst + piece)
  {
    Slices(Content(inodes[i], blocks), a, b, c);
  }

  /** Where a loop over n bytes from off on stands between turns. */
  predicate Paced(off: nat, n: nat, tot: nat) {
    tot == 0 || tot == n || (off + tot) % BSIZE == 0
  }

  /** One turn over the bytes goes to the next slot. */
  lemma TurnSlots(off: nat, n: nat, tot: nat, m: nat) returns (bn: nat)
    requires tot < n && Paced(off, n, tot)
    requires m == Min(n - tot, BSIZE - (off + tot) % BSIZE) && off + n <= MAXFILE * BSIZE
    ensures bn == (off + tot) / BSIZE == SlotsEnd(off, tot)
    ensures SlotsEnd(off, tot + m) == bn + 1 <= SlotsEnd(off, n) <= MAXFILE
    ensures Paced(off, n, tot + m) && 0 < m
  {
    bn := (off + tot) / BSIZE;
  }

  lemma TurnBelow(off: nat, n: nat, tot: nat)
    requires tot < n && Paced(off, n, tot) && off + n <= MAXFILE * BSIZE
    ensures off / BSIZE <= SlotsEnd(off, tot) < SlotsEnd(off, n) <= MAXFILE
  {
  }

  /** A file without holes that has got all the blocks of its new bytes. */
  lemma GrownNoHoles(ino: Inode, ino': Inode, blocks: seq<Block>, off: nat, n: nat)
    requires |ino.addrs| == |ino'.addrs| == NDIRECT + 1 && ino'.size == off + n
    requires off <= ino.size && SlotsEnd(off, n) <= MAXFILE
    requires forall t :: 0 <= t <= INDIRECT ==> Ref(ino', blocks, t) == Ref(ino, blocks, t)
    requires Mapped(ino, blocks, off / BSIZE, SlotsEnd(off, n))
    ensures NoHoles(ino, blocks) ==> NoHoles(ino', blocks)
    ensures Mapped(ino', blocks, off / BSIZE, SlotsEnd(off, n))
  {
    if NoHoles(ino, blocks) {
      forall bn | 0 <= bn < MAXFILE && bn * BSIZE < ino'.size ensures Ref(ino', blocks, bn) != 0 {
        assert bn < off / BSIZE ==> bn * BSIZE < ino.size;
      }
    }
  }

  /** How readi ends: the bytes, a refusal, or balloc's panic. */
  datatype ReadResult = Data(data: seq<byte>) | NotRead | NoBlocks

  /** How writei ends: the count, a refusal, or balloc's panic. */
  datatype WriteResult = Wrote(n: nat) | Refused | OutOfBlocks(tot: nat)
}

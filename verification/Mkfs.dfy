/** The image builder (mkfs.c): blocks are handed out in order to files that are
    only appended to, and the bitmap is written last.  The image it leaves is
    one the file system's invariants hold of. */
module Mkfs {
  import opened Common
  import opened BlockMap
  import opened Fs

  /** All blocks handed out so far are owned; all others are zero. */
  ghost predicate ImageOk(inodes: seq<Inode>, blocks: seq<Block>, owner: Owner, meta: nat, freeblock: nat) {
    && 0 < meta <= freeblock <= |blocks| <= UINT_MOD && Owned(inodes, blocks, owner)
    && (forall b :: b in owner <==> meta <= b < freeblock)
    && (forall b :: freeblock <= b < |blocks| ==> blocks[b] == Zeros())
  }

  /** Taking the next block for a slot keeps that, and no byte changes. */
  lemma TakeNext(inodes: seq<Inode>, blocks: seq<Block>, owner: Owner, meta: nat, freeblock: nat,
                 inodes': seq<Inode>, blocks': seq<Block>, i: nat, s: nat)
    requires ImageOk(inodes, blocks, owner, meta, freeblock) && freeblock < |blocks|
    requires Gained(inodes, blocks, inodes', blocks', i, s, freeblock) && DataSame(blocks, blocks', owner)
    requires forall b :: freeblock <= b < |blocks| ==> blocks'[b] == blocks[b]
    ensures ImageOk(inodes', blocks', owner[freeblock := (i, s)], meta, freeblock + 1)
    ensures SameBytes(inodes, blocks, inodes', blocks')
  {
    GainedOwned(inodes, blocks, owner, inodes', blocks', i, s, freeblock);
    forall j | 0 <= j < |inodes| ensures Bytes(inodes'[j], blocks') == Bytes(inodes[j], blocks) {
      GainedBytes(inodes, blocks, owner, inodes', blocks', i, s, freeblock, j);
    }
  }

  lemma FreshInode(inodes: seq<Inode>, blocks: seq<Block>, owner: Owner, i: nat, ino: Inode)
    requires Owned(inodes, blocks, owner) && i < |inodes|
    requires forall s :: 0 <= s <= INDIRECT ==> Ref(inodes[i], blocks, s) == 0
    requires ino.addrs == seq(NDIRECT + 1, _ => 0) && ino.size == 0
    ensures Owned(inodes[i := ino], blocks, owner)
  {
    var inodes' := inodes[i := ino];
    forall j, t | 0 <= j < |inodes| && 0 <= t <= INDIRECT ensures RefOwned(inodes', blocks, owner, j, t) {
      assert RefOwned(inodes, blocks, owner, j, t);
    }
    forall b | b in owner ensures OwnerRefers(inodes', blocks, owner, b) {
      assert OwnerRefers(inodes, blocks, owner, b);
      var (j, t) := owner[b];
      assert j != i;
    }
  }

  /** A file has exactly the blocks its size calls for. */
  ghost predicate Tight(ino: Inode, blocks: seq<Block>)
    requires |ino.addrs| == NDIRECT + 1
  {
    && NoHoles(ino, blocks) && (ino.addrs[NDIRECT] != 0 <==> ino.size > NDIRECT * BSIZE)
    && forall bn :: 0 <= bn < MAXFILE && bn * BSIZE >= ino.size ==> Ref(ino, blocks, bn) == 0
  }

  /** Nothing but zeros behind the end. */
  ghost predicate ZeroTail(ino: Inode, blocks: seq<Block>)
    requires |ino.addrs| == NDIRECT + 1
  {
    forall k :: ino.size <= k < MAXFILE * BSIZE ==> Bytes(ino, blocks)[k] == 0
  }

  /** What holds of every file until mkfs touches the root directory's size. */
  ghost predicate Files(inodes: seq<Inode>, blocks: seq<Block>) {
    WellFormed(inodes) && forall j :: 0 <= j < |inodes| ==> Tight(inodes[j], blocks) && ZeroTail(inodes[j], blocks)
  }

  /** The blocks of a file of this size, its indirect block included. */
  function BlocksFor(size: nat): nat {
    (size + BSIZE - 1) / BSIZE + if size > NDIRECT * BSIZE then 1 else 0
  }

  /** The blocks that n more bytes call for. */
  function Added(size: nat, n: nat): nat {
    BlocksFor(size + n) - BlocksFor(size)
  }

  lemma AddedTwice(size: nat, a: nat, b: nat, n: nat)
    requires a + b <= n
    ensures Added(size, a) + Added(size + a, b) == Added(size, a + b) <= Added(size, n)
  {
  }

  lemma MissingAtEnd(ino: Inode, blocks: seq<Block>, n: nat)
    requires |ino.addrs| == NDIRECT + 1 && Tight(ino, blocks) && 0 < n <= BSIZE - ino.size % BSIZE
    requires ino.size + n <= MAXFILE * BSIZE
    ensures BlocksFor(ino.size + n) == BlocksFor(ino.size) + Missing(ino, blocks, ino.size / BSIZE)
  {
    var bn := ino.size / BSIZE;
    assert bn * BSIZE <= ino.size < ino.size + n <= (bn + 1) * BSIZE;
    assert ino.size % BSIZE == 0 <==> bn * BSIZE >= ino.size;
  }

  /** The size mkfs gives the root directory (mkfs.c:151): the least number of
      whole blocks that is bigger. */
  function RoundedUp(size: nat): (r: nat)
    ensures r % BSIZE == 0 && size < r <= size + BSIZE
  {
    (size / BSIZE + 1) * BSIZE
  }

  /** Rounding the root directory up leaves no hole exactly when its size was
      not already a whole number of blocks. */
  lemma RootRounding(ino: Inode, blocks: seq<Block>)
    requires |ino.addrs| == NDIRECT + 1 && Tight(ino, blocks) && RoundedUp(ino.size) <= MAXFILE * BSIZE
    ensures NoHoles(ino.(size := RoundedUp(ino.size)), blocks) <==> ino.size % BSIZE != 0
  {
    var ino' := ino.(size := RoundedUp(ino.size));
    var last := ino.size / BSIZE;
    assert forall t :: 0 <= t <= INDIRECT ==> Ref(ino', blocks, t) == Ref(ino, blocks, t);
    assert last * BSIZE < ino'.size && last < MAXFILE;
    if ino.size % BSIZE == 0 {
      assert last * BSIZE >= ino.size && Ref(ino', blocks, last) == 0;
    } else {
      forall bn | 0 <= bn < MAXFILE && bn * BSIZE < ino'.size ensures Ref(ino', blocks, bn) != 0 {
        assert bn * BSIZE < ino.size;
      }
    }
  }

  /** Filling the block at the end of a file leaves every file tight. */
  lemma AppendTight(inodes: seq<Inode>, blocks: seq<Block>, inodes': seq<Inode>, blocks': seq<Block>, i: nat, size: nat)
    requires i < |inodes| && RefsGrow(inodes, blocks, inodes', blocks', i, inodes[i].size / BSIZE)
    requires SameMeta(inodes, inodes', i)
    requires forall j :: 0 <= j < |inodes| ==> Tight(inodes[j], blocks)
    requires inodes[i].size < size <= MAXFILE * BSIZE && size - inodes[i].size <= BSIZE - inodes[i].size % BSIZE
    requires Ref(inodes'[i], blocks', inodes[i].size / BSIZE) != 0
    requires inodes[i].size / BSIZE < NDIRECT ==> inodes'[i].addrs[NDIRECT] == inodes[i].addrs[NDIRECT]
    ensures forall j :: 0 <= j < |inodes'| ==> Tight(if j == i then inodes'[j].(size := size) else inodes'[j], blocks')
  {
    var bn := inodes[i].size / BSIZE;
    forall j, t | 0 <= j < |inodes| && 0 <= t < MAXFILE && !(j == i && t == bn)
      ensures Ref(inodes'[j], blocks', t) == Ref(inodes[j], blocks, t)
    {
      assert RefGrows(inodes, blocks, inodes', blocks', i, bn, j, t);
    }
    forall j | 0 <= j < |inodes'| ensures Tight(if j == i then inodes'[j].(size := size) else inodes'[j], blocks') {
      assert Tight(inodes[j], blocks);
      if j == i {
        var ino := inodes'[i].(size := size);
        assert forall t :: 0 <= t < MAXFILE ==> Ref(ino, blocks', t) == Ref(inodes'[i], blocks', t);
        assert bn < NDIRECT <==> size <= NDIRECT * BSIZE;
      }
    }
  }

  /** Every inode but i, and its content, is as it was. */
  ghost predicate OthersSame(inodes: seq<Inode>, blocks: seq<Block>, inodes': seq<Inode>, blocks': seq<Block>, i: nat) {
    && WellFormed(inodes) && WellFormed(inodes') && |inodes'| == |inodes|
    && forall j :: 0 <= j < |inodes| && j != i ==>
         inodes'[j] == inodes[j] && Content(inodes'[j], blocks') == Content(inodes[j], blocks)
  }

  /** The file has these bytes more; the others are as they were. */
  ghost predicate Longer(inodes: seq<Inode>, blocks: seq<Block>, inodes': seq<Inode>, blocks': seq<Block>, i: nat,
                         more: seq<byte>)
  {
    && OthersSame(inodes, blocks, inodes', blocks', i) && i < |inodes| && inodes'[i].size == inodes[i].size + |more|
    && inodes'[i].kind == inodes[i].kind && inodes'[i].nlink == inodes[i].nlink
    && Content(inodes'[i], blocks') == Content(inodes[i], blocks) + more
  }

  lemma LongerStill(inodes: seq<Inode>, blocks: seq<Block>, inodes1: seq<Inode>, blocks1: seq<Block>,
                    inodes': seq<Inode>, blocks': seq<Block>, i: nat, data: seq<byte>, done: nat, n: nat)
    requires done + n <= |data| && Longer(inodes, blocks, inodes1, blocks1, i, data[..done])
    requires Longer(inodes1, blocks1, inodes', blocks', i, data[done..done + n])
    ensures Longer(inodes, blocks, inodes', blocks', i, data[..done + n])
  {
    assert data[..done + n] == data[..done] + data[done..done + n];
  }

  /** The file longer by a piece, once that is in place. */
  lemma Appended(inodes: seq<Inode>, blocks: seq<Block>, inodes': seq<Inode>, blocks': seq<Block>, i: nat,
                 piece: seq<byte>)
    requires i < |inodes| && Files(inodes, blocks) && inodes[i].size + |piece| <= MAXFILE * BSIZE
    requires WellFormed(inodes') && |inodes'| == |inodes| && inodes'[i].size == inodes[i].size + |piece|
    requires inodes'[i].kind == inodes[i].kind && inodes'[i].nlink == inodes[i].nlink
    requires Bytes(inodes'[i], blocks') == Splice(Bytes(inodes[i], blocks), inodes[i].size, piece)
    requires forall j :: 0 <= j < |inodes| && j != i ==>
              inodes'[j] == inodes[j] && Bytes(inodes'[j], blocks') == Bytes(inodes[j], blocks)
    ensures forall j :: 0 <= j < |inodes'| ==> ZeroTail(inodes'[j], blocks')
    ensures Longer(inodes, blocks, inodes', blocks', i, piece)
  {
    OverwriteContent(Bytes(inodes[i], blocks), inodes[i].size, inodes[i].size, piece);
    forall j | 0 <= j < |inodes'| ensures ZeroTail(inodes'[j], blocks') {
      assert ZeroTail(inodes[j], blocks);
    }
  }

  class Image {
    var blocks: seq<Block>
    var inodes: seq<Inode>
    var freeblock: nat
    const meta: nat
    ghost var owner: Owner

    ghost predicate Valid()
      reads this
    {
      ImageOk(inodes, blocks, owner, meta, freeblock)
    }

    /** mkfs starts from a zeroed disk (mkfs.c:91-101). */
    constructor (size: nat, meta: nat, ninodes: nat)
      requires 0 < meta <= size <= UINT_MOD
      ensures Valid() && |blocks| == size && |inodes| == ninodes && this.meta == freeblock == meta
      ensures forall i :: 0 <= i < ninodes ==> inodes[i] == Inode(0, 0, 0, 0, 0, seq(NDIRECT + 1, _ => 0))
      ensures Files(inodes, blocks)
    {
      blocks := seq(size, _ => Zeros());
      inodes := seq(ninodes, _ => Inode(0, 0, 0, 0, 0, seq(NDIRECT + 1, _ => 0)));
      freeblock, this.meta, owner := meta, meta, map[];
    }

    /** ialloc (mkfs.c:219-231). */
    method Ialloc(i: nat, kind: int)
      requires Valid() && i < |inodes| && forall s :: 0 <= s <= INDIRECT ==> Ref(inodes[i], blocks, s) == 0
      modifies this`inodes
      ensures Valid() && inodes == old(inodes)[i := Inode(kind, 0, 0, 1, 0, seq(NDIRECT + 1, _ => 0))]
      ensures old(Files(inodes, blocks)) ==> Files(inodes, blocks)
    {
      FreshInode(inodes, blocks, owner, i, Inode(kind, 0, 0, 1, 0, seq(NDIRECT + 1, _ => 0)));
      inodes := inodes[i := Inode(kind, 0, 0, 1, 0, seq(NDIRECT + 1, _ => 0))];
    }

    /** The next block, for pointer a of the inode (mkfs.c:268-270, 274-277). */
    method TakePointer(i: nat, a: nat)
      requires Valid() && i < |inodes| && a <= NDIRECT && inodes[i].addrs[a] == 0 && freeblock < |blocks|
      modifies this`inodes, this`freeblock, this`owner
      ensures Valid() && freeblock == old(freeblock) + 1 && inodes == WithAddr(old(inodes), i, a, old(freeblock))
      ensures SameBytes(old(inodes), blocks, inodes, blocks)
      ensures Gained(old(inodes), blocks, inodes, blocks, i, if a < NDIRECT then a else INDIRECT, old(freeblock))
    {
      ghost var s := if a < NDIRECT then a else INDIRECT;
      GainPointer(inodes, blocks, owner, i, a, freeblock);
      assert blocks[freeblock := Zeros()] == blocks;
      ghost var inodes' := WithAddr(inodes, i, a, freeblock);
      TakeNext(inodes, blocks, owner, meta, freeblock, inodes', blocks, i, s);
      inodes := inodes[i := inodes[i].(addrs := inodes[i].addrs[a := freeblock])];
      owner := owner[freeblock := (i, s)];
      freeblock := freeblock + 1;
    }

    /** The next block, for a word of the indirect block (mkfs.c:280-285). */
    method TakeWord(i: nat, bn: nat)
      requires Valid() && i < |inodes| && NDIRECT <= bn < MAXFILE && Ref(inodes[i], blocks, bn) == 0
      requires inodes[i].addrs[NDIRECT] != 0 && freeblock < |blocks|
      modifies this`blocks, this`freeblock, this`owner
      ensures Valid() && freeblock == old(freeblock) + 1 && |blocks| == |old(blocks)|
      ensures SameBytes(inodes, old(blocks), inodes, blocks)
      ensures Gained(inodes, old(blocks), inodes, blocks, i, bn, old(freeblock))
    {
      var ind := inodes[i].addrs[NDIRECT];
      assert RefOwned(inodes, blocks, owner, i, INDIRECT);
      RefInRange(inodes, blocks, owner, i, INDIRECT);
      GainWord(inodes, blocks, owner, i, bn, freeblock);
      assert blocks[freeblock := Zeros()] == blocks;
      ghost var blocks' := blocks[ind := WithWord(blocks[ind], bn - NDIRECT, freeblock)];
      TakeNext(inodes, blocks, owner, meta, freeblock, inodes, blocks', i, bn);
      blocks := blocks[ind := WithWord(blocks[ind], bn - NDIRECT, freeblock)];
      owner := owner[freeblock := (i, bn)];
      freeblock := freeblock + 1;
    }

    /** The block of slot bn, taken in order if it has none (mkfs.c:267-287).
        Fails when the image is full. */
    method MapBlock(i: nat, bn: nat) returns (b: nat)
      requires Valid() && i < |inodes| && bn < MAXFILE
      modifies this`blocks, this`inodes, this`freeblock, this`owner
      ensures Valid() && RefsGrow(old(inodes), old(blocks), inodes, blocks, i, bn)
      ensures SameMeta(old(inodes), inodes, i) && SameBytes(old(inodes), old(blocks), inodes, blocks)
      ensures b != 0 <==> old(freeblock) + old(Missing(inodes[i], blocks, bn)) <= |blocks|
      ensures b != 0 ==> b < |blocks| && Ref(inodes[i], blocks, bn) == b
      ensures b != 0 ==> freeblock == old(freeblock) + old(Missing(inodes[i], blocks, bn))
      ensures bn < NDIRECT ==> inodes[i].addrs[NDIRECT] == old(inodes)[i].addrs[NDIRECT]
    {
      ghost var inodes0, blocks0, f0 := inodes, blocks, freeblock;
      RefsStay(inodes, blocks, i, bn);
      RefInRange(inodes, blocks, owner, i, bn);
      if bn < NDIRECT {
        if inodes[i].addrs[bn] == 0 {
          if freeblock == |blocks| {
            return 0;
          }
          TakePointer(i, bn);
          GainedGrows(inodes0, blocks0, inodes, blocks, i, bn, f0, bn);
        }
        return inodes[i].addrs[bn];
      }
      if inodes[i].addrs[NDIRECT] == 0 {
        if freeblock == |blocks| {
          return 0;
        }
        TakePointer(i, NDIRECT);
        GainedGrows(inodes0, blocks0, inodes, blocks, i, INDIRECT, f0, bn);
      }
      ghost var inodes1, blocks1, f1 := inodes, blocks, freeblock;
      RefInRange(inodes, blocks, owner, i, INDIRECT);
      RefInRange(inodes, blocks, owner, i, bn);
      b := WordAt(blocks[inodes[i].addrs[NDIRECT]], bn - NDIRECT);
      if b == 0 {
        if freeblock == |blocks| {
          return 0;
        }
        b := freeblock;
        TakeWord(i, bn);
        GainedGrows(inodes, blocks1, inodes, blocks, i, bn, f1, bn);
        GrowsTwice(inodes0, blocks0, inodes1, blocks1, inodes, blocks, i, bn);
      }
    }

    /** One turn of iappend's loop (mkfs.c:264-297), the size included. */
    method AppendPiece(i: nat, piece: seq<byte>) returns (ok: bool)
      requires Valid() && i < |inodes| && 0 < |piece| <= BSIZE - inodes[i].size % BSIZE
      requires inodes[i].size + |piece| <= MAXFILE * BSIZE && Files(inodes, blocks)
      modifies this`blocks, this`inodes, this`freeblock, this`owner
      ensures Valid() && |inodes| == |old(inodes)| && |blocks| == |old(blocks)|
      ensures ok <==> old(freeblock) + Added(old(inodes)[i].size, |piece|) <= |blocks|
      ensures ok ==> freeblock == old(freeblock) + Added(old(inodes)[i].size, |piece|)
      ensures ok ==> Files(inodes, blocks) && Longer(old(inodes), old(blocks), inodes, blocks, i, piece)
    {
      var off := inodes[i].size;
      MissingAtEnd(inodes[i], blocks, |piece|);
      ok := StorePiece(i, off, piece);
      if !ok {
        return;
      }
      AppendTight(old(inodes), old(blocks), inodes, blocks, i, off + |piece|);
      ResizeOwned(inodes, blocks, owner, i, off + |piece|);
      inodes := inodes[i := inodes[i].(size := off + |piece|)];
      Appended(old(inodes), old(blocks), inodes, blocks, i, piece);
    }

    /** Map the block and copy into it (mkfs.c:265-291). */
    method StorePiece(i: nat, off: nat, piece: seq<byte>) returns (ok: bool)
      requires Valid() && i < |inodes| && 0 < |piece| <= BSIZE - off % BSIZE && off + |piece| <= MAXFILE * BSIZE
      modifies this`blocks, this`inodes, this`freeblock, this`owner
      ensures Valid() && RefsGrow(old(inodes), old(blocks), inodes, blocks, i, off / BSIZE)
      ensures SameMeta(old(inodes), inodes, i)
      ensures ok <==> old(freeblock) + old(Missing(inodes[i], blocks, off / BSIZE)) <= |blocks|
      ensures ok ==> freeblock == old(freeblock) + old(Missing(inodes[i], blocks, off / BSIZE))
      ensures ok ==> Ref(inodes[i], blocks, off / BSIZE) != 0
      ensures off / BSIZE < NDIRECT ==> inodes[i].addrs[NDIRECT] == old(inodes)[i].addrs[NDIRECT]
      ensures ok ==> Bytes(inodes[i], blocks) == Splice(old(Bytes(inodes[i], blocks)), off, piece)
      ensures ok ==> forall j :: 0 <= j < |inodes| && j != i ==>
                Bytes(inodes[j], blocks) == Bytes(old(inodes)[j], old(blocks))
    {
      var b := MapBlock(i, off / BSIZE);
      if b == 0 {
        return false;
      }
      ghost var blocks1 := blocks;
      assert RefOwned(inodes, blocks, owner, i, off / BSIZE);
      StoreBytes(inodes, blocks1, owner, i, off / BSIZE, off % BSIZE, piece);
      blocks := blocks[b := Splice(blocks[b], off % BSIZE, piece)];
      OwnedFrame(inodes, blocks1, owner, blocks);
      RefsFrame(old(inodes), old(blocks), inodes, blocks1, owner, blocks, i, off / BSIZE);
      RefFrame(inodes, blocks1, owner, blocks, i, off / BSIZE);
      return true;
    }

    /** iappend (mkfs.c:251-298): the file grows by exactly these bytes and takes
        exactly the blocks they call for. */
    method Iappend(i: nat, data: seq<byte>) returns (ok: bool)
      requires Valid() && i < |inodes| && inodes[i].size + |data| <= MAXFILE * BSIZE && Files(inodes, blocks)
      modifies this`blocks, this`inodes, this`freeblock, this`owner
      ensures Valid() && |inodes| == |old(inodes)| && |blocks| == |old(blocks)|
      ensures ok <==> old(freeblock) + Added(old(inodes)[i].size, |data|) <= |blocks|
      ensures ok ==> freeblock == old(freeblock) + Added(old(inodes)[i].size, |data|)
      ensures ok ==> Files(inodes, blocks) && Longer(old(inodes), old(blocks), inodes, blocks, i, data)
    {
      var done := 0;
      while done < |data|
        invariant 0 <= done <= |data| && Valid() && |blocks| == |old(blocks)| && Files(inodes, blocks)
        invariant Longer(old(inodes), old(blocks), inodes, blocks, i, data[..done])
        invariant freeblock == old(freeblock) + Added(old(inodes)[i].size, done)
        decreases |data| - done
      {
        var n1 := Min(|data| - done, BSIZE - inodes[i].size % BSIZE);
        AddedTwice(old(inodes)[i].size, done, n1, |data|);
        ghost var inodes1, blocks1 := inodes, blocks;
        var more := AppendPiece(i, data[done..done + n1]);
        if !more {
          return false;
        }
        LongerStill(old(inodes), old(blocks), inodes1, blocks1, inodes, blocks, i, data, done, n1);
        done := done + n1;
      }
      assert data[..|data|] == data;
      return true;
    }

    /** The root directory's size is rounded up (mkfs.c:148-153): its content is
        padded with zeros, and has a hole exactly if it filled its last block. */
    method RoundRoot(i: nat)
      requires Valid() && i < |inodes| && Tight(inodes[i], blocks) && ZeroTail(inodes[i], blocks)
      requires RoundedUp(inodes[i].size) <= MAXFILE * BSIZE
      modifies this`inodes
      ensures Valid() && inodes == old(inodes)[i := old(inodes)[i].(size := RoundedUp(old(inodes)[i].size))]
      ensures old(inodes)[i].size < inodes[i].size
      ensures Content(inodes[i], blocks) ==
              old(Content(inodes[i], blocks)) + seq(inodes[i].size - old(inodes)[i].size, _ => 0)
      ensures NoHoles(inodes[i], blocks) <==> old(inodes)[i].size % BSIZE != 0
      ensures forall j :: 0 <= j < |inodes| && j != i ==> Content(inodes[j], blocks) == Content(old(inodes)[j], blocks)
    {
      var size := RoundedUp(inodes[i].size);
      RootRounding(inodes[i], blocks);
      ResizeOwned(inodes, blocks, owner, i, size);
      inodes := inodes[i := inodes[i].(size := size)];
    }

    /** balloc (mkfs.c:233-247): one bitmap sector, with a bit for every block
        handed out.  The log's blocks, at the end of the disk, stay unmarked. */
    method Balloc(bitmapBytes: nat) returns (bitmap: seq<bv8>)
      requires Valid() && |blocks| <= 8 * bitmapBytes && freeblock < 8 * BSIZE
      ensures |bitmap| == bitmapBytes
      ensures forall b :: 0 <= b < |blocks| ==> (Bits(bitmap)[b] <==> b < freeblock)
    {
      bitmap := seq(bitmapBytes, _ => 0);
      var i := 0;
      while i < freeblock
        invariant 0 <= i <= freeblock && |bitmap| == bitmapBytes
        invariant forall b :: 0 <= b < |blocks| ==> (Bits(bitmap)[b] <==> b < i)
      {
        OneByte(bitmap, i / 8, i % 8, SetBit(bitmap[i / 8], i % 8), true);
        bitmap := bitmap[i / 8 := SetBit(bitmap[i / 8], i % 8)];
        i := i + 1;
      }
    }
  }

  ghost function Below(n: nat): (s: set<nat>)
    ensures forall b: nat :: b in s <==> b < n
  {
    if n == 0 then {} else Below(n - 1) + {n - 1}
  }

  /** The kernel's invariants hold of a finished image. */
  method Mount(img: Image, bitmapBytes: nat) returns (fs: FileSystem)
    requires img.Valid() && |img.blocks| <= 8 * bitmapBytes && img.freeblock < 8 * BSIZE
    ensures fresh(fs) && fs.Valid() && fs.inodes == fs.dinodes == img.inodes && fs.blocks == img.blocks
    ensures |fs.bitmap| == bitmapBytes && fs.owner == img.owner && fs.reserved == Below(img.meta)
    ensures forall b :: 0 <= b < |fs.blocks| ==> (Bits(fs.bitmap)[b] <==> b < img.freeblock)
  {
    var bitmap := img.Balloc(bitmapBytes);
    fs := new FileSystem(bitmap, img.blocks, img.inodes, Below(img.meta), img.owner);
  }

  /** The kernel takes a block of the log, which starts at lo, exactly when every
      block below it is in use: the log's blocks are like any other to balloc
      unless they are marked. */
  method Allocation(fs: FileSystem, lo: nat) returns (b: nat)
    requires fs.Valid() && 0 < lo < |fs.blocks|
    modifies fs`bitmap, fs`blocks
    ensures |fs.blocks| == |old(fs.blocks)| && b < |fs.blocks| && (b != 0 ==> !Bits(old(fs.bitmap))[b])
    ensures forall c :: 0 <= c < (if b == 0 then |fs.blocks| else b) ==> Bits(old(fs.bitmap))[c]
    ensures b >= lo <==> && (forall c :: 0 <= c < lo ==> Bits(old(fs.bitmap))[c])
                         && (exists c :: lo <= c < |fs.blocks| && !Bits(old(fs.bitmap))[c])
  {
    b := fs.Balloc();
  }

  /** The first block the kernel allocates is the next one mkfs would have: a
      block of the log exactly when mkfs had filled the data area. */
  method FirstAllocation(img: Image, bitmapBytes: nat, lo: nat) returns (b: nat)
    requires img.Valid() && |img.blocks| <= 8 * bitmapBytes && img.freeblock < 8 * BSIZE
    requires 0 < lo < |img.blocks|
    ensures b == if img.freeblock < |img.blocks| then img.freeblock else 0
    ensures b >= lo <==> lo <= img.freeblock < |img.blocks|
  {
    var fs := Mount(img, bitmapBytes);
    assert img.freeblock < |img.blocks| ==> !Bits(fs.bitmap)[img.freeblock];
    b := Allocation(fs, lo);
  }

  // ---- the image mkfs makes --------------------------------------------------

  // The sizes of mkfs.c:16-19, and what main computes from them (mkfs.c:87-95).
  const SIZE := 1024
  const NINODES := 200
  const META := 29
  const LOGSTART := 994

  const DOTS := 32
  const ENTRY := 16

  /** The blocks of a list of files. */
  function Total(files: seq<seq<byte>>): nat {
    if files == [] then 0 else Total(files[..|files| - 1]) + BlocksFor(|files[|files| - 1]|)
  }

  function Flat(entries: seq<seq<byte>>): seq<byte> {
    if entries == [] then [] else Flat(entries[..|entries| - 1]) + entries[|entries| - 1]
  }

  /** The blocks in use once the first n files are in place. */
  function Used(files: seq<seq<byte>>, n: nat): nat
    requires n <= |files|
  {
    META + BlocksFor(DOTS + ENTRY * n) + Total(files[..n])
  }

  lemma UsedNext(files: seq<seq<byte>>, entries: seq<seq<byte>>, n: nat)
    requires n < |files| == |entries|
    ensures Used(files, n + 1) == Used(files, n) + Added(DOTS + ENTRY * n, ENTRY) + BlocksFor(|files[n]|)
    ensures Flat(entries[..n + 1]) == Flat(entries[..n]) + entries[n]
  {
    assert files[..n + 1][..n] == files[..n] && entries[..n + 1][..n] == entries[..n];
  }

  lemma UsedMore(files: seq<seq<byte>>, entries: seq<seq<byte>>, n: nat)
    requires n <= |files| == |entries|
    ensures Used(files, n) <= Used(files, |files|)
    decreases |files| - n
  {
    if n < |files| {
      UsedNext(files, entries, n);
      UsedMore(files, entries, n + 1);
    }
  }

  /** What main can be given: an entry and at most MAXFILE blocks for each file. */
  predicate Fits(dots: seq<byte>, entries: seq<seq<byte>>, files: seq<seq<byte>>) {
    && |dots| == DOTS && |entries| == |files| <= NINODES - 2
    && (forall k :: 0 <= k < |entries| ==> |entries[k]| == ENTRY)
    && forall k :: 0 <= k < |files| ==> |files[k]| <= MAXFILE * BSIZE
  }

  /** The first n files are in the image, and nothing else. */
  ghost predicate Holding(inodes: seq<Inode>, blocks: seq<Block>, dots: seq<byte>, entries: seq<seq<byte>>,
                          files: seq<seq<byte>>, n: nat)
    requires n <= |files| == |entries|
  {
    && WellFormed(inodes) && |inodes| == NINODES && n <= NINODES - 2 && inodes[1].kind == 1
    && inodes[1].size == DOTS + ENTRY * n && Content(inodes[1], blocks) == dots + Flat(entries[..n])
    && (forall j :: 2 <= j < 2 + n ==> inodes[j].kind == 2 && Content(inodes[j], blocks) == files[j - 2])
    && forall j :: 2 + n <= j < NINODES ==> inodes[j] == Inode(0, 0, 0, 0, 0, seq(NDIRECT + 1, _ => 0))
  }

  lemma HoldingNext(inodes: seq<Inode>, blocks: seq<Block>, inodes': seq<Inode>, blocks': seq<Block>,
                    dots: seq<byte>, entries: seq<seq<byte>>, files: seq<seq<byte>>, n: nat)
    requires Fits(dots, entries, files) && n < |files| && Holding(inodes, blocks, dots, entries, files, n)
    requires FileAdded(inodes, blocks, inodes', blocks', 2 + n, entries[n], files[n])
    ensures Holding(inodes', blocks', dots, entries, files, n + 1)
  {
    UsedNext(files, entries, n);
  }

  /** Inode i is the new file, the root directory has its entry, and the rest is
      as it was. */
  ghost predicate FileAdded(inodes: seq<Inode>, blocks: seq<Block>, inodes': seq<Inode>, blocks': seq<Block>, i: nat,
                            entry: seq<byte>, data: seq<byte>)
  {
    && WellFormed(inodes) && WellFormed(inodes') && |inodes'| == |inodes| && 1 < i < |inodes|
    && inodes'[i].kind == 2 && Content(inodes'[i], blocks') == data
    && inodes'[1].kind == inodes[1].kind && inodes'[1].size == inodes[1].size + |entry|
    && Content(inodes'[1], blocks') == Content(inodes[1], blocks) + entry
    && forall j :: 0 <= j < |inodes| && j != i && j != 1 ==>
         inodes'[j] == inodes[j] && Content(inodes'[j], blocks') == Content(inodes[j], blocks)
  }

  /** One file of main's loop (mkfs.c:136-143): its inode, its entry, its bytes. */
  method AddFile(img: Image, i: nat, entry: seq<byte>, data: seq<byte>) returns (ok: bool)
    requires img.Valid() && 1 < i < |img.inodes| && Files(img.inodes, img.blocks)
    requires img.inodes[i] == Inode(0, 0, 0, 0, 0, seq(NDIRECT + 1, _ => 0))
    requires img.inodes[1].size + |entry| <= MAXFILE * BSIZE && |data| <= MAXFILE * BSIZE
    modifies img
    ensures img.Valid() && |img.blocks| == |old(img.blocks)| && |img.inodes| == |old(img.inodes)|
    ensures ok <==> old(img.freeblock) + Added(old(img.inodes)[1].size, |entry|) + BlocksFor(|data|) <= |img.blocks|
    ensures ok ==> img.freeblock == old(img.freeblock) + Added(old(img.inodes)[1].size, |entry|) + BlocksFor(|data|)
    ensures ok ==> Files(img.inodes, img.blocks)
    ensures ok ==> FileAdded(old(img.inodes), old(img.blocks), img.inodes, img.blocks, i, entry, data)
  {
    img.Ialloc(i, 2);
    assert forall j :: 0 <= j < |img.inodes| && j != i ==>
        Content(img.inodes[j], img.blocks) == old(Content(img.inodes[j], img.blocks));
    ok := img.Iappend(1, entry);
    if ok {
      assert Content(img.inodes[i], img.blocks) == [];
      ok := img.Iappend(i, data);
    }
  }

  /** The loop of main over the files, behind a root directory that has its dot
      entries. */
  method AddFiles(img: Image, dots: seq<byte>, entries: seq<seq<byte>>, files: seq<seq<byte>>) returns (ok: bool)
    requires Fits(dots, entries, files) && img.Valid() && |img.blocks| == SIZE && Files(img.inodes, img.blocks)
    requires Holding(img.inodes, img.blocks, dots, entries, files, 0) && img.freeblock == Used(files, 0)
    modifies img
    ensures img.Valid() && |img.blocks| == SIZE
    ensures ok <==> Used(files, |files|) <= SIZE
    ensures ok ==> Files(img.inodes, img.blocks) && img.freeblock == Used(files, |files|)
    ensures ok ==> Holding(img.inodes, img.blocks, dots, entries, files, |files|)
  {
    for n := 0 to |files|
      invariant img.Valid() && |img.blocks| == SIZE && Files(img.inodes, img.blocks)
      invariant Holding(img.inodes, img.blocks, dots, entries, files, n) && img.freeblock == Used(files, n)
    {
      UsedNext(files, entries, n);
      UsedMore(files, entries, n + 1);
      ghost var inodes, blocks := img.inodes, img.blocks;
      ok := AddFile(img, 2 + n, entries[n], files[n]);
      if !ok {
        return;
      }
      HoldingNext(inodes, blocks, img.inodes, img.blocks, dots, entries, files, n);
    }
    return true;
  }

  /** An image, before the root directory's size is rounded up: the root
      directory holds the entries and each inode behind it a file. */
  method Fill(dots: seq<byte>, entries: seq<seq<byte>>, files: seq<seq<byte>>) returns (img: Image, ok: bool)
    requires Fits(dots, entries, files)
    ensures fresh(img) && img.Valid() && |img.blocks| == SIZE && img.meta == META
    ensures ok <==> Used(files, |files|) <= SIZE
    ensures ok ==> Files(img.inodes, img.blocks) && img.freeblock == Used(files, |files|)
    ensures ok ==> Holding(img.inodes, img.blocks, dots, entries, files, |files|)
  {
    img := new Image(SIZE, META, NINODES);
    img.Ialloc(1, 1);
    assert Content(img.inodes[1], img.blocks) == [];
    ok := img.Iappend(1, dots);
    ok := AddFiles(img, dots, entries, files);
  }

  /** main (mkfs.c:90-158): it fits exactly when the blocks of the files and of
      the root directory do.  The root directory then has a hole exactly when its
      entries fill its last block. */
  method Build(dots: seq<byte>, entries: seq<seq<byte>>, files: seq<seq<byte>>) returns (img: Image, ok: bool)
    requires Fits(dots, entries, files)
    ensures fresh(img) && img.Valid() && |img.blocks| == SIZE && img.meta == META
    ensures ok <==> Used(files, |files|) <= SIZE
    ensures ok ==> img.freeblock == Used(files, |files|) && |img.inodes| == NINODES && img.inodes[1].kind == 1
    ensures ok ==> img.inodes[1].size == RoundedUp(DOTS + ENTRY * |files|)
    ensures ok ==> Content(img.inodes[1], img.blocks) ==
                   dots + Flat(entries) + seq(img.inodes[1].size - (DOTS + ENTRY * |files|), _ => 0)
    ensures ok ==> forall j :: 2 <= j < 2 + |files| ==>
              img.inodes[j].kind == 2 && Content(img.inodes[j], img.blocks) == files[j - 2]
    ensures ok ==> (NoHoles(img.inodes[1], img.blocks) <==> |files| % 32 != 30)
    ensures ok && |files| % 32 == 30 ==>
              && img.inodes[1].addrs[(|files| + 2) / 32] == 0
              && img.inodes[1].size == DOTS + ENTRY * |files| + BSIZE
  {
    img, ok := Fill(dots, entries, files);
    if ok {
      assert entries[..|entries|] == entries;
      assert Tight(img.inodes[1], img.blocks);
      RootHoleAt(img.inodes[1], img.blocks, |files|);
      img.RoundRoot(1);
    }
  }

  lemma RootHoleAt(ino: Inode, blocks: seq<Block>, n: nat)
    requires |ino.addrs| == NDIRECT + 1 && Tight(ino, blocks) && ino.size == DOTS + ENTRY * n && n <= NINODES - 2
    ensures ino.size % BSIZE == 0 <==> n % 32 == 30
    ensures n % 32 == 30 ==> ino.addrs[(n + 2) / 32] == 0 && RoundedUp(ino.size) == ino.size + BSIZE
  {
    var bn := (n + 2) / 32;
    if n % 32 == 30 {
      assert bn * BSIZE == ino.size && Ref(ino, blocks, bn) == 0;
    }
  }

  /** The first block the kernel allocates on an image mkfs has made is a block
      of the log exactly when the files reach up to it. */
  method FirstOf(dots: seq<byte>, entries: seq<seq<byte>>, files: seq<seq<byte>>) returns (b: nat)
    requires Fits(dots, entries, files) && Used(files, |files|) <= SIZE
    ensures b == if Used(files, |files|) < SIZE then Used(files, |files|) else 0
    ensures b >= LOGSTART <==> LOGSTART <= Used(files, |files|) < SIZE
  {
    var img, ok := Build(dots, entries, files);
    b := FirstAllocation(img, BSIZE, LOGSTART);
  }

  /** Seven files that fill the data area, six of them as long as a file can be. */
  lemma SevenFiles(files: seq<seq<byte>>)
    requires |files| == 7 && |files[6]| == 117 * BSIZE && forall k :: 0 <= k < 6 ==> |files[k]| == MAXFILE * BSIZE
    ensures Used(files, 7) == LOGSTART
  {
    for n := 0 to 6
      invariant Total(files[..n]) == n * (MAXFILE + 1)
    {
      assert files[..n + 1][..n] == files[..n];
    }
    assert files[..7][..6] == files[..6];
  }

  /** So it does happen. */
  method LogGivenAway(dots: seq<byte>, entries: seq<seq<byte>>, files: seq<seq<byte>>) returns (b: nat)
    requires Fits(dots, entries, files) && |files| == 7
    requires |files[6]| == 117 * BSIZE && forall k :: 0 <= k < 6 ==> |files[k]| == MAXFILE * BSIZE
    ensures b == LOGSTART
  {
    SevenFiles(files);
    b := FirstOf(dots, entries, files);
  }

  lemma NoBlocks(files: seq<seq<byte>>)
    requires forall k :: 0 <= k < |files| ==> files[k] == []
    ensures Total(files) == 0
  {
    if files != [] {
      NoBlocks(files[..|files| - 1]);
    }
  }

  /** Thirty files without a byte leave all blocks but the root directory's. */
  lemma ThirtyFiles(files: seq<seq<byte>>)
    requires |files| == 30 && forall k :: 0 <= k < |files| ==> files[k] == []
    ensures Used(files, |files|) == META + 1
  {
    assert files[..|files|] == files;
    NoBlocks(files);
  }

  /** And so does the hole in the root directory, with entries that fill a block,
      as those of thirty files do. */
  method RootHole(dots: seq<byte>, entries: seq<seq<byte>>, files: seq<seq<byte>>) returns (fs: FileSystem)
    requires Fits(dots, entries, files) && |files| % 32 == 30 && Used(files, |files|) < SIZE
    ensures fresh(fs) && fs.Valid() && 1 < |fs.inodes| && fs.dinodes == fs.inodes && fs.inodes[1].kind == 1
    ensures fs.inodes[1].size == DOTS + ENTRY * |files| + BSIZE && fs.inodes[1].addrs[(|files| + 2) / 32] == 0
    ensures !NoHoles(fs.inodes[1], fs.blocks)
    ensures Content(fs.inodes[1], fs.blocks) == dots + Flat(entries) + seq(BSIZE, _ => 0)
    ensures Used(files, |files|) < |fs.blocks| && !Bits(fs.bitmap)[Used(files, |files|)]
  {
    var img, ok := Build(dots, entries, files);
    fs := Mount(img, BSIZE);
  }

  /** Then an entry written into the hole does not reach the disk: its block is
      in the inode in memory only. */
  method EntryLost(dots: seq<byte>, entries: seq<seq<byte>>, files: seq<seq<byte>>, entry: seq<byte>)
    returns (fs: FileSystem)
    requires Fits(dots, entries, files) && |files| % 32 == 30 && Used(files, |files|) < SIZE && |entry| == ENTRY
    ensures fresh(fs) && fs.Valid() && 1 < |fs.inodes| == |fs.dinodes| && |fs.dinodes[1].addrs| == NDIRECT + 1
    ensures fs.inodes[1].addrs[(|files| + 2) / 32] != 0 && fs.dinodes[1].addrs[(|files| + 2) / 32] == 0
    ensures fs.dinodes[1].size == fs.inodes[1].size
    ensures Content(fs.inodes[1], fs.blocks) ==
            Overwrite(dots + Flat(entries) + seq(BSIZE, _ => 0), |dots + Flat(entries)|, entry)
  {
    fs := RootHole(dots, entries, files);
    var r := fs.Writei(1, DOTS + ENTRY * |files|, entry);
    assert r.Wrote? && Ref(fs.inodes[1], fs.blocks, (|files| + 2) / 32) != 0;
  }
}

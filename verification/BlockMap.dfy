/** Inodes, their direct and indirect blocks and the bitmap (fs.h, fs.c), as
    values: a file is a flat byte sequence, and every block has one owner. */
module BlockMap {
  import opened Common

  const BSIZE: nat := 512
  const NDIRECT: nat := 12
  const NINDIRECT: nat := 128
  const MAXFILE: nat := 140
  /** The pseudo-slot of the pointer to the indirect block. */
  const INDIRECT: nat := 140
  /** Bitmap bits per block. */
  const BPB: nat := 8 * BSIZE

  type Block = b: seq<byte> | |b| == BSIZE witness seq(BSIZE, _ => 0)

  /** struct dinode, and the fields struct inode copies from it. */
  datatype Inode = Inode(kind: int, major: int, minor: int, nlink: int, size: nat, addrs: seq<nat>)

  // ---- words in a block ----------------------------------------------------

  /** The i-th 32-bit word of a block, little endian. */
  function WordAt(b: Block, i: nat): nat
    requires i < NINDIRECT
  {
    var b0: int, b1: int, b2: int, b3: int := b[4 * i], b[4 * i + 1], b[4 * i + 2], b[4 * i + 3];
    b0 + 0x100 * b1 + 0x1_0000 * b2 + 0x100_0000 * b3
  }

  function WithWord(b: Block, i: nat, v: nat): Block
    requires i < NINDIRECT && v < UINT_MOD
  {
    b[4 * i := v % 0x100][4 * i + 1 := v / 0x100 % 0x100][4 * i + 2 := v / 0x1_0000 % 0x100]
        [4 * i + 3 := v / 0x100_0000]
  }

  lemma WordRoundTrip(b: Block, i: nat, v: nat, j: nat)
    requires i < NINDIRECT && v < UINT_MOD && j < NINDIRECT
    ensures WordAt(WithWord(b, i, v), j) == if j == i then v else WordAt(b, j)
  {
    if j == i {
      LittleEndian(v);
    }
  }

  /** The byte of least weight comes first, as in the words mkfs writes. */
  lemma WordBytes(b: Block)
    ensures WithWord(b, 0, 0x0403_0201)[..4] == [1, 2, 3, 4]
  {
  }

  lemma LittleEndian(v: nat)
    ensures v == v % 0x100 + 0x100 * (v / 0x100 % 0x100) + 0x1_0000 * (v / 0x1_0000 % 0x100)
                 + 0x100_0000 * (v / 0x100_0000)
  {
    assert v / 0x100 == v / 0x100 % 0x100 + 0x100 * (v / 0x1_0000);
    assert v / 0x1_0000 == v / 0x1_0000 % 0x100 + 0x100 * (v / 0x100_0000);
  }

  function Zeros(): (b: Block)
    ensures forall i :: 0 <= i < NINDIRECT ==> WordAt(b, i) == 0
  {
    seq(BSIZE, _ => 0)
  }

  // ---- the bitmap ----------------------------------------------------------

  function Mask(k: nat): bv8
    requires k < 8
  {
    if k == 0 then 0x01 else if k == 1 then 0x02 else if k == 2 then 0x04 else if k == 3 then 0x08
    else if k == 4 then 0x10 else if k == 5 then 0x20 else if k == 6 then 0x40 else 0x80
  }

  /** The bit of least weight is for the first block of a byte. */
  lemma MaskValues(k: nat)
    requires k < 8
    ensures Mask(k) == 1 << k
  {
  }

  predicate TestBit(x: bv8, k: nat)
    requires k < 8
  {
    x & Mask(k) != 0
  }

  function SetBit(x: bv8, k: nat): (y: bv8)
    requires k < 8
    ensures forall j :: 0 <= j < 8 ==> (TestBit(y, j) <==> j == k || TestBit(x, j))
  {
    x | Mask(k)
  }

  function ClearBit(x: bv8, k: nat): (y: bv8)
    requires k < 8
    ensures forall j :: 0 <= j < 8 ==> (TestBit(y, j) <==> j != k && TestBit(x, j))
  {
    x & !Mask(k)
  }

  /** Is block b marked in use?  The bitmap blocks are taken together, so byte
      b / 8 is byte (b % BPB) / 8 of bitmap block b / BPB. */
  predicate Bit(bitmap: seq<bv8>, b: nat)
    requires b < 8 * |bitmap|
  {
    TestBit(bitmap[b / 8], b % 8)
  }

  /** The marked blocks, block by block. */
  function Bits(bitmap: seq<bv8>): (bits: seq<bool>)
    ensures |bits| == 8 * |bitmap|
  {
    seq(8 * |bitmap|, b requires 0 <= b < 8 * |bitmap| => Bit(bitmap, b))
  }

  lemma OneByte(bitmap: seq<bv8>, i: nat, k: nat, x: bv8, v: bool)
    requires i < |bitmap| && k < 8
    requires forall j :: 0 <= j < 8 ==> (TestBit(x, j) <==> if j == k then v else TestBit(bitmap[i], j))
    ensures Bits(bitmap[i := x]) == Bits(bitmap)[8 * i + k := v]
  {
    var after, want := Bits(bitmap[i := x]), Bits(bitmap)[8 * i + k := v];
    forall c | 0 <= c < |after| ensures after[c] == want[c] {
      assert 0 <= c % 8 < 8;
      if c / 8 == i {
        assert c == 8 * i + c % 8;
      }
    }
  }

  // ---- what an inode refers to ---------------------------------------------

  /** The block number in slot s of an inode: direct, through the indirect
      block, or the indirect block itself.  0 means none. */
  function Ref(ino: Inode, blocks: seq<Block>, s: nat): nat
    requires |ino.addrs| == NDIRECT + 1 && s <= INDIRECT
  {
    if s < NDIRECT then ino.addrs[s]
    else if s == INDIRECT then ino.addrs[NDIRECT]
    else if 0 < ino.addrs[NDIRECT] < |blocks| then WordAt(blocks[ino.addrs[NDIRECT]], s - NDIRECT)
    else 0
  }

  /** Byte k of an inode's data; a slot without a block reads as zeros. */
  function ByteAt(ino: Inode, blocks: seq<Block>, k: nat): byte
    requires |ino.addrs| == NDIRECT + 1 && k < MAXFILE * BSIZE
  {
    var r := Ref(ino, blocks, k / BSIZE);
    if 0 < r < |blocks| then blocks[r][k % BSIZE] else 0
  }

  /** All the bytes an inode can reach, whatever its size says. */
  function Bytes(ino: Inode, blocks: seq<Block>): (data: seq<byte>)
    requires |ino.addrs| == NDIRECT + 1
    ensures |data| == MAXFILE * BSIZE
  {
    seq(MAXFILE * BSIZE, k requires 0 <= k < MAXFILE * BSIZE => ByteAt(ino, blocks, k))
  }

  /** The file: the bytes below its size. */
  function Content(ino: Inode, blocks: seq<Block>): seq<byte>
    requires |ino.addrs| == NDIRECT + 1 && ino.size <= MAXFILE * BSIZE
  {
    Bytes(ino, blocks)[..ino.size]
  }

  /** Every block below the size is there. */
  ghost predicate NoHoles(ino: Inode, blocks: seq<Block>)
    requires |ino.addrs| == NDIRECT + 1
  {
    ino.size <= MAXFILE * BSIZE && forall bn :: 0 <= bn < MAXFILE && bn * BSIZE < ino.size ==> Ref(ino, blocks, bn) != 0
  }

  // ---- one owner per block --------------------------------------------------

  type Owner = map<nat, (nat, nat)>

  ghost predicate WellFormed(inodes: seq<Inode>) {
    forall i :: 0 <= i < |inodes| ==> |inodes[i].addrs| == NDIRECT + 1 && inodes[i].size <= MAXFILE * BSIZE
  }

  /** What slot s of inode i refers to is owned by exactly that slot. */
  ghost predicate RefOwned(inodes: seq<Inode>, blocks: seq<Block>, owner: Owner, i: nat, s: nat)
    requires i < |inodes| && s <= INDIRECT && |inodes[i].addrs| == NDIRECT + 1
  {
    var r := Ref(inodes[i], blocks, s);
    r != 0 ==> r in owner && owner[r] == (i, s)
  }

  /** The owner of block b does refer to it. */
  ghost predicate OwnerRefers(inodes: seq<Inode>, blocks: seq<Block>, owner: Owner, b: nat)
    requires WellFormed(inodes) && b in owner
  {
    var (i, s) := owner[b];
    0 < b < |blocks| && i < |inodes| && s <= INDIRECT && Ref(inodes[i], blocks, s) == b
  }

  ghost predicate Owned(inodes: seq<Inode>, blocks: seq<Block>, owner: Owner) {
    && WellFormed(inodes)
    && (forall i, s :: 0 <= i < |inodes| && 0 <= s <= INDIRECT ==> RefOwned(inodes, blocks, owner, i, s))
    && (forall b :: b in owner ==> OwnerRefers(inodes, blocks, owner, b))
  }

  /** The bitmap marks exactly the reserved and the owned blocks. */
  ghost predicate Marked(bits: seq<bool>, n: nat, reserved: set<nat>, owner: Owner) {
    && n <= |bits| && 0 in reserved && owner.Keys !! reserved
    && (forall b :: 0 <= b < n ==> (bits[b] <==> b in reserved || b in owner))
  }

  /** So no two slots share a block: not two of one file, nor of two files. */
  lemma NoSharing(inodes: seq<Inode>, blocks: seq<Block>, owner: Owner, i: nat, s: nat, j: nat, t: nat)
    requires Owned(inodes, blocks, owner) && i < |inodes| && j < |inodes| && s <= INDIRECT && t <= INDIRECT
    requires Ref(inodes[i], blocks, s) == Ref(inodes[j], blocks, t) != 0
    ensures i == j && s == t
  {
    assert RefOwned(inodes, blocks, owner, i, s) && RefOwned(inodes, blocks, owner, j, t);
  }

  /** Where two states refer to blocks alike, except that slot s of inode i has
      gained a block nobody owned. */
  ghost predicate Gained(inodes: seq<Inode>, blocks: seq<Block>, inodes': seq<Inode>, blocks': seq<Block>,
                         i: nat, s: nat, b: nat) {
    && WellFormed(inodes) && WellFormed(inodes') && |inodes'| == |inodes|
    && |blocks'| == |blocks| && i < |inodes| && s <= INDIRECT
    && Ref(inodes[i], blocks, s) == 0 && 0 < b < |blocks|
    && (forall j, t :: 0 <= j < |inodes| && 0 <= t <= INDIRECT ==>
          SameRefBut(inodes, blocks, inodes', blocks', j, t, i, s, b))
  }

  ghost predicate SameRefBut(inodes: seq<Inode>, blocks: seq<Block>, inodes': seq<Inode>, blocks': seq<Block>,
                             j: nat, t: nat, i: nat, s: nat, b: nat)
    requires j < |inodes| == |inodes'| && t <= INDIRECT && WellFormed(inodes) && WellFormed(inodes')
  {
    Ref(inodes'[j], blocks', t) == if j == i && t == s then b else Ref(inodes[j], blocks, t)
  }

  lemma GainedOwned(inodes: seq<Inode>, blocks: seq<Block>, owner: Owner, inodes': seq<Inode>, blocks': seq<Block>,
                    i: nat, s: nat, b: nat)
    requires Owned(inodes, blocks, owner) && Gained(inodes, blocks, inodes', blocks', i, s, b) && b !in owner
    ensures Owned(inodes', blocks', owner[b := (i, s)])
  {
    var owner' := owner[b := (i, s)];
    forall j, t | 0 <= j < |inodes'| && 0 <= t <= INDIRECT ensures RefOwned(inodes', blocks', owner', j, t) {
      assert RefOwned(inodes, blocks, owner, j, t) && SameRefBut(inodes, blocks, inodes', blocks', j, t, i, s, b);
    }
    forall x | x in owner' ensures OwnerRefers(inodes', blocks', owner', x) {
      if x == b {
        assert SameRefBut(inodes, blocks, inodes', blocks', i, s, i, s, b);
      } else {
        assert OwnerRefers(inodes, blocks, owner, x);
        var (j, t) := owner[x];
        assert SameRefBut(inodes, blocks, inodes', blocks', j, t, i, s, b);
      }
    }
  }

  /** Blocks holding data are untouched. */
  ghost predicate DataSame(blocks: seq<Block>, blocks': seq<Block>, owner: Owner) {
    |blocks'| == |blocks| &&
    forall b :: b in owner && owner[b].1 != INDIRECT && b < |blocks| ==> blocks'[b] == blocks[b]
  }

  /** So are the blocks holding block numbers. */
  ghost predicate PointersSame(blocks: seq<Block>, blocks': seq<Block>, owner: Owner) {
    |blocks'| == |blocks| &&
    forall b :: b in owner && owner[b].1 == INDIRECT && b < |blocks| ==> blocks'[b] == blocks[b]
  }

  lemma RefFrame(inodes: seq<Inode>, blocks: seq<Block>, owner: Owner, blocks': seq<Block>, j: nat, t: nat)
    requires Owned(inodes, blocks, owner) && PointersSame(blocks, blocks', owner) && j < |inodes| && t <= INDIRECT
    ensures Ref(inodes[j], blocks', t) == Ref(inodes[j], blocks, t)
  {
    assert RefOwned(inodes, blocks, owner, j, INDIRECT);
  }

  /** Storing into a data block, or into a block nobody owns, moves no pointer. */
  lemma OwnedFrame(inodes: seq<Inode>, blocks: seq<Block>, owner: Owner, blocks': seq<Block>)
    requires Owned(inodes, blocks, owner) && PointersSame(blocks, blocks', owner)
    ensures Owned(inodes, blocks', owner)
  {
    forall j, t | 0 <= j < |inodes| && 0 <= t <= INDIRECT ensures RefOwned(inodes, blocks', owner, j, t) {
      RefFrame(inodes, blocks, owner, blocks', j, t);
      assert RefOwned(inodes, blocks, owner, j, t);
    }
    forall b | b in owner ensures OwnerRefers(inodes, blocks', owner, b) {
      assert OwnerRefers(inodes, blocks, owner, b);
      RefFrame(inodes, blocks, owner, blocks', owner[b].0, owner[b].1);
    }
  }

  /** A byte of another slot, or of a slot that has just gained a zeroed block,
      reads as before. */
  lemma GainedByte(inodes: seq<Inode>, blocks: seq<Block>, owner: Owner, inodes': seq<Inode>, blocks': seq<Block>,
                   i: nat, s: nat, b: nat, j: nat, k: nat)
    requires Owned(inodes, blocks, owner) && Gained(inodes, blocks, inodes', blocks', i, s, b) && b !in owner
    requires DataSame(blocks, blocks', owner) && (s != INDIRECT ==> forall m :: 0 <= m < BSIZE ==> blocks'[b][m] == 0)
    requires j < |inodes| && k < MAXFILE * BSIZE
    ensures ByteAt(inodes'[j], blocks', k) == ByteAt(inodes[j], blocks, k)
  {
    var t := k / BSIZE;
    assert SameRefBut(inodes, blocks, inodes', blocks', j, t, i, s, b);
    assert RefOwned(inodes, blocks, owner, j, t);
    var r := Ref(inodes[j], blocks, t);
    if r != 0 {
      assert OwnerRefers(inodes, blocks, owner, r);
    }
  }

  lemma GainedBytes(inodes: seq<Inode>, blocks: seq<Block>, owner: Owner, inodes': seq<Inode>, blocks': seq<Block>,
                    i: nat, s: nat, b: nat, j: nat)
    requires Owned(inodes, blocks, owner) && Gained(inodes, blocks, inodes', blocks', i, s, b) && b !in owner
    requires DataSame(blocks, blocks', owner) && (s != INDIRECT ==> forall m :: 0 <= m < BSIZE ==> blocks'[b][m] == 0)
    requires j < |inodes|
    ensures Bytes(inodes'[j], blocks') == Bytes(inodes[j], blocks)
  {
    forall k | 0 <= k < MAXFILE * BSIZE ensures ByteAt(inodes'[j], blocks', k) == ByteAt(inodes[j], blocks, k) {
      GainedByte(inodes, blocks, owner, inodes', blocks', i, s, b, j, k);
    }
  }

  // ---- the three ways bmap hands out a block --------------------------------

  function WithAddr(inodes: seq<Inode>, i: nat, s: nat, b: nat): seq<Inode>
    requires i < |inodes| && s < |inodes[i].addrs|
  {
    inodes[i := inodes[i].(addrs := inodes[i].addrs[s := b])]
  }

  /** A direct slot (fs.c:366-367), or the indirect pointer itself
      (fs.c:374-375): the new block is zeroed. */
  lemma GainPointer(inodes: seq<Inode>, blocks: seq<Block>, owner: Owner, i: nat, a: nat, b: nat)
    requires Owned(inodes, blocks, owner) && i < |inodes| && a <= NDIRECT && inodes[i].addrs[a] == 0
    requires 0 < b < |blocks| && b !in owner
    ensures var s := if a < NDIRECT then a else INDIRECT;
            Gained(inodes, blocks, WithAddr(inodes, i, a, b), blocks[b := Zeros()], i, s, b)
  {
    var s := if a < NDIRECT then a else INDIRECT;
    var inodes', blocks' := WithAddr(inodes, i, a, b), blocks[b := Zeros()];
    forall j, t | 0 <= j < |inodes| && 0 <= t <= INDIRECT
      ensures SameRefBut(inodes, blocks, inodes', blocks', j, t, i, s, b)
    {
      RefFrame(inodes, blocks, owner, blocks', j, t);
    }
  }

  /** A word of the indirect block (fs.c:378-380). */
  lemma GainWord(inodes: seq<Inode>, blocks: seq<Block>, owner: Owner, i: nat, s: nat, b: nat)
    requires Owned(inodes, blocks, owner) && i < |inodes| && NDIRECT <= s < MAXFILE && Ref(inodes[i], blocks, s) == 0
    requires 0 < inodes[i].addrs[NDIRECT] < |blocks| && 0 < b < |blocks| <= UINT_MOD && b !in owner
    ensures var ind := inodes[i].addrs[NDIRECT];
            ind != b &&
            Gained(inodes, blocks, inodes, blocks[b := Zeros()][ind := WithWord(blocks[ind], s - NDIRECT, b)], i, s, b)
  {
    var ind := inodes[i].addrs[NDIRECT];
    assert RefOwned(inodes, blocks, owner, i, INDIRECT);
    var blocks' := blocks[b := Zeros()][ind := WithWord(blocks[ind], s - NDIRECT, b)];
    forall j, t | 0 <= j < |inodes| && 0 <= t <= INDIRECT
      ensures SameRefBut(inodes, blocks, inodes, blocks', j, t, i, s, b)
    {
      assert RefOwned(inodes, blocks, owner, j, INDIRECT);
      if j == i && NDIRECT <= t < MAXFILE {
        WordRoundTrip(blocks[ind], s - NDIRECT, b, t - NDIRECT);
      }
    }
  }

  // ---- storing bytes ---------------------------------------------------------

  /** data with src in place of the bytes from off on. */
  function Splice<T>(data: seq<T>, off: nat, src: seq<T>): (r: seq<T>)
    requires off + |src| <= |data|
    ensures |r| == |data|
    ensures forall k :: 0 <= k < |r| ==> r[k] == if off <= k < off + |src| then src[k - off] else data[k]
  {
    data[..off] + src + data[off + |src|..]
  }

  /** Bytes stored in the block of slot bn show up at bn * BSIZE of that file and
      nowhere else. */
  lemma StoreBytes(inodes: seq<Inode>, blocks: seq<Block>, owner: Owner, i: nat, bn: nat, o: nat, piece: seq<byte>)
    requires Owned(inodes, blocks, owner) && i < |inodes| && bn < MAXFILE && Ref(inodes[i], blocks, bn) != 0
    requires o + |piece| <= BSIZE
    ensures Ref(inodes[i], blocks, bn) < |blocks|
    ensures var r := Ref(inodes[i], blocks, bn);
            var blocks' := blocks[r := Splice(blocks[r], o, piece)];
            PointersSame(blocks, blocks', owner) &&
            (forall j :: 0 <= j < |inodes| && j != i ==> Bytes(inodes[j], blocks') == Bytes(inodes[j], blocks)) &&
            Bytes(inodes[i], blocks') == Splice(Bytes(inodes[i], blocks), bn * BSIZE + o, piece)
  {
    var r := Ref(inodes[i], blocks, bn);
    assert RefOwned(inodes, blocks, owner, i, bn);
    assert OwnerRefers(inodes, blocks, owner, r);
    var blocks' := blocks[r := Splice(blocks[r], o, piece)];
    forall j, k | 0 <= j < |inodes| && 0 <= k < MAXFILE * BSIZE
      ensures ByteAt(inodes[j], blocks', k) ==
              if j == i && bn * BSIZE + o <= k < bn * BSIZE + o + |piece| then piece[k - bn * BSIZE - o]
              else ByteAt(inodes[j], blocks, k)
    {
      StoreByte(inodes, blocks, owner, i, bn, o, piece, j, k);
    }
    assert Bytes(inodes[i], blocks') == Splice(Bytes(inodes[i], blocks), bn * BSIZE + o, piece);
    forall j | 0 <= j < |inodes| && j != i ensures Bytes(inodes[j], blocks') == Bytes(inodes[j], blocks) {
    }
  }

  lemma StoreByte(inodes: seq<Inode>, blocks: seq<Block>, owner: Owner, i: nat, bn: nat, o: nat, piece: seq<byte>,
                  j: nat, k: nat)
    requires Owned(inodes, blocks, owner) && i < |inodes| && bn < MAXFILE && 0 < Ref(inodes[i], blocks, bn) < |blocks|
    requires o + |piece| <= BSIZE && j < |inodes| && k < MAXFILE * BSIZE
    ensures var r := Ref(inodes[i], blocks, bn);
            ByteAt(inodes[j], blocks[r := Splice(blocks[r], o, piece)], k) ==
            if j == i && bn * BSIZE + o <= k < bn * BSIZE + o + |piece| then piece[k - bn * BSIZE - o]
            else ByteAt(inodes[j], blocks, k)
  {
    var r, t := Ref(inodes[i], blocks, bn), k / BSIZE;
    var blocks' := blocks[r := Splice(blocks[r], o, piece)];
    assert RefOwned(inodes, blocks, owner, i, bn) && RefOwned(inodes, blocks, owner, j, t);
    RefFrame(inodes, blocks, owner, blocks', j, t);
    assert k == t * BSIZE + k % BSIZE;
    if j == i && t == bn {
    } else {
      assert Ref(inodes[j], blocks, t) != r;
      assert !(j == i && bn * BSIZE + o <= k < bn * BSIZE + o + |piece|);
    }
  }

  /** Refs only come into being, and only the two that bmap may fill. */
  ghost predicate RefsGrow(inodes: seq<Inode>, blocks: seq<Block>, inodes': seq<Inode>, blocks': seq<Block>, i: nat,
                           bn: nat)
  {
    && WellFormed(inodes) && WellFormed(inodes') && |inodes'| == |inodes| && |blocks'| == |blocks|
    && forall j, t :: 0 <= j < |inodes| && 0 <= t <= INDIRECT ==>
         RefGrows(inodes, blocks, inodes', blocks', i, bn, j, t)
  }

  ghost predicate RefGrows(inodes: seq<Inode>, blocks: seq<Block>, inodes': seq<Inode>, blocks': seq<Block>,
                           i: nat, bn: nat, j: nat, t: nat)
    requires WellFormed(inodes) && WellFormed(inodes') && j < |inodes| == |inodes'| && t <= INDIRECT
  {
    Ref(inodes'[j], blocks', t) == Ref(inodes[j], blocks, t) ||
    (Ref(inodes[j], blocks, t) == 0 && j == i && (t == bn || t == INDIRECT))
  }

  lemma RefInRange(inodes: seq<Inode>, blocks: seq<Block>, owner: Owner, i: nat, s: nat)
    requires Owned(inodes, blocks, owner) && i < |inodes| && s <= INDIRECT
    ensures Ref(inodes[i], blocks, s) != 0 ==> Ref(inodes[i], blocks, s) < |blocks|
  {
    assert RefOwned(inodes, blocks, owner, i, s);
    if Ref(inodes[i], blocks, s) != 0 {
      assert OwnerRefers(inodes, blocks, owner, Ref(inodes[i], blocks, s));
    }
  }

  lemma RefsStay(inodes: seq<Inode>, blocks: seq<Block>, i: nat, bn: nat)
    requires WellFormed(inodes)
    ensures RefsGrow(inodes, blocks, inodes, blocks, i, bn)
  {
  }

  lemma GainedGrows(inodes: seq<Inode>, blocks: seq<Block>, inodes': seq<Inode>, blocks': seq<Block>, i: nat, s: nat,
                    b: nat, bn: nat)
    requires Gained(inodes, blocks, inodes', blocks', i, s, b) && (s == bn || s == INDIRECT)
    ensures RefsGrow(inodes, blocks, inodes', blocks', i, bn) && Ref(inodes'[i], blocks', s) == b
  {
    forall j, t | 0 <= j < |inodes| && 0 <= t <= INDIRECT
      ensures RefGrows(inodes, blocks, inodes', blocks', i, bn, j, t)
    {
      assert SameRefBut(inodes, blocks, inodes', blocks', j, t, i, s, b);
    }
    assert SameRefBut(inodes, blocks, inodes', blocks', i, s, i, s, b);
  }

  lemma GrowsTwice(inodes: seq<Inode>, blocks: seq<Block>, inodes1: seq<Inode>, blocks1: seq<Block>,
                   inodes2: seq<Inode>, blocks2: seq<Block>, i: nat, bn: nat)
    requires RefsGrow(inodes, blocks, inodes1, blocks1, i, bn) && RefsGrow(inodes1, blocks1, inodes2, blocks2, i, bn)
    ensures RefsGrow(inodes, blocks, inodes2, blocks2, i, bn)
  {
    forall j, t | 0 <= j < |inodes| && 0 <= t <= INDIRECT
      ensures RefGrows(inodes, blocks, inodes2, blocks2, i, bn, j, t)
    {
      assert RefGrows(inodes, blocks, inodes1, blocks1, i, bn, j, t);
      assert RefGrows(inodes1, blocks1, inodes2, blocks2, i, bn, j, t);
    }
  }

  lemma RefsFrame(inodes: seq<Inode>, blocks: seq<Block>, inodes1: seq<Inode>, blocks1: seq<Block>, owner: Owner,
                  blocks2: seq<Block>, i: nat, bn: nat)
    requires RefsGrow(inodes, blocks, inodes1, blocks1, i, bn)
    requires Owned(inodes1, blocks1, owner) && PointersSame(blocks1, blocks2, owner)
    ensures RefsGrow(inodes, blocks, inodes1, blocks2, i, bn)
  {
    forall j, t | 0 <= j < |inodes| && 0 <= t <= INDIRECT
      ensures RefGrows(inodes, blocks, inodes1, blocks2, i, bn, j, t)
    {
      assert RefGrows(inodes, blocks, inodes1, blocks1, i, bn, j, t);
      RefFrame(inodes1, blocks1, owner, blocks2, j, t);
    }
  }

  /** Everything about the inodes but their block pointers. */
  ghost predicate SameMeta(inodes: seq<Inode>, inodes': seq<Inode>, i: nat) {
    |inodes'| == |inodes| && i < |inodes| && inodes' == inodes[i := inodes[i].(addrs := inodes'[i].addrs)]
  }

  ghost predicate SameBytes(inodes: seq<Inode>, blocks: seq<Block>, inodes': seq<Inode>, blocks': seq<Block>)
    requires WellFormed(inodes) && WellFormed(inodes')
  {
    |inodes'| == |inodes| && forall j :: 0 <= j < |inodes| ==> Bytes(inodes'[j], blocks') == Bytes(inodes[j], blocks)
  }

  /** The file after writing src at off, which may make it longer. */
  function Overwrite(data: seq<byte>, off: nat, src: seq<byte>): seq<byte>
    requires off <= |data|
  {
    if off + |src| <= |data| then Splice(data, off, src) else data[..off] + src
  }

  lemma Slices<T>(s: seq<T>, a: nat, b: nat, c: nat)
    requires a <= b <= c <= |s|
    ensures s[a..b] + s[b..c] == s[a..c]
  {
  }

  lemma OverwriteContent(bytes: seq<byte>, size: nat, off: nat, src: seq<byte>)
    requires off <= size <= |bytes| && off + |src| <= |bytes|
    ensures var size' := if off + |src| > size then off + |src| else size;
            Splice(bytes, off, src)[..size'] == Overwrite(bytes[..size], off, src)
  {
  }

  /** An inode after itrunc. */
  function Emptied(ino: Inode): Inode {
    ino.(size := 0, addrs := seq(NDIRECT + 1, _ => 0))
  }

  /** Blocks that the slots below s of inode i own. */
  ghost predicate Freed(owner: Owner, i: nat, s: nat, b: nat) {
    b in owner && owner[b].0 == i && owner[b].1 < s
  }

  ghost predicate Freeing(bits: seq<bool>, bits0: seq<bool>, n: nat, owner: Owner, i: nat, s: nat) {
    n <= |bits| && n <= |bits0| && forall b :: 0 <= b < n ==> (bits[b] <==> bits0[b] && !Freed(owner, i, s, b))
  }

  lemma FreedNext(inodes: seq<Inode>, blocks: seq<Block>, owner: Owner, i: nat, s: nat)
    requires Owned(inodes, blocks, owner) && i < |inodes| && s <= INDIRECT
    ensures var r := Ref(inodes[i], blocks, s);
            forall b :: Freed(owner, i, s + 1, b) <==> Freed(owner, i, s, b) || (r != 0 && b == r)
  {
    var r := Ref(inodes[i], blocks, s);
    assert RefOwned(inodes, blocks, owner, i, s);
    forall b ensures Freed(owner, i, s + 1, b) <==> Freed(owner, i, s, b) || (r != 0 && b == r) {
      if b in owner {
        assert OwnerRefers(inodes, blocks, owner, b);
      }
    }
  }

  lemma NothingIndirect(inodes: seq<Inode>, blocks: seq<Block>, owner: Owner, i: nat)
    requires Owned(inodes, blocks, owner) && i < |inodes| && inodes[i].addrs[NDIRECT] == 0
    ensures forall b :: Freed(owner, i, INDIRECT + 1, b) <==> Freed(owner, i, NDIRECT, b)
  {
    forall b | Freed(owner, i, INDIRECT + 1, b) ensures Freed(owner, i, NDIRECT, b) {
      assert OwnerRefers(inodes, blocks, owner, b);
    }
  }

  ghost function OwnerWithout(owner: Owner, i: nat): Owner {
    map b | b in owner && owner[b].0 != i :: owner[b]
  }

  lemma EmptiedMarked(inodes: seq<Inode>, blocks: seq<Block>, bits: seq<bool>, bits0: seq<bool>, reserved: set<nat>,
                      owner: Owner, i: nat)
    requires Owned(inodes, blocks, owner) && Marked(bits0, |blocks|, reserved, owner)
    requires Freeing(bits, bits0, |blocks|, owner, i, INDIRECT + 1)
    ensures Marked(bits, |blocks|, reserved, OwnerWithout(owner, i))
    ensures forall b :: 0 <= b < |blocks| ==> (bits[b] <==> bits0[b] && !(b in owner && owner[b].0 == i))
  {
    forall b | b in owner ensures owner[b].1 < INDIRECT + 1 {
      assert OwnerRefers(inodes, blocks, owner, b);
    }
  }

  /** Emptying one inode leaves the ownership of all others. */
  lemma EmptiedOwned(inodes: seq<Inode>, blocks: seq<Block>, owner: Owner, i: nat)
    requires Owned(inodes, blocks, owner) && i < |inodes|
    ensures Owned(inodes[i := Emptied(inodes[i])], blocks, OwnerWithout(owner, i))
    ensures forall j :: 0 <= j < |inodes| && j != i ==>
              Bytes(inodes[i := Emptied(inodes[i])][j], blocks) == Bytes(inodes[j], blocks)
  {
    var inodes', owner' := inodes[i := Emptied(inodes[i])], OwnerWithout(owner, i);
    forall j, t | 0 <= j < |inodes'| && 0 <= t <= INDIRECT ensures RefOwned(inodes', blocks, owner', j, t) {
      assert RefOwned(inodes, blocks, owner, j, t);
    }
    forall b | b in owner' ensures OwnerRefers(inodes', blocks, owner', b) {
      assert OwnerRefers(inodes, blocks, owner, b);
    }
  }

  /** The size says nothing about blocks. */
  lemma ResizeOwned(inodes: seq<Inode>, blocks: seq<Block>, owner: Owner, i: nat, size: nat)
    requires Owned(inodes, blocks, owner) && i < |inodes| && size <= MAXFILE * BSIZE
    ensures var inodes' := inodes[i := inodes[i].(size := size)];
            Owned(inodes', blocks, owner) &&
            forall j :: 0 <= j < |inodes| ==> Bytes(inodes'[j], blocks) == Bytes(inodes[j], blocks)
    ensures var ino' := inodes[i].(size := size);
            forall t :: 0 <= t <= INDIRECT ==> Ref(ino', blocks, t) == Ref(inodes[i], blocks, t)
  {
    var inodes' := inodes[i := inodes[i].(size := size)];
    assert forall t :: 0 <= t <= INDIRECT ==> Ref(inodes'[i], blocks, t) == Ref(inodes[i], blocks, t);
    forall j, t | 0 <= j < |inodes| && 0 <= t <= INDIRECT ensures RefOwned(inodes', blocks, owner, j, t) {
      assert RefOwned(inodes, blocks, owner, j, t);
    }
    forall b | b in owner ensures OwnerRefers(inodes', blocks, owner, b) {
      assert OwnerRefers(inodes, blocks, owner, b);
      var (j, t) := owner[b];
      assert Ref(inodes'[j], blocks, t) == Ref(inodes[j], blocks, t);
    }
    forall j | 0 <= j < |inodes| ensures Bytes(inodes'[j], blocks) == Bytes(inodes[j], blocks) {
      assert forall k :: 0 <= k < MAXFILE * BSIZE ==> ByteAt(inodes'[j], blocks, k) == ByteAt(inodes[j], blocks, k);
    }
  }

  lemma SpliceTwice<T>(data: seq<T>, off: nat, src: seq<T>, tot: nat, m: nat)
    requires tot + m <= |src| && off + |src| <= |data|
    ensures Splice(Splice(data, off, src[..tot]), off + tot, src[tot..tot + m]) == Splice(data, off, src[..tot + m])
  {
  }

  /** A piece of a block is a piece of the file. */
  lemma PieceOfBlock(ino: Inode, blocks: seq<Block>, at: nat, m: nat)
    requires |ino.addrs| == NDIRECT + 1 && at % BSIZE + m <= BSIZE && at + m <= ino.size <= MAXFILE * BSIZE && m > 0
    requires 0 < Ref(ino, blocks, at / BSIZE) < |blocks|
    ensures blocks[Ref(ino, blocks, at / BSIZE)][at % BSIZE..at % BSIZE + m] == Content(ino, blocks)[at..at + m]
  {
    var piece := blocks[Ref(ino, blocks, at / BSIZE)][at % BSIZE..at % BSIZE + m];
    var want := Content(ino, blocks)[at..at + m];
    forall k | 0 <= k < m ensures piece[k] == want[k] {
      assert (at + k) / BSIZE == at / BSIZE && (at + k) % BSIZE == at % BSIZE + k;
      assert want[k] == ByteAt(ino, blocks, at + k);
    }
  }

  /* Filling a run of slots, as reads and writes do block by block. */

  /** The pointer of the inode itself that leads to slot bn. */
  function Pointer(bn: nat): nat {
    Min(bn, NDIRECT)
  }

  predicate PointerThere(ino: Inode, bn: nat)
    requires |ino.addrs| == NDIRECT + 1
  {
    ino.addrs[Pointer(bn)] != 0
  }

  /** One past the last slot that n bytes from off touch. */
  function SlotsEnd(off: nat, n: nat): (e: nat)
    ensures e >= off / BSIZE
  {
    if n == 0 then off / BSIZE else (off + n - 1) / BSIZE + 1
  }

  /** The blocks that n bytes from off touch. */
  function Touched(off: nat, n: nat): nat {
    SlotsEnd(off, n) - off / BSIZE
  }

  ghost predicate Mapped(ino: Inode, blocks: seq<Block>, lo: nat, hi: nat)
    requires |ino.addrs| == NDIRECT + 1 && hi <= MAXFILE
  {
    forall t :: lo <= t < hi ==> Ref(ino, blocks, t) != 0
  }

  ghost predicate PointersThere(ino: Inode, lo: nat, hi: nat)
    requires |ino.addrs| == NDIRECT + 1
  {
    forall t :: lo <= t < hi ==> PointerThere(ino, t)
  }

  /** Pointers only come into being, for slots lo up to hi of inode i, which
      all have their block now.  The inode itself is as it was exactly if its
      own pointers to these slots were there. */
  ghost predicate Filled(inodes: seq<Inode>, blocks: seq<Block>, inodes': seq<Inode>, blocks': seq<Block>, i: nat,
                         lo: nat, hi: nat)
  {
    && WellFormed(inodes) && WellFormed(inodes') && SameMeta(inodes, inodes', i)
    && |blocks'| == |blocks| && lo <= hi <= MAXFILE
    && (forall j, t :: 0 <= j < |inodes| && 0 <= t <= INDIRECT ==>
          FillGrows(inodes, blocks, inodes', blocks', i, lo, hi, j, t))
    && Mapped(inodes'[i], blocks', lo, hi)
    && (inodes' == inodes <==> PointersThere(inodes[i], lo, hi))
    && (forall a :: 0 <= a <= NDIRECT && inodes[i].addrs[a] != 0 ==> inodes'[i].addrs[a] == inodes[i].addrs[a])
  }

  ghost predicate FillGrows(inodes: seq<Inode>, blocks: seq<Block>, inodes': seq<Inode>, blocks': seq<Block>,
                            i: nat, lo: nat, hi: nat, j: nat, t: nat)
    requires WellFormed(inodes) && WellFormed(inodes') && j < |inodes| == |inodes'| && t <= INDIRECT
  {
    Ref(inodes'[j], blocks', t) == Ref(inodes[j], blocks, t) ||
    (Ref(inodes[j], blocks, t) == 0 && j == i && (lo <= t < hi || t == INDIRECT))
  }

  lemma FillStart(inodes: seq<Inode>, blocks: seq<Block>, i: nat, lo: nat)
    requires WellFormed(inodes) && i < |inodes| && lo <= MAXFILE
    ensures Filled(inodes, blocks, inodes, blocks, i, lo, lo)
  {
  }

  /** What one call of bmap for slot bn does to the pointers of the inode. */
  ghost predicate PointerFilled(inodes: seq<Inode>, inodes': seq<Inode>, i: nat, bn: nat) {
    && WellFormed(inodes) && WellFormed(inodes') && i < |inodes| && SameMeta(inodes, inodes', i)
    && (PointerThere(inodes[i], bn) ==> inodes' == inodes)
    && PointerThere(inodes'[i], bn)
    && (forall a :: 0 <= a <= NDIRECT && a != Pointer(bn) ==> inodes'[i].addrs[a] == inodes[i].addrs[a])
  }

  lemma FillNext(inodes: seq<Inode>, blocks: seq<Block>, inodes1: seq<Inode>, blocks1: seq<Block>,
                 inodes2: seq<Inode>, blocks2: seq<Block>, i: nat, lo: nat, hi: nat)
    requires Filled(inodes, blocks, inodes1, blocks1, i, lo, hi) && hi < MAXFILE
    requires RefsGrow(inodes1, blocks1, inodes2, blocks2, i, hi) && Ref(inodes2[i], blocks2, hi) != 0
    requires PointerFilled(inodes1, inodes2, i, hi)
    ensures Filled(inodes, blocks, inodes2, blocks2, i, lo, hi + 1)
  {
    var e := hi + 1;
    forall j, t | 0 <= j < |inodes| && 0 <= t <= INDIRECT
      ensures FillGrows(inodes, blocks, inodes2, blocks2, i, lo, e, j, t)
    {
      assert FillGrows(inodes, blocks, inodes1, blocks1, i, lo, hi, j, t);
      assert RefGrows(inodes1, blocks1, inodes2, blocks2, i, hi, j, t);
    }
    forall t | lo <= t < e ensures Ref(inodes2[i], blocks2, t) != 0 {
      assert RefGrows(inodes1, blocks1, inodes2, blocks2, i, hi, i, t);
    }
    FillPointers(inodes, inodes1, inodes2, i, lo, hi);
  }

  lemma FillPointers(inodes: seq<Inode>, inodes1: seq<Inode>, inodes2: seq<Inode>, i: nat, lo: nat, hi: nat)
    requires WellFormed(inodes) && WellFormed(inodes1) && SameMeta(inodes, inodes1, i) && lo <= hi
    requires inodes1 == inodes <==> PointersThere(inodes[i], lo, hi)
    requires forall a :: 0 <= a <= NDIRECT && inodes[i].addrs[a] != 0 ==> inodes1[i].addrs[a] == inodes[i].addrs[a]
    requires PointerFilled(inodes1, inodes2, i, hi)
    ensures inodes2 == inodes <==> PointersThere(inodes[i], lo, hi + 1)
    ensures forall a :: 0 <= a <= NDIRECT && inodes[i].addrs[a] != 0 ==> inodes2[i].addrs[a] == inodes[i].addrs[a]
  {
    if inodes1 == inodes {
      assert PointersThere(inodes[i], lo, hi + 1) <==> PointerThere(inodes[i], hi);
    } else {
      assert inodes1[i].addrs != inodes[i].addrs;
      var a :| 0 <= a <= NDIRECT && inodes1[i].addrs[a] != inodes[i].addrs[a];
      assert inodes[i].addrs[a] == 0 && inodes2[i].addrs[a] != 0;
    }
  }

  /** No file gets a hole by that. */
  lemma FillNoHoles(inodes: seq<Inode>, blocks: seq<Block>, inodes': seq<Inode>, blocks': seq<Block>, i: nat, lo: nat,
                    hi: nat, j: nat)
    requires Filled(inodes, blocks, inodes', blocks', i, lo, hi) && j < |inodes| && NoHoles(inodes[j], blocks)
    ensures NoHoles(inodes'[j], blocks')
  {
    forall bn | 0 <= bn < MAXFILE && bn * BSIZE < inodes'[j].size ensures Ref(inodes'[j], blocks', bn) != 0 {
      assert FillGrows(inodes, blocks, inodes', blocks', i, lo, hi, j, bn);
    }
  }

  /* Counting blocks. */

  /** The blocks to be taken so that slot bn has one. */
  function Missing(ino: Inode, blocks: seq<Block>, bn: nat): nat
    requires |ino.addrs| == NDIRECT + 1 && bn < MAXFILE
  {
    if Ref(ino, blocks, bn) != 0 then 0 else if bn < NDIRECT || ino.addrs[NDIRECT] != 0 then 1 else 2
  }

  /** The slots from lo up to hi that have no block. */
  function Unset(ino: Inode, blocks: seq<Block>, lo: nat, hi: nat): nat
    requires |ino.addrs| == NDIRECT + 1 && hi <= MAXFILE
  {
    if hi <= lo then 0 else Unset(ino, blocks, lo, hi - 1) + if Ref(ino, blocks, hi - 1) == 0 then 1 else 0
  }

  /** The blocks to be taken so that all of them have one, the indirect block
      included. */
  function Lacking(ino: Inode, blocks: seq<Block>, lo: nat, hi: nat): nat
    requires |ino.addrs| == NDIRECT + 1 && hi <= MAXFILE
  {
    Unset(ino, blocks, lo, hi) + if lo < hi && NDIRECT < hi && ino.addrs[NDIRECT] == 0 then 1 else 0
  }

  lemma {:induction false} UnsetFill(ino: Inode, blocks: seq<Block>, ino': Inode, blocks': seq<Block>, lo: nat, hi: nat,
                                     bn: nat)
    requires |ino.addrs| == |ino'.addrs| == NDIRECT + 1 && hi <= MAXFILE && bn < MAXFILE
    requires forall t :: lo <= t < hi && t != bn ==> Ref(ino', blocks', t) == Ref(ino, blocks, t)
    ensures Unset(ino', blocks', lo, hi) - Unset(ino, blocks, lo, hi) ==
            if !(lo <= bn < hi) then 0
            else (if Ref(ino', blocks', bn) == 0 then 1 else 0) - if Ref(ino, blocks, bn) == 0 then 1 else 0
    decreases hi
  {
    if lo < hi {
      UnsetFill(ino, blocks, ino', blocks', lo, hi - 1, bn);
    }
  }

  lemma {:induction false} UnsetNone(ino: Inode, blocks: seq<Block>, lo: nat, hi: nat)
    requires |ino.addrs| == NDIRECT + 1 && hi <= MAXFILE
    ensures Unset(ino, blocks, lo, hi) == 0 <==> Mapped(ino, blocks, lo, hi)
    decreases hi
  {
    if lo < hi {
      UnsetNone(ino, blocks, lo, hi - 1);
    }
  }

  /** Nothing is lacking exactly when every slot has its block. */
  lemma LackingNone(ino: Inode, blocks: seq<Block>, lo: nat, hi: nat)
    requires |ino.addrs| == NDIRECT + 1 && hi <= MAXFILE
    ensures Lacking(ino, blocks, lo, hi) == 0 <==> Mapped(ino, blocks, lo, hi)
  {
    UnsetNone(ino, blocks, lo, hi);
    assert lo < hi ==> (Ref(ino, blocks, hi - 1) != 0 && NDIRECT < hi ==> ino.addrs[NDIRECT] != 0);
  }

  /** The unmarked ones of the first n blocks. */
  function Unmarked(bits: seq<bool>, n: nat): nat
    requires n <= |bits|
  {
    if n == 0 then 0 else Unmarked(bits, n - 1) + if bits[n - 1] then 0 else 1
  }

  lemma {:induction false} UnmarkedTake(bits: seq<bool>, b: nat, n: nat)
    requires b < |bits| && n <= |bits| && !bits[b]
    ensures Unmarked(bits[b := true], n) == Unmarked(bits, n) - if b < n then 1 else 0
  {
    if n > 0 {
      UnmarkedTake(bits, b, n - 1);
    }
  }

  /** There is none exactly when all are marked. */
  lemma {:induction false} UnmarkedNone(bits: seq<bool>, n: nat)
    requires n <= |bits|
    ensures Unmarked(bits, n) == 0 <==> forall c :: 0 <= c < n ==> bits[c]
  {
    if n > 0 {
      UnmarkedNone(bits, n - 1);
    }
  }

  /** As many blocks have been marked as there are fewer lacking for slots lo up
      to hi. */
  ghost predicate Paid(bits: seq<bool>, inodes: seq<Inode>, blocks: seq<Block>, bits': seq<bool>, inodes': seq<Inode>,
                       blocks': seq<Block>, i: nat, lo: nat, hi: nat)
  {
    && WellFormed(inodes) && WellFormed(inodes') && i < |inodes| == |inodes'| && hi <= MAXFILE
    && |blocks| == |blocks'| <= |bits| && |blocks| <= |bits'|
    && Unmarked(bits', |blocks|) - Lacking(inodes'[i], blocks', lo, hi) ==
       Unmarked(bits, |blocks|) - Lacking(inodes[i], blocks, lo, hi)
  }

  /** That holds for any slots that include a up to b. */
  ghost predicate AllPaid(bits: seq<bool>, inodes: seq<Inode>, blocks: seq<Block>, bits': seq<bool>,
                          inodes': seq<Inode>, blocks': seq<Block>, i: nat, a: nat, b: nat)
  {
    forall lo, hi :: 0 <= lo <= a && b <= hi <= MAXFILE ==>
      Paid(bits, inodes, blocks, bits', inodes', blocks', i, lo, hi)
  }

  /** What one call of bmap for slot bn does to the blocks lacking. */
  lemma PaySlot(bits: seq<bool>, inodes: seq<Inode>, blocks: seq<Block>, bits': seq<bool>, inodes': seq<Inode>,
                blocks': seq<Block>, i: nat, bn: nat)
    requires RefsGrow(inodes, blocks, inodes', blocks', i, bn) && i < |inodes| && bn < MAXFILE
    requires |blocks| <= |bits| && |blocks| <= |bits'|
    requires bn < NDIRECT ==> inodes'[i].addrs[NDIRECT] == inodes[i].addrs[NDIRECT]
    requires Unmarked(bits', |blocks|) - Missing(inodes'[i], blocks', bn) ==
             Unmarked(bits, |blocks|) - Missing(inodes[i], blocks, bn)
    ensures AllPaid(bits, inodes, blocks, bits', inodes', blocks', i, bn, bn + 1)
  {
    forall lo, hi | 0 <= lo <= bn && bn + 1 <= hi <= MAXFILE
      ensures Paid(bits, inodes, blocks, bits', inodes', blocks', i, lo, hi)
    {
      forall t | lo <= t < hi && t != bn ensures Ref(inodes'[i], blocks', t) == Ref(inodes[i], blocks, t) {
        assert RefGrows(inodes, blocks, inodes', blocks', i, bn, i, t);
      }
      UnsetFill(inodes[i], blocks, inodes'[i], blocks', lo, hi, bn);
    }
  }

  lemma PayNext(bits: seq<bool>, inodes: seq<Inode>, blocks: seq<Block>,
                bits1: seq<bool>, inodes1: seq<Inode>, blocks1: seq<Block>,
                bits2: seq<bool>, inodes2: seq<Inode>, blocks2: seq<Block>, i: nat, a: nat, b: nat, c: nat, d: nat)
    requires AllPaid(bits, inodes, blocks, bits1, inodes1, blocks1, i, a, b) && a <= c && d <= b
    requires AllPaid(bits1, inodes1, blocks1, bits2, inodes2, blocks2, i, c, d)
    ensures AllPaid(bits, inodes, blocks, bits2, inodes2, blocks2, i, a, b)
  {
    forall lo, hi | 0 <= lo <= a && b <= hi <= MAXFILE
      ensures Paid(bits, inodes, blocks, bits2, inodes2, blocks2, i, lo, hi)
    {
      assert Paid(bits, inodes, blocks, bits1, inodes1, blocks1, i, lo, hi);
      assert Paid(bits1, inodes1, blocks1, bits2, inodes2, blocks2, i, lo, hi);
    }
  }

  /** Fewer blocks are unmarked than are lacking. */
  ghost predicate TooFew(bits: seq<bool>, inodes: seq<Inode>, blocks: seq<Block>, i: nat, lo: nat, hi: nat) {
    && WellFormed(inodes) && i < |inodes| && |blocks| <= |bits| && hi <= MAXFILE
    && Unmarked(bits, |blocks|) < Lacking(inodes[i], blocks, lo, hi)
  }

  /** When the blocks have run out in front of slot t, there were too few. */
  lemma NotPaid(bits: seq<bool>, inodes: seq<Inode>, blocks: seq<Block>, bits': seq<bool>, inodes': seq<Inode>,
                blocks': seq<Block>, i: nat, a: nat, b: nat, t: nat)
    requires AllPaid(bits, inodes, blocks, bits', inodes', blocks', i, a, b) && a <= t < b <= MAXFILE
    requires i < |inodes'| && WellFormed(inodes') && Ref(inodes'[i], blocks', t) == 0
    requires |blocks'| <= |bits'| && forall c :: 0 <= c < |blocks'| ==> bits'[c]
    ensures TooFew(bits, inodes, blocks, i, a, b)
  {
    assert Paid(bits, inodes, blocks, bits', inodes', blocks', i, a, b);
    UnmarkedNone(bits', |blocks'|);
    UnsetNone(inodes'[i], blocks', a, b);
  }

  /** When every slot has its block, there were enough. */
  lemma AllFilled(bits: seq<bool>, inodes: seq<Inode>, blocks: seq<Block>, bits': seq<bool>, inodes': seq<Inode>,
                  blocks': seq<Block>, i: nat, a: nat, b: nat)
    requires AllPaid(bits, inodes, blocks, bits', inodes', blocks', i, a, b) && b <= MAXFILE
    requires i < |inodes'| && WellFormed(inodes') && Mapped(inodes'[i], blocks', a, b)
    ensures WellFormed(inodes) && i < |inodes| && |blocks| <= |bits|
    ensures Unmarked(bits, |blocks|) >= Lacking(inodes[i], blocks, a, b)
  {
    assert Paid(bits, inodes, blocks, bits', inodes', blocks', i, a, b);
    LackingNone(inodes'[i], blocks', a, b);
  }

  /** Changing data blocks lacks no more. */
  lemma PaidFrame(bits: seq<bool>, inodes: seq<Inode>, blocks: seq<Block>, bits': seq<bool>, inodes': seq<Inode>,
                  blocks1: seq<Block>, owner: Owner, blocks': seq<Block>, i: nat, bn: nat)
    requires AllPaid(bits, inodes, blocks, bits', inodes', blocks1, i, bn, bn + 1)
    requires Owned(inodes', blocks1, owner) && |blocks'| == |blocks1| && PointersSame(blocks1, blocks', owner)
    ensures AllPaid(bits, inodes, blocks, bits', inodes', blocks', i, bn, bn + 1)
  {
    forall lo, hi | 0 <= lo <= bn && bn + 1 <= hi <= MAXFILE
      ensures Paid(bits, inodes, blocks, bits', inodes', blocks', i, lo, hi)
    {
      assert Paid(bits, inodes, blocks, bits', inodes', blocks1, i, lo, hi);
      forall t | lo <= t < hi ensures Ref(inodes'[i], blocks', t) == Ref(inodes'[i], blocks1, t) {
        RefFrame(inodes', blocks1, owner, blocks', i, t);
      }
      UnsetFill(inodes'[i], blocks1, inodes'[i], blocks', lo, hi, lo);
    }
  }

  /** Nor does a new size. */
  lemma PaidResize(bits: seq<bool>, inodes: seq<Inode>, blocks: seq<Block>, bits': seq<bool>, inodes1: seq<Inode>,
                   inodes': seq<Inode>, blocks': seq<Block>, i: nat, a: nat, b: nat)
    requires AllPaid(bits, inodes, blocks, bits', inodes1, blocks', i, a, b) && i < |inodes'| == |inodes1|
    requires WellFormed(inodes1) && WellFormed(inodes') && inodes'[i].addrs == inodes1[i].addrs
    ensures AllPaid(bits, inodes, blocks, bits', inodes', blocks', i, a, b)
  {
    forall lo, hi | 0 <= lo <= a && b <= hi <= MAXFILE
      ensures Paid(bits, inodes, blocks, bits', inodes', blocks', i, lo, hi)
    {
      assert Paid(bits, inodes, blocks, bits', inodes1, blocks', i, lo, hi);
      UnsetFill(inodes1[i], blocks', inodes'[i], blocks', lo, hi, 0);
    }
  }

  /** A block once there stays there. */
  ghost predicate KeepsRefs(ino: Inode, blocks: seq<Block>, ino': Inode, blocks': seq<Block>)
    requires |ino.addrs| == |ino'.addrs| == NDIRECT + 1
  {
    forall t :: 0 <= t < MAXFILE && Ref(ino, blocks, t) != 0 ==> Ref(ino', blocks', t) != 0
  }

  lemma {:induction false} UnsetWithin(ino: Inode, blocks: seq<Block>, lo: nat, a: nat, b: nat, hi: nat)
    requires |ino.addrs| == NDIRECT + 1 && lo <= a && b <= hi <= MAXFILE
    ensures Unset(ino, blocks, a, b) <= Unset(ino, blocks, lo, hi)
    decreases hi, b
  {
    if b < hi {
      UnsetWithin(ino, blocks, lo, a, b, hi - 1);
    } else if a < b {
      UnsetWithin(ino, blocks, lo, a, b - 1, hi - 1);
    }
  }

  lemma LackingWithin(ino: Inode, blocks: seq<Block>, lo: nat, a: nat, b: nat, hi: nat)
    requires |ino.addrs| == NDIRECT + 1 && lo <= a && b <= hi <= MAXFILE
    ensures Lacking(ino, blocks, a, b) <= Lacking(ino, blocks, lo, hi)
  {
    UnsetWithin(ino, blocks, lo, a, b, hi);
  }

  /** Blocks that run out for a part run out for the whole. */
  lemma ShortForAll(bits: seq<bool>, inodes: seq<Inode>, blocks: seq<Block>, bits1: seq<bool>, inodes1: seq<Inode>,
                    blocks1: seq<Block>, i: nat, lo: nat, a: nat, b: nat, hi: nat)
    requires AllPaid(bits, inodes, blocks, bits1, inodes1, blocks1, i, lo, hi) && lo <= a && b <= hi <= MAXFILE
    requires TooFew(bits1, inodes1, blocks1, i, a, b)
    ensures TooFew(bits, inodes, blocks, i, lo, hi)
  {
    assert Paid(bits, inodes, blocks, bits1, inodes1, blocks1, i, lo, hi);
    LackingWithin(inodes1[i], blocks1, lo, a, b, hi);
  }

  lemma FillKeeps(inodes: seq<Inode>, blocks: seq<Block>, inodes': seq<Inode>, blocks': seq<Block>, i: nat, lo: nat,
                  hi: nat)
    requires Filled(inodes, blocks, inodes', blocks', i, lo, hi)
    ensures KeepsRefs(inodes[i], blocks, inodes'[i], blocks')
  {
    forall t | 0 <= t < MAXFILE && Ref(inodes[i], blocks, t) != 0 ensures Ref(inodes'[i], blocks', t) != 0 {
      assert FillGrows(inodes, blocks, inodes', blocks', i, lo, hi, i, t);
    }
  }
}

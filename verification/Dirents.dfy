/** A directory is a file of 16-byte records (fs.h:48-54): the list of entries
    the name space works on is read off its bytes, and writing one record with
    writei replaces or appends one entry. */
module Dirents {
  import opened Common
  import BlockMap
  import Fs
  import opened Links

  const SIZE: nat := 16

  /** An inode number of two bytes, and a name without NUL that fits. */
  predicate Storable(e: Dirent) {
    e.inum < 0x1_0000 && |e.name| <= DIRSIZ && forall k :: 0 <= k < |e.name| ==> 0 < e.name[k] as int < 256
  }

  /** struct dirent: little-endian inum, then the name padded with NULs, as
      strncpy leaves it (fs.c:557-558). */
  function Encode(e: Dirent): (r: seq<byte>)
    requires Storable(e)
    ensures |r| == SIZE
  {
    seq(SIZE, k requires 0 <= k < SIZE =>
      if k == 0 then e.inum % 256
      else if k == 1 then e.inum / 256
      else if k - 2 < |e.name| then e.name[k - 2] as int else 0)
  }

  /** The characters up to a NUL, at most max of them. */
  function NameAt(data: seq<byte>, at: nat, max: nat): string
    requires at + max <= |data|
    decreases max
  {
    if max == 0 || data[at] == 0 then "" else [data[at] as char] + NameAt(data, at + 1, max - 1)
  }

  function Decode(data: seq<byte>, k: nat): Dirent
    requires SIZE * (k + 1) <= |data|
  {
    var lo: int, hi: int := data[SIZE * k], data[SIZE * k + 1];
    Dirent(lo + 256 * hi, NameAt(data, SIZE * k + 2, DIRSIZ))
  }

  /** The entries of a directory. */
  function Entries(data: seq<byte>): seq<Dirent> {
    seq(|data| / SIZE, k requires 0 <= k < |data| / SIZE => Decode(data, k))
  }

  /** The name's bytes, and NULs behind them. */
  function Padded(name: string, k: nat): int {
    if k < |name| then name[k] as int else 0
  }

  lemma {:induction false} NameRead(data: seq<byte>, at: nat, max: nat, name: string)
    requires at + max <= |data| && |name| <= max
    requires forall k :: 0 <= k < |name| ==> 0 < name[k] as int < 256
    requires forall j :: at <= j < at + max ==> data[j] == Padded(name, j - at)
    ensures NameAt(data, at, max) == name
    decreases max
  {
    if max > 0 && |name| > 0 {
      NameRead(data, at + 1, max - 1, name[1..]);
      assert name == [name[0]] + name[1..];
    }
  }

  /** A record reads back as the entry it was written for. */
  lemma RecordRead(data: seq<byte>, k: nat, e: Dirent)
    requires SIZE * (k + 1) <= |data| && Storable(e)
    requires forall j :: SIZE * k <= j < SIZE * (k + 1) ==> data[j] == Encode(e)[j - SIZE * k]
    ensures Decode(data, k) == e
  {
    assert data[SIZE * k] == Encode(e)[0] && data[SIZE * k + 1] == Encode(e)[1];
    NameRead(data, SIZE * k + 2, DIRSIZ, e.name);
  }

  /** A record byte by byte: the number in two bytes, the lower first, then the
      name. */
  lemma DotRecord()
    ensures Encode(Dirent(0x0201, ".")) == [1, 2, 46, 0, 0, 0, 0, 0, 0, 0, 0, 0, 0, 0, 0, 0]
  {
  }

  lemma {:induction false} NameSame(data: seq<byte>, data': seq<byte>, at: nat, max: nat)
    requires at + max <= |data| && at + max <= |data'|
    requires forall k :: at <= k < at + max ==> data'[k] == data[k]
    ensures NameAt(data', at, max) == NameAt(data, at, max)
    decreases max
  {
    if max > 0 {
      NameSame(data, data', at + 1, max - 1);
    }
  }

  lemma RecordSame(data: seq<byte>, data': seq<byte>, k: nat)
    requires SIZE * (k + 1) <= |data| && SIZE * (k + 1) <= |data'|
    requires forall l :: SIZE * k <= l < SIZE * (k + 1) ==> data'[l] == data[l]
    ensures Decode(data', k) == Decode(data, k)
  {
    NameSame(data, data', SIZE * k + 2, DIRSIZ);
  }

  lemma RecordBytes(data: seq<byte>, at: nat, rec: seq<byte>) returns (data': seq<byte>)
    requires at <= |data| && |rec| == SIZE && (at + SIZE <= |data| || at == |data|)
    ensures data' == BlockMap.Overwrite(data, at, rec) && |data'| == if at < |data| then |data| else |data| + SIZE
    ensures forall j :: at <= j < at + SIZE ==> data'[j] == rec[j - at]
    ensures forall j :: 0 <= j < |data| && !(at <= j < at + SIZE) ==> data'[j] == data[j]
  {
    data' := BlockMap.Overwrite(data, at, rec);
  }

  /** Writing record k of a directory, over another or at the end. */
  lemma WriteRecord(data: seq<byte>, k: nat, e: Dirent)
    requires |data| % SIZE == 0 && SIZE * k <= |data| && Storable(e)
    ensures var data' := BlockMap.Overwrite(data, SIZE * k, Encode(e));
            && |data'| % SIZE == 0
            && Entries(data') == if k < |Entries(data)| then Entries(data)[k := e] else Entries(data) + [e]
  {
    var n := |data| / SIZE;
    assert SIZE * n == |data| && k <= n;
    var data' := RecordBytes(data, SIZE * k, Encode(e));
    RecordRead(data', k, e);
    forall l | 0 <= l < n && l != k ensures Decode(data', l) == Decode(data, l) {
      assert SIZE * (l + 1) <= |data|;
      RecordSame(data, data', l);
    }
  }

  /** Zero bytes at the end are free entries. */
  lemma EntriesPadded(data: seq<byte>, m: nat)
    requires |data| % SIZE == 0
    ensures Entries(data + seq(SIZE * m, _ => 0)) == Entries(data) + seq(m, _ => FREE)
  {
    var data' := data + seq(SIZE * m, _ => 0);
    var n := |data| / SIZE;
    assert |data'| / SIZE == n + m && SIZE * n == |data|;
    forall k | 0 <= k < n + m ensures Decode(data', k) == (Entries(data) + seq(m, _ => FREE))[k] {
      if k < n {
        assert SIZE * (k + 1) <= |data|;
        RecordSame(data, data', k);
      } else {
        assert SIZE * k >= |data| && Storable(FREE);
        RecordRead(data', k, FREE);
      }
    }
  }

  /** The write of dirlink (fs.c:556-558) and of sys_unlink (sysfile.c:215-216):
      one record goes through writei. */
  method WriteEntry(fs: Fs.FileSystem, i: nat, k: nat, e: Dirent) returns (r: Fs.WriteResult)
    requires fs.Valid() && i < |fs.inodes| && fs.inodes[i].size % SIZE == 0
    requires SIZE * k <= fs.inodes[i].size && Storable(e)
    modifies fs`bitmap, fs`blocks, fs`inodes, fs`dinodes, fs`owner
    ensures fs.Valid() && |fs.inodes| == |old(fs.inodes)|
    ensures r.Wrote? ==>
              var was := Entries(old(BlockMap.Content(fs.inodes[i], fs.blocks)));
              && fs.inodes[i].size % SIZE == 0
              && Entries(BlockMap.Content(fs.inodes[i], fs.blocks)) == if k < |was| then was[k := e] else was + [e]
    ensures forall j :: 0 <= j < |fs.inodes| && j != i ==>
              fs.inodes[j] == old(fs.inodes)[j] &&
              BlockMap.Content(fs.inodes[j], fs.blocks) == old(BlockMap.Content(fs.inodes[j], fs.blocks))
    ensures r == Fs.Refused <==> k == BlockMap.MAXFILE * BlockMap.BSIZE / SIZE
  {
    WriteRecord(BlockMap.Content(fs.inodes[i], fs.blocks), k, e);
    r := fs.Writei(i, SIZE * k, Encode(e));
  }

  lemma {:induction false} NameMoved(data: seq<byte>, at: nat, data': seq<byte>, at': nat, max: nat)
    requires at + max <= |data| && at' + max <= |data'|
    requires forall j :: at' <= j < at' + max ==> data'[j] == data[j - at' + at]
    ensures NameAt(data', at', max) == NameAt(data, at, max)
    decreases max
  {
    if max > 0 {
      NameMoved(data, at + 1, data', at' + 1, max - 1);
    }
  }

  lemma RecordMoved(data: seq<byte>, k: nat, rec: seq<byte>)
    requires SIZE * (k + 1) <= |data| && rec == data[SIZE * k..SIZE * (k + 1)]
    ensures Decode(rec, 0) == Decode(data, k)
  {
    NameMoved(data, SIZE * k + 2, rec, 2, DIRSIZ);
  }

  /** The read of dirlookup and of isdirempty (fs.c:518-519, sysfile.c:171-172). */
  method ReadEntry(fs: Fs.FileSystem, i: nat, k: nat) returns (r: Fs.ReadResult)
    requires fs.Valid() && i < |fs.inodes| && SIZE * (k + 1) <= fs.inodes[i].size
    modifies fs`bitmap, fs`blocks, fs`inodes, fs`owner
    ensures fs.Valid() && |fs.inodes| == |old(fs.inodes)| && r != Fs.NotRead
    ensures r.Data? ==>
              |r.data| == SIZE && Decode(r.data, 0) == Entries(old(BlockMap.Content(fs.inodes[i], fs.blocks)))[k]
    ensures forall j :: 0 <= j < |fs.inodes| ==>
              BlockMap.Content(fs.inodes[j], fs.blocks) == old(BlockMap.Content(fs.inodes[j], fs.blocks))
  {
    ghost var data := BlockMap.Content(fs.inodes[i], fs.blocks);
    r := fs.Readi(i, SIZE * k, SIZE);
    if r.Data? {
      RecordMoved(data, k, r.data);
    }
  }
}

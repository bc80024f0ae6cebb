/** copyout (vm.c:344-381): bytes copied page by page into an address space. */
module Copyout {
  import opened Common
  import PageTables

  const PGSIZE := PageTables.PGSIZE
  const ENTRIES := PageTables.ENTRIES

  type Frame = p: seq<byte> | |p| == PGSIZE witness seq(PGSIZE, _ => 0)

  /** The pages uva2ka finds: present, and for the user. */
  type Mapping = map<nat, nat>

  ghost predicate Injective(pages: Mapping, n: nat) {
    && (forall v :: v in pages ==> pages[v] < n)
    && (forall v, u :: v in pages && u in pages && pages[v] == pages[u] ==> v == u)
  }

  predicate Mapped(pages: Mapping, a: nat) {
    a / PGSIZE in pages
  }

  /** uva2ka looks at the page table of an address without asking whether there
      is one (vm.c:350). */
  predicate HasTable(tables: set<nat>, a: nat) {
    a / PGSIZE / ENTRIES in tables
  }

  predicate ForUser(w: nat) {
    PageTables.Present(w) && w / PageTables.PTE_U % 2 == 1
  }

  /** The user pages and the page tables of directory d. */
  ghost function UserPages(mem: seq<PageTables.Page>, d: nat): Mapping
    requires d < |mem|
  {
    map v: nat | v < PageTables.USER && ForUser(PageTables.Pte(mem, d, v)) ::
      PageTables.Frame(PageTables.Pte(mem, d, v))
  }

  const PHYSTOP: nat := 0xE00_0000
  const DEVSPACE: nat := 0xFE00_0000

  /** The tables setupkvm gives every address space, none of whose pages is for
      the user (vm.c:115-145). */
  predicate KernelTable(x: nat) {
    KERNBASE <= x * ENTRIES * PGSIZE < KERNBASE + PHYSTOP || DEVSPACE <= x * ENTRIES * PGSIZE < UINT_MOD
  }

  ghost function Tables(mem: seq<PageTables.Page>, d: nat): set<nat>
    requires d < |mem|
  {
    set x: nat | x < ENTRIES && (PageTables.Present(mem[d][x]) || KernelTable(x))
  }

  /** In every address space of the machine the user pages lie on pages of their
      own, each under a page table that is there. */
  lemma SpaceInjective(mem: seq<PageTables.Page>, owner: seq<PageTables.Use>, d: nat)
    requires PageTables.Spaces(mem, owner) && d < |mem| && owner[d] == PageTables.Dir
    ensures Injective(UserPages(mem, d), |mem|)
    ensures forall a: nat :: Mapped(UserPages(mem, d), a) ==> HasTable(Tables(mem, d), a)
  {
    var pages := UserPages(mem, d);
    forall v | v in pages ensures pages[v] < |mem| {
      assert PageTables.PteOk(mem, owner, d, v);
    }
    forall v, u | v in pages && u in pages && pages[v] == pages[u] ensures v == u {
      PageTables.NoAliasing(mem, owner, d, v, d, u);
    }
  }

  /** The user's memory, as one flat sequence with holes. */
  ghost function ByteAt(frames: seq<Frame>, pages: Mapping, a: nat): byte
    requires Injective(pages, |frames|) && Mapped(pages, a)
  {
    frames[pages[a / PGSIZE]][a % PGSIZE]
  }

  /** The bytes from va on are those of src; all others are as they were. */
  ghost predicate Wrote(frames: seq<Frame>, pages: Mapping, frames': seq<Frame>, va: nat, src: seq<byte>)
    requires Injective(pages, |frames|)
  {
    && |frames'| == |frames|
    && (forall a: nat :: Mapped(pages, a) ==> ByteOk(frames, pages, frames', va, src, a))
    && (forall f :: 0 <= f < |frames| && f !in pages.Values ==> frames'[f] == frames[f])
  }

  ghost predicate ByteOk(frames: seq<Frame>, pages: Mapping, frames': seq<Frame>, va: nat, src: seq<byte>, a: nat)
    requires Injective(pages, |frames|) && |frames'| == |frames| && Mapped(pages, a)
  {
    ByteAt(frames', pages, a) == if va <= a < va + |src| then src[a - va] else ByteAt(frames, pages, a)
  }

  /** A page with some bytes overwritten, as memmove leaves it. */
  function Patched(p: Frame, at: nat, piece: seq<byte>): Frame
    requires at + |piece| <= PGSIZE
  {
    seq(PGSIZE, i requires 0 <= i < PGSIZE => if at <= i < at + |piece| then piece[i - at] else p[i])
  }

  /** One page's worth more. */
  lemma WrotePiece(frames: seq<Frame>, pages: Mapping, frames1: seq<Frame>, va: nat, src: seq<byte>, k: nat, n: nat)
    requires Injective(pages, |frames|) && k + n <= |src| && Wrote(frames, pages, frames1, va, src[..k])
    requires Mapped(pages, va + k) && (va + k) % PGSIZE + n <= PGSIZE
    ensures var f := pages[(va + k) / PGSIZE];
            f < |frames1| &&
            Wrote(frames, pages, frames1[f := Patched(frames1[f], (va + k) % PGSIZE, src[k..k + n])], va, src[..k + n])
  {
    var f, at := pages[(va + k) / PGSIZE], (va + k) % PGSIZE;
    var frames' := frames1[f := Patched(frames1[f], at, src[k..k + n])];
    forall a: nat | Mapped(pages, a) ensures ByteOk(frames, pages, frames', va, src[..k + n], a) {
      assert ByteOk(frames, pages, frames1, va, src[..k], a);
      if a / PGSIZE == (va + k) / PGSIZE {
        assert a - (va + k) == a % PGSIZE - at;
      } else {
        assert !(va + k <= a < va + k + n);
      }
    }
    assert (va + k) / PGSIZE in pages && f in pages.Values;
  }

  datatype Outcome = Done | NoPage | Faulted

  /** copyout: on success all bytes have been written; a page that is missing
      stops it, with the bytes in front of that page written.  It faults if the
      page table is missing too. */
  method Copyout(frames: seq<Frame>, pages: Mapping, tables: set<nat>, va: nat, src: seq<byte>)
    returns (r: Outcome, frames': seq<Frame>, k: nat)
    requires Injective(pages, |frames|) && forall a: nat :: Mapped(pages, a) ==> HasTable(tables, a)
    ensures k <= |src| && Wrote(frames, pages, frames', va, src[..k])
    ensures r == Done <==> k == |src|
    ensures forall a: nat :: va <= a < va + k ==> Mapped(pages, a)
    ensures r != Done ==> !Mapped(pages, va + k) && (k == 0 || (va + k) % PGSIZE == 0)
    ensures r == Done <==> forall a: nat :: va <= a < va + |src| ==> Mapped(pages, a)
    ensures r == Faulted <==> k < |src| && !HasTable(tables, va + k)
  {
    frames', k := frames, 0;
    while k < |src|
      invariant k <= |src| && |frames'| == |frames| && Wrote(frames, pages, frames', va, src[..k])
      invariant k == |src| || k == 0 || (va + k) % PGSIZE == 0
      invariant forall a: nat :: va <= a < va + k ==> Mapped(pages, a)
      decreases |src| - k
    {
      var va0 := (va + k) - (va + k) % PGSIZE;
      assert va0 / PGSIZE == (va + k) / PGSIZE;
      if va0 / PGSIZE / ENTRIES !in tables {
        assert !HasTable(tables, va + k) && !Mapped(pages, va + k);
        return Faulted, frames', k;
      }
      if va0 / PGSIZE !in pages {
        assert !Mapped(pages, va + k);
        return NoPage, frames', k;
      }
      var n := PGSIZE - (va + k - va0);
      if n > |src| - k {
        n := |src| - k;
      }
      var f := pages[va0 / PGSIZE];
      WrotePiece(frames, pages, frames', va, src, k, n);
      frames' := frames'[f := Patched(frames'[f], va + k - va0, src[k..k + n])];
      forall a: nat | va + k <= a < va + k + n ensures Mapped(pages, a) {
        assert a / PGSIZE == va0 / PGSIZE;
      }
      k := k + n;
    }
    return Done, frames', k;
  }
}

/** The inode cache (fs.c:165-347) over all inodes of one device: it refines a map
    from inode number to reference count and flags. */
module Icache {
  import opened Links

  /** An entry of the cache, struct inode; kind and nlink are its copy of the
      disk inode, good when valid. */
  datatype Slot = Slot(inum: nat, ref: nat, busy: bool, valid: bool, kind: nat, nlink: int)

  /** What the cache says of an inode: the handles out on it, its flags, and the
      entry that holds it. */
  datatype View = View(ref: nat, valid: bool, busy: bool, slot: nat)

  const ABSENT: View := View(0, false, false, 0)
  const FREENODE: Node := Node(0, 0, [])

  predicate SlotOk(nodes: seq<Node>, slots: seq<Slot>, view: seq<View>, s: nat)
    requires s < |slots| && |view| == |nodes|
  {
    var x := slots[s];
    x.ref > 0 ==>
      && x.inum < |nodes| && view[x.inum] == View(x.ref, x.valid, x.busy, s)
      && (x.valid ==> x.kind == nodes[x.inum].kind && x.nlink == nodes[x.inum].nlink)
  }

  predicate ViewOk(slots: seq<Slot>, view: seq<View>, i: nat)
    requires i < |view|
  {
    var v := view[i];
    if v.ref == 0 then v == ABSENT else v.slot < |slots| && slots[v.slot].ref > 0 && slots[v.slot].inum == i
  }

  ghost predicate CacheOk(nodes: seq<Node>, slots: seq<Slot>, view: seq<View>) {
    && |view| == |nodes|
    && (forall s :: 0 <= s < |slots| ==> SlotOk(nodes, slots, view, s))
    && (forall i :: 0 <= i < |view| ==> ViewOk(slots, view, i))
  }

  /** At most one entry in use caches any inode. */
  lemma OneEntry(nodes: seq<Node>, slots: seq<Slot>, view: seq<View>, s: nat, t: nat)
    requires CacheOk(nodes, slots, view) && s < |slots| && t < |slots|
    requires slots[s].ref > 0 && slots[t].ref > 0 && slots[s].inum == slots[t].inum
    ensures s == t
  {
    assert SlotOk(nodes, slots, view, s) && SlotOk(nodes, slots, view, t);
  }

  /** One entry and one inode change together. */
  lemma CacheStep(nodes: seq<Node>, slots: seq<Slot>, view: seq<View>, i: nat, x: Node, s: nat, y: Slot, v: View)
    requires CacheOk(nodes, slots, view) && i < |nodes| && s < |slots|
    requires if slots[s].ref > 0 then slots[s].inum == i else view[i].ref == 0
    requires if y.ref == 0 then v == ABSENT else y.inum == i && v == View(y.ref, y.valid, y.busy, s)
    requires y.ref > 0 && y.valid ==> y.kind == x.kind && y.nlink == x.nlink
    ensures CacheOk(nodes[i := x], slots[s := y], view[i := v])
  {
    var nodes', slots', view' := nodes[i := x], slots[s := y], view[i := v];
    forall t | 0 <= t < |slots'| ensures SlotOk(nodes', slots', view', t) {
      assert SlotOk(nodes, slots, view, t) && SlotOk(nodes, slots, view, s) && ViewOk(slots, view, i);
    }
    forall j | 0 <= j < |view'| ensures ViewOk(slots', view', j) {
      assert ViewOk(slots, view, j) && SlotOk(nodes, slots, view, s);
    }
  }

  function Got(v: View, s: nat): View {
    if v.ref == 0 then View(1, false, false, s) else v.(ref := v.ref + 1)
  }

  function Dropped(v: View): View {
    if v.ref <= 1 then ABSENT else v.(ref := v.ref - 1)
  }

  class Kernel {
    var nodes: seq<Node>
    const slots: array<Slot>
    ghost var view: seq<View>

    ghost predicate Valid()
      reads this, slots
    {
      CacheOk(nodes, slots[..], view)
    }

    /** iinit (fs.c:165-169): no entry is in use. */
    constructor (nodes: seq<Node>, n: nat)
      ensures Valid() && this.nodes == nodes && slots.Length == n && view == seq(|nodes|, _ => ABSENT)
    {
      this.nodes, slots := nodes, new Slot[n](_ => Slot(0, 0, false, false, 0, 0));
      view := seq(|nodes|, _ => ABSENT);
    }

    /** s is the entry of inode i, and a handle on it is out. */
    ghost predicate Handle(s: nat, i: nat)
      reads this, slots
    {
      s < slots.Length && i < |view| && slots[s].ref > 0 && slots[s].inum == i
    }

    /** iget (fs.c:223-254).  The panic when every entry is in use is !ok. */
    method Iget(i: nat) returns (ok: bool, s: nat)
      requires Valid() && i < |nodes|
      modifies this`view, slots
      ensures Valid()
      ensures !ok ==> view == old(view) && slots[..] == old(slots[..])
      ensures ok <==> old(view)[i].ref > 0 || exists t :: 0 <= t < slots.Length && old(slots[t].ref) == 0
      ensures !ok ==> forall t :: 0 <= t < slots.Length ==> slots[t].ref > 0
      ensures ok && old(view)[i].ref == 0 ==>
                s < slots.Length && old(slots[s].ref) == 0 && forall t :: 0 <= t < s ==> old(slots[t].ref) > 0
      ensures ok ==> Handle(s, i) && view == old(view)[i := Got(old(view)[i], s)]
    {
      var empty: int := -1;
      var t := 0;
      while t < slots.Length
        invariant 0 <= t <= slots.Length && slots[..] == old(slots[..]) && view == old(view)
        invariant forall u :: 0 <= u < t ==> !(slots[u].ref > 0 && slots[u].inum == i)
        invariant if empty < 0 then forall u :: 0 <= u < t ==> slots[u].ref > 0
                  else empty < t && slots[empty].ref == 0 && forall u :: 0 <= u < empty ==> slots[u].ref > 0
      {
        if slots[t].ref > 0 && slots[t].inum == i {
          var y := slots[t].(ref := slots[t].ref + 1);
          assert SlotOk(nodes, slots[..], view, t);
          CacheStep(nodes, slots[..], view, i, nodes[i], t, y, Got(view[i], t));
          slots[t] := y;
          view := view[i := Got(view[i], t)];
          assert slots[..] == old(slots[..])[t := y] && nodes == nodes[i := nodes[i]];
          return true, t;
        }
        if empty < 0 && slots[t].ref == 0 {
          empty := t;
        }
        t := t + 1;
      }
      assert ViewOk(slots[..], view, i);
      if empty < 0 {
        return false, 0;
      }
      s := empty;
      var y := slots[s].(inum := i, ref := 1, busy := false, valid := false);
      CacheStep(nodes, slots[..], view, i, nodes[i], s, y, Got(view[i], s));
      slots[s] := y;
      view := view[i := Got(view[i], s)];
      assert slots[..] == old(slots[..])[s := y] && nodes == nodes[i := nodes[i]];
      return true, s;
    }

    /** Rewrite one entry in use, for the same inode. */
    method Change(s: nat, y: Slot)
      requires Valid() && s < slots.Length && slots[s].ref > 0 && y.ref > 0 && y.inum == slots[s].inum < |nodes|
      requires y.valid ==> y.kind == nodes[y.inum].kind && y.nlink == nodes[y.inum].nlink
      modifies this`view, slots
      ensures Valid() && slots[..] == old(slots[..])[s := y]
      ensures y.inum < |old(view)| == |view| && view == old(view)[y.inum := View(y.ref, y.valid, y.busy, s)]
      ensures old(SlotOk(nodes, slots[..], view, s))
    {
      ghost var i := slots[s].inum;
      assert SlotOk(nodes, slots[..], view, s);
      CacheStep(nodes, slots[..], view, i, nodes[i], s, y, View(y.ref, y.valid, y.busy, s));
      slots[s] := y;
      view := view[i := View(y.ref, y.valid, y.busy, s)];
      assert slots[..] == old(slots[..])[s := y] && nodes == nodes[i := nodes[i]];
    }

    lemma SlotFacts(s: nat)
      requires Valid() && s < slots.Length && slots[s].ref > 0
      ensures slots[s].inum < |nodes| == |view|
      ensures view[slots[s].inum] == View(slots[s].ref, slots[s].valid, slots[s].busy, s)
      ensures slots[s].valid ==>
                slots[s].kind == nodes[slots[s].inum].kind && slots[s].nlink == nodes[slots[s].inum].nlink
    {
      assert SlotOk(nodes, slots[..], view, s);
    }

    /** The handle a view speaks of. */
    lemma ViewFacts(i: nat)
      requires Valid() && i < |view| && view[i].ref > 0
      ensures Handle(view[i].slot, i) && slots[view[i].slot].ref == view[i].ref
      ensures slots[view[i].slot].busy == view[i].busy && slots[view[i].slot].valid == view[i].valid
    {
      assert ViewOk(slots[..], view, i);
      assert SlotOk(nodes, slots[..], view, view[i].slot);
    }

    /** idup (fs.c:258-265). */
    method Idup(s: nat)
      requires Valid() && s < slots.Length && slots[s].ref > 0
      modifies this`view, slots
      ensures Valid() && Handle(s, old(slots[s].inum))
      ensures view == old(view)[slots[s].inum := Got(old(view)[slots[s].inum], s)]
    {
      SlotFacts(s);
      Change(s, slots[s].(ref := slots[s].ref + 1));
    }

    /** ilock (fs.c:269-298), when no other thread holds the lock.  The inode is
        read unless the entry is valid already; one without a type panics. */
    method Ilock(s: nat)
      requires Valid() && s < slots.Length && slots[s].ref > 0 && !slots[s].busy
      requires slots[s].inum < |nodes| && nodes[slots[s].inum].kind != 0
      modifies this`view, slots
      ensures Valid() && Handle(s, old(slots[s].inum)) && |view| == |old(view)|
      ensures view == old(view)[slots[s].inum := old(view)[slots[s].inum].(busy := true, valid := true)]
    {
      SlotFacts(s);
      var y := slots[s].(busy := true);
      if !y.valid {
        y := y.(valid := true, kind := nodes[y.inum].kind, nlink := nodes[y.inum].nlink);
      }
      Change(s, y);
    }

    /** iunlock (fs.c:301-311). */
    method Iunlock(s: nat)
      requires Valid() && s < slots.Length && slots[s].ref > 0 && slots[s].busy
      modifies this`view, slots
      ensures Valid() && Handle(s, old(slots[s].inum)) && |view| == |old(view)|
      ensures view == old(view)[slots[s].inum := old(view)[slots[s].inum].(busy := false)]
    {
      SlotFacts(s);
      Change(s, slots[s].(busy := false));
    }

    /** Set the link count and iupdate (fs.c:202-218), under the lock. */
    method SetNlink(s: nat, n: int)
      requires Valid() && s < slots.Length && slots[s].ref > 0 && slots[s].busy && slots[s].valid
      modifies this`nodes, this`view, slots
      ensures Valid() && Handle(s, old(slots[s].inum)) && view == old(view) && |nodes| == |old(nodes)|
      ensures nodes == old(nodes)[slots[s].inum := old(nodes)[slots[s].inum].(nlink := n)]
    {
      SlotFacts(s);
      var i, y := slots[s].inum, slots[s].(nlink := n);
      CacheStep(nodes, slots[..], view, i, nodes[i].(kind := y.kind, nlink := y.nlink), s, y, view[i]);
      slots[s] := y;
      nodes := nodes[i := nodes[i].(kind := slots[s].kind, nlink := slots[s].nlink)];
      assert slots[..] == old(slots[..])[s := y] && view == old(view)[i := old(view)[i]];
    }

    /** writei of one directory entry, over another or at the end. */
    method WriteEntry(s: nat, k: nat, e: Dirent)
      requires Valid() && s < slots.Length && slots[s].ref > 0 && slots[s].busy
      requires slots[s].inum < |nodes| && k <= |nodes[slots[s].inum].ents|
      modifies this`nodes
      ensures Valid() && |nodes| == |old(nodes)|
      ensures nodes == old(nodes)[slots[s].inum := WithEntry(old(nodes)[slots[s].inum], k, e)]
    {
      SlotFacts(s);
      var i := slots[s].inum;
      CacheStep(nodes, slots[..], view, i, WithEntry(nodes[i], k, e), s, slots[s], view[i]);
      assert slots[..] == slots[..][s := slots[s]] && view == view[i := view[i]];
      nodes := nodes[i := WithEntry(nodes[i], k, e)];
    }

    /** iput (fs.c:320-339): the last handle on an inode without links frees it. */
    method Iput(s: nat)
      requires Valid() && s < slots.Length && slots[s].ref > 0
      requires slots[s].ref == 1 && slots[s].valid && slots[s].nlink == 0 ==> !slots[s].busy
      modifies this`nodes, this`view, slots
      ensures Valid() && old(slots[s].inum) < |nodes| == |old(nodes)| && |view| == |old(view)|
      ensures nodes == Put(old(nodes), old(view), old(slots[s].inum))
      ensures view == old(view)[old(slots[s].inum) := Dropped(old(view)[old(slots[s].inum)])]
    {
      SlotFacts(s);
      var i := slots[s].inum;
      if slots[s].ref == 1 && slots[s].valid && slots[s].nlink == 0 {
        slots[s] := slots[s].(busy := true);
        nodes := nodes[i := Node(0, slots[s].nlink, [])];
        slots[s] := slots[s].(busy := false, valid := false, kind := 0);
      }
      slots[s] := slots[s].(ref := slots[s].ref - 1);
      ghost var y := slots[s];
      CacheStep(old(nodes), old(slots[..]), view, i, nodes[i], s, y, Dropped(view[i]));
      view := view[i := Dropped(view[i])];
      assert slots[..] == old(slots[..])[s := y] && nodes == old(nodes)[i := nodes[i]];
    }

    /** ialloc (fs.c:176-199): the first free inode, zeroed but for its type; 0
        stands for the panic when there is none. */
    method Ialloc(kind: nat) returns (c: nat)
      requires Valid() && kind != 0 && forall i :: 1 <= i < |nodes| && nodes[i].kind == 0 ==> view[i].ref == 0
      modifies this`nodes
      ensures Valid() && |nodes| == |old(nodes)|
      ensures c == 0 ==> nodes == old(nodes) && forall i :: 1 <= i < |nodes| ==> nodes[i].kind != 0
      ensures c != 0 ==> c < |old(nodes)| && old(nodes)[c].kind == 0 && nodes == old(nodes)[c := Node(kind, 0, [])]
      ensures c != 0 ==> forall i :: 1 <= i < c ==> old(nodes)[i].kind != 0
    {
      c := 1;
      while c < |nodes|
        invariant 1 <= c && nodes == old(nodes) && Valid()
        invariant forall i :: 1 <= i < c && i < |nodes| ==> nodes[i].kind != 0
      {
        if nodes[c].kind == 0 {
          assert forall t :: 0 <= t < slots.Length ==> SlotOk(nodes, slots[..], view, t);
          nodes := nodes[c := Node(kind, 0, [])];
          forall t | 0 <= t < slots.Length ensures SlotOk(nodes, slots[..], view, t) {
            assert SlotOk(old(nodes), slots[..], view, t);
          }
          return;
        }
        c := c + 1;
      }
      c := 0;
    }
  }

  function WithEntry(x: Node, k: nat, e: Dirent): Node
    requires k <= |x.ents|
  {
    x.(ents := if k < |x.ents| then x.ents[k := e] else x.ents + [e])
  }

  /** What dropping a handle does to the inodes. */
  function Put(nodes: seq<Node>, view: seq<View>, i: nat): seq<Node>
    requires i < |nodes| == |view|
  {
    if view[i].ref == 1 && view[i].valid && nodes[i].nlink == 0 then nodes[i := FREENODE] else nodes
  }
}

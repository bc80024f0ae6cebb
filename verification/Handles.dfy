/** Handles on inodes: what holds of inodes and of the cache between system calls,
    and how a call that takes and drops handles keeps it. */
module Handles {
  import opened Links
  import opened Icache

  /** A call succeeds, returns -1, or panics for want of space. */
  datatype Outcome = Done | Failed | Panicked

  /** An inode is in use exactly while it has a link or a handle; without links
      it is kept by a valid entry, so iput's test does not miss it. */
  predicate Kept(x: Node, v: View) {
    && (x.kind != 0 <==> x.nlink > 0 || v.ref > 0)
    && (x.nlink == 0 && v.ref > 0 ==> v.valid)
    && !v.busy
  }

  /** What holds between system calls. */
  ghost predicate Settled(nodes: seq<Node>, view: seq<View>) {
    Inv(nodes) && |view| == |nodes| && forall i :: 0 <= i < |nodes| ==> Kept(nodes[i], view[i])
  }

  /** The inode goes with its last link and last handle. */
  function Reap(nodes: seq<Node>, i: nat, last: bool): seq<Node>
    requires i < |nodes|
  {
    if last && nodes[i].nlink == 0 then nodes[i := FREENODE] else nodes
  }

  /** No entry of the cache is in use, as after a boot. */
  function Booted(nodes: seq<Node>): seq<View> {
    seq(|nodes|, _ => ABSENT)
  }

  /** The kernel starts settled exactly on a disk that satisfies the invariant and
      has no inode in use without a link. */
  lemma StartSettled(nodes: seq<Node>)
    ensures Settled(nodes, Booted(nodes)) <==>
            Inv(nodes) && forall i :: 0 <= i < |nodes| ==> (nodes[i].kind != 0 <==> nodes[i].nlink > 0)
  {
    var view := Booted(nodes);
    if Settled(nodes, view) {
      forall i | 0 <= i < |nodes| ensures nodes[i].kind != 0 <==> nodes[i].nlink > 0 {
        assert Kept(nodes[i], view[i]);
      }
    }
  }

  /** A crash keeps the invariant, and loses the handles: the next start is
      settled exactly if no inode without links had one. */
  lemma CrashSettled(nodes: seq<Node>, view: seq<View>)
    requires Settled(nodes, view)
    ensures Inv(nodes)
    ensures Settled(nodes, Booted(nodes)) <==> forall i :: 1 <= i < |nodes| && nodes[i].nlink == 0 ==> view[i].ref == 0
  {
    StartSettled(nodes);
    forall i | 0 <= i < |nodes| ensures Kept(nodes[i], view[i]) && (i > 0 ==> nodes[i].nlink >= 0) {
      assert Kept(nodes[i], view[i]) && (i > 0 ==> Counted(nodes, i));
    }
    assert nodes[0].kind == 0;
  }

  /** The disk a crash leaves while a process is in a removed directory: the
      inode stays in use for good, since nothing leads to it. */
  lemma CrashOrphan() returns (nodes: seq<Node>, view: seq<View>)
    ensures Settled(nodes, view) && !Settled(nodes, Booted(nodes))
    ensures |nodes| == 5 && nodes[3].kind == T_DIR && nodes[3].nlink == 0
  {
    nodes := RemovedDir();
    view := Booted(nodes)[3 := ABSENT.(ref := 1, valid := true)];
    forall i | 0 <= i < |nodes| ensures Kept(nodes[i], view[i]) {
    }
    CrashSettled(nodes, view);
  }

  /** So between calls iput frees exactly on the last handle and no link. */
  lemma PutSettled(nodes: seq<Node>, view: seq<View>, i: nat)
    requires Settled(nodes, view) && i < |nodes| && view[i].ref > 0
    ensures Put(nodes, view, i) == Reap(nodes, i, view[i].ref == 1)
    ensures Settled(Put(nodes, view, i), view[i := Dropped(view[i])])
  {
    assert Kept(nodes[i], view[i]) && Kept(nodes[0], view[0]);
    var nodes', view' := Put(nodes, view, i), view[i := Dropped(view[i])];
    assert Counted(nodes, i);
    if nodes' != nodes {
      FreeKeeps(nodes, i);
    }
    forall j | 0 <= j < |nodes'| ensures Kept(nodes'[j], view'[j]) {
      assert Kept(nodes[j], view[j]);
    }
  }

  /** The view after a call, as far as it matters: one handle on p is gone, and
      no entry still in use has become invalid; c's has become valid. */
  ghost predicate After(view: seq<View>, view': seq<View>, p: nat, c: nat) {
    |view'| == |view| && forall i :: 0 <= i < |view| ==> After1(view[i], view'[i], i == p, i == c)
  }

  predicate After1(v: View, v': View, dropped: bool, read: bool) {
    && v'.ref == v.ref - Bool(dropped) && !v'.busy && (v'.ref > 0 && (v.valid || read) ==> v'.valid)
    && (v.ref > 0 && v'.ref > 0 ==> v'.slot == v.slot)
  }

  /** Only p's and c's entries were touched. */
  lemma AfterTwo(nodes: seq<Node>, view: seq<View>, view': seq<View>, p: nat, c: nat)
    requires |view'| == |view| == |nodes| && forall i :: 0 <= i < |view| && i != p && i != c ==> view'[i] == view[i]
    requires forall i :: 0 <= i < |view| && i != p && i != c ==> Kept(nodes[i], view[i])
    requires p < |view| ==> After1(view[p], view'[p], true, false)
    requires c < |view| && c != p ==> After1(view[c], view'[c], false, true)
    requires c == p < |view| ==> After1(view[c], view'[c], true, true)
    ensures After(view, view', p, c)
  {
    forall i | 0 <= i < |view| ensures After1(view[i], view'[i], i == p, i == c) {
      if i != p && i != c {
        assert Kept(nodes[i], view[i]);
      }
    }
  }

  lemma AfterOthers(nodes: seq<Node>, view: seq<View>, view': seq<View>, p: nat, c: nat)
    requires p < |nodes| == |view| == |view'| && c < |nodes| && c != p && view[p].ref > 0
    requires Settled(nodes, view[p := view[p].(busy := false)]) && view[p].valid
    requires forall i :: 0 <= i < |view| && i != p && i != c ==> view'[i] == view[i]
    requires view'[p] == Dropped(view[p].(busy := false)) && After1(view[c], view'[c], false, true)
    ensures After(view, view', p, c)
  {
    var w := view[p := view[p].(busy := false)];
    forall i | 0 <= i < |view| && i != p && i != c ensures Kept(nodes[i], view[i]) {
      assert Kept(nodes[i], w[i]);
    }
    AfterTwo(nodes, view, view', p, c);
  }

  lemma FailSettled(nodes: seq<Node>, view: seq<View>, view': seq<View>, p: nat, c: nat)
    requires Settled(nodes, view) && After(view, view', p, c) && p < |nodes| && view[p].ref > 0
    ensures Settled(Reap(nodes, p, view[p].ref == 1), view')
  {
    var nodes' := Reap(nodes, p, view[p].ref == 1);
    assert Counted(nodes, p) || p == 0;
    assert Kept(nodes[0], view[0]) && Kept(nodes[p], view[p]);
    if nodes' != nodes {
      FreeKeeps(nodes, p);
    }
    forall j | 0 <= j < |nodes'| ensures Kept(nodes'[j], view'[j]) {
      assert Kept(nodes[j], view[j]) && After1(view[j], view'[j], j == p, j == c);
    }
  }

  /** iunlockput (fs.c:342-347). */
  method Iunlockput(k: Kernel, s: nat, ghost i: nat)
    requires k.Valid() && i < |k.view| && k.view[i].ref > 0 && k.view[i].slot == s && k.view[i].busy
    modifies k`nodes, k`view, k.slots
    ensures k.Valid() && |k.nodes| == |old(k.nodes)| && |k.view| == |old(k.view)|
    ensures i < |old(k.nodes)| && k.nodes == Put(old(k.nodes), old(k.view), i)
    ensures k.view == old(k.view)[i := Dropped(old(k.view)[i].(busy := false))]
  {
    k.ViewFacts(i);
    k.Iunlock(s);
    k.ViewFacts(i);
    k.Iput(s);
  }

  /** Take a handle on the inode of an entry, and lock it. */
  method Open(k: Kernel, c: nat) returns (ok: bool, s: nat)
    requires k.Valid() && c < |k.nodes| && k.nodes[c].kind != 0 && !k.view[c].busy
    modifies k`view, k.slots
    ensures k.Valid() && |k.view| == |old(k.view)|
    ensures !ok ==> forall t :: 0 <= t < k.slots.Length ==> k.slots[t].ref > 0
    ensures ok ==> k.view == old(k.view)[c := View(old(k.view)[c].ref + 1, true, true, s)]
    ensures ok && old(k.view)[c].ref > 0 ==> s == old(k.view)[c].slot
  {
    ok, s := k.Iget(c);
    if ok {
      k.SlotFacts(s);
      k.Ilock(s);
    }
  }

  /** Give up both handles, on inodes that have links. */
  method PutBoth(k: Kernel, dp: nat, ghost p: nat, ip: nat, ghost c: nat)
    requires k.Valid() && p < |k.nodes| && c < |k.nodes| && p != c && k.nodes[p].nlink > 0 && k.nodes[c].nlink > 0
    requires k.view[p].ref > 0 && k.view[p].slot == dp && k.view[p].busy
    requires k.view[c].ref > 0 && k.view[c].slot == ip && k.view[c].busy
    modifies k`nodes, k`view, k.slots
    ensures k.Valid() && k.nodes == old(k.nodes) && |k.view| == |old(k.view)|
    ensures k.view == old(k.view)[p := Dropped(old(k.view)[p].(busy := false))]
                [c := Dropped(old(k.view)[c].(busy := false))]
  {
    Iunlockput(k, ip, c);
    Iunlockput(k, dp, p);
  }

  /** One more handle, on w; none when w is no inode. */
  ghost predicate Took(view: seq<View>, view': seq<View>, w: int) {
    |view'| == |view| && forall i :: 0 <= i < |view| ==> Took1(view[i], view'[i], i == w)
  }

  predicate Took1(v: View, v': View, got: bool) {
    && v'.ref == v.ref + Bool(got) && !v'.busy
    && (v.ref > 0 ==> v'.slot == v.slot && (v.valid ==> v'.valid))
  }

  lemma TookSettled(nodes: seq<Node>, view: seq<View>, view': seq<View>, w: int)
    requires Settled(nodes, view) && Took(view, view', w)
    requires 0 <= w < |nodes| ==> nodes[w].kind != 0
    ensures Settled(nodes, view')
  {
    forall i | 0 <= i < |nodes| ensures Kept(nodes[i], view'[i]) {
      assert Kept(nodes[i], view[i]) && Took1(view[i], view'[i], i == w);
    }
  }

  /** The handle moves from i to j, or is given up; other entries stay. */
  lemma TookMoves(view0: seq<View>, view: seq<View>, view': seq<View>, i: nat, j: int)
    requires Took(view0, view, i) && i < |view| == |view'| && j < |view|
    requires forall l :: 0 <= l < |view| && l != i && l != j ==> view'[l] == view[l]
    requires i != j ==> view'[i].ref == view[i].ref - 1 && !view'[i].busy
    requires i != j && view'[i].ref > 0 ==> view'[i].slot == view[i].slot && (view[i].valid ==> view'[i].valid)
    requires i != j && j >= 0 ==> view'[j].ref == view[j].ref + 1 && !view'[j].busy
    requires i != j && j >= 0 && view[j].ref > 0 ==> view'[j].slot == view[j].slot && view'[j].valid == view[j].valid
    requires i == j ==>
              view'[i].ref == view[i].ref && view'[i].slot == view[i].slot && !view'[i].busy &&
              (view[i].valid ==> view'[i].valid)
    ensures Took(view0, view', j)
  {
    forall l | 0 <= l < |view0| ensures Took1(view0[l], view'[l], l == j) {
      assert Took1(view0[l], view[l], l == i);
    }
  }

  lemma AfterPut(nodes: seq<Node>, view: seq<View>, view': seq<View>, p: nat)
    requires p < |nodes| == |view| && view[p].ref > 0
    requires Settled(nodes, view[p := view[p].(busy := false)])
    requires view' == view[p := Dropped(view[p].(busy := false))]
    ensures After(view, view', p, |view|)
  {
    var w := view[p := view[p].(busy := false)];
    forall i | 0 <= i < |view| ensures After1(view[i], view'[i], i == p, i == |view|) {
      assert Kept(nodes[i], w[i]);
    }
  }

  /** No handle is left over, none is lost, and those held still point to the
      entry of their inode. */
  ghost predicate SameRefs(view: seq<View>, view': seq<View>) {
    |view'| == |view| && forall i :: 0 <= i < |view| ==> SameRef(view[i], view'[i])
  }

  predicate SameRef(v: View, v': View) {
    v'.ref == v.ref && (v.ref > 0 ==> v'.slot == v.slot)
  }

  lemma TookThenAfter(view: seq<View>, view1: seq<View>, view2: seq<View>, view3: seq<View>, w: nat, c: nat)
    requires w < |view1| && Took(view, view1, w) && view2 == view1[w := view1[w].(busy := true, valid := true)]
    requires After(view2, view3, w, c)
    ensures SameRefs(view, view3)
  {
    forall i | 0 <= i < |view| ensures SameRef(view[i], view3[i]) {
      assert Took1(view[i], view1[i], i == w) && After1(view2[i], view3[i], i == w, i == c);
    }
  }

  lemma SameRefsOf(view: seq<View>, view': seq<View>)
    requires Took(view, view', -1)
    ensures SameRefs(view, view')
  {
    forall i | 0 <= i < |view| ensures SameRef(view[i], view'[i]) {
      assert Took1(view[i], view'[i], false);
    }
  }

  lemma TookRefs(view: seq<View>, view': seq<View>, w: int)
    requires Took(view, view', w)
    ensures forall i :: 0 <= i < |view| ==> view'[i].ref == view[i].ref + Bool(i == w)
  {
    forall i | 0 <= i < |view| ensures view'[i].ref == view[i].ref + Bool(i == w) {
      assert Took1(view[i], view'[i], i == w);
    }
  }

  lemma RelockSettled(nodes: seq<Node>, view: seq<View>, p: nat)
    requires Settled(nodes, view) && p < |nodes| && view[p].ref > 0
    ensures Settled(nodes, view[p := view[p].(busy := true, valid := true).(busy := false)])
  {
    var w := view[p := view[p].(busy := true, valid := true).(busy := false)];
    forall i | 0 <= i < |nodes| ensures Kept(nodes[i], w[i]) {
      assert Kept(nodes[i], view[i]);
    }
  }

  ghost predicate Holding(k: Kernel, s: nat, i: nat)
    reads k, k.slots
  {
    k.Valid() && i < |k.nodes| && k.view[i].ref > 0 && k.view[i].slot == s && k.view[i].busy && k.view[i].valid
  }

  ghost predicate AllUsed(k: Kernel)
    reads k, k.slots
  {
    forall u :: 0 <= u < k.slots.Length ==> k.slots[u].ref > 0
  }

  /** Take a handle and drop it again, without freeing. */
  method Touch(k: Kernel, c: nat) returns (ok: bool)
    requires k.Valid() && c < |k.nodes|
    modifies k`nodes, k`view, k.slots
    ensures k.Valid() && k.nodes == old(k.nodes) && k.view == old(k.view)
    ensures !ok ==> AllUsed(k)
  {
    assert ViewOk(k.slots[..], k.view, c);
    var t;
    ok, t := k.Iget(c);
    if ok {
      k.SlotFacts(t);
      k.Iput(t);
      assert k.view == old(k.view)[c := old(k.view)[c]];
    }
  }

  /** The view once the lock on c is given up. */
  function Unlocked(view: seq<View>, c: nat): seq<View>
    requires c < |view|
  {
    view[c := view[c].(busy := false)]
  }

  lemma TookTrans(view0: seq<View>, view1: seq<View>, view2: seq<View>, c: int)
    requires Took(view0, view1, c) && Took(view1, view2, -1)
    ensures Took(view0, view2, c)
  {
    forall i | 0 <= i < |view0| ensures Took1(view0[i], view2[i], i == c) {
      assert Took1(view0[i], view1[i], i == c) && Took1(view1[i], view2[i], false);
    }
  }
}

/** The system calls that make and remove names (sysfile.c:115-281), with dirlink
    (fs.c:535-562), each run to its end. */
module Sysfile {
  import opened Links
  import opened Icache
  import opened Paths
  import opened Handles
  import opened Namei

  lemma UnlinkSettled(nodes: seq<Node>, view: seq<View>, view': seq<View>, p: nat, k: nat, c: nat)
    requires Settled(nodes, view) && CanUnlink(nodes, p, k) && c == nodes[p].ents[k].inum && After(view, view', p, c)
    ensures Settled(Reap(Unlinked(nodes, p, k), c, view[c].ref == 0), view')
  {
    var nodes1 := Unlinked(nodes, p, k);
    var nodes' := Reap(nodes1, c, view[c].ref == 0);
    UnlinkKeeps(nodes, p, k);
    EntryNames(nodes, p, k);
    assert Counted(nodes1, c) && Counted(nodes1, p) && Live(nodes1[p]) by {
      if nodes[c].kind == T_DIR {
        ParentStays(nodes, p, k);
      }
    }
    if nodes' != nodes1 {
      FreeKeeps(nodes1, c);
    }
    forall j | 0 <= j < |nodes'| ensures Kept(nodes'[j], view'[j]) {
      assert Kept(nodes[j], view[j]) && After1(view[j], view'[j], j == p, j == c);
    }
  }

  /** isdirempty (sysfile.c:165-178). */
  method IsDirEmpty(ents: seq<Dirent>) returns (empty: bool)
    ensures empty <==> OnlyDots(ents)
  {
    var k := 2;
    while k < |ents|
      invariant 2 <= k && forall l :: 2 <= l < k && l < |ents| ==> ents[l].inum == 0
    {
      if ents[k].inum != 0 {
        return false;
      }
      k := k + 1;
    }
    return true;
  }

  /** Zero the entry and take the links away (sysfile.c:215-226). */
  method RemoveEntry(k: Kernel, dp: nat, ghost p: nat, ip: nat, c: nat, j: nat)
    requires k.Valid() && p < |k.nodes| && c < |k.nodes| && p != c
    requires k.view[p].ref > 0 && k.view[p].slot == dp && k.view[p].busy && k.view[p].valid
    requires k.view[c].ref > 0 && k.view[c].slot == ip && k.view[c].busy && k.view[c].valid
    requires j < |k.nodes[p].ents| && k.nodes[p].ents[j].inum == c && k.nodes[p].nlink > Bool(k.nodes[c].kind == T_DIR)
    modifies k`nodes, k`view, k.slots
    ensures k.Valid() && |k.nodes| == |old(k.nodes)| && |k.view| == |old(k.view)|
    ensures k.nodes == Put(Unlinked(old(k.nodes), p, j), old(k.view), c)
    ensures k.view == old(k.view)[p := Dropped(old(k.view)[p].(busy := false))]
                [c := Dropped(old(k.view)[c].(busy := false))]
  {
    ghost var nodes0 := k.nodes;
    k.ViewFacts(p);
    k.ViewFacts(c);
    k.WriteEntry(dp, j, FREE);
    if k.nodes[c].kind == T_DIR {
      k.SlotFacts(dp);
      k.SetNlink(dp, k.slots[dp].nlink - 1);
    }
    Iunlockput(k, dp, p);
    k.ViewFacts(c);
    k.SlotFacts(ip);
    k.SetNlink(ip, k.slots[ip].nlink - 1);
    assert k.nodes == Unlinked(nodes0, p, j);
    Iunlockput(k, ip, c);
  }

  /** What holds of the inode such an entry names. */
  lemma MayUnlink(nodes: seq<Node>, view: seq<View>, p: nat, j: nat)
    requires p < |nodes| == |view| && Settled(nodes, view[p := view[p].(busy := false)]) && nodes[p].kind == T_DIR
    requires j < |nodes[p].ents| && nodes[p].ents[j].inum != 0 && !IsDots(nodes[p].ents[j].name)
    ensures var c := nodes[p].ents[j].inum;
            && 0 < c < |nodes| && c != p && nodes[p].nlink > 0 && nodes[c].kind != 0 && nodes[c].nlink > 0
            && !view[c].busy && (nodes[c].kind == T_DIR && OnlyDots(nodes[c].ents) ==> nodes[p].nlink >= 2)
  {
    var c := nodes[p].ents[j].inum;
    EntryNames(nodes, p, j);
    assert Kept(nodes[c], view[p := view[p].(busy := false)][c]);
    if nodes[c].kind == T_DIR && OnlyDots(nodes[c].ents) {
      ParentStays(nodes, p, j);
    }
  }

  /** sys_unlink from the entry it found (sysfile.c:204-226). */
  method UnlinkFound(k: Kernel, dp: nat, ghost p: nat, j: nat) returns (r: Outcome)
    requires k.Valid() && p < |k.nodes| && k.view[p].ref > 0
    requires k.view[p].slot == dp && k.view[p].busy && k.view[p].valid
    requires Settled(k.nodes, k.view[p := k.view[p].(busy := false)]) && k.nodes[p].kind == T_DIR
    requires j < |k.nodes[p].ents| && k.nodes[p].ents[j].inum != 0 && !IsDots(k.nodes[p].ents[j].name)
    modifies k`nodes, k`view, k.slots
    ensures k.Valid() && |k.nodes| == |old(k.nodes)| == |k.view|
    ensures r == Panicked ==> forall t :: 0 <= t < k.slots.Length ==> k.slots[t].ref > 0
    ensures r != Panicked ==> After(old(k.view), k.view, p, old(k.nodes)[p].ents[j].inum)
    ensures r == Done <==> r != Panicked && CanUnlink(old(k.nodes), p, j)
    ensures r == Done ==> k.nodes == Reap(Unlinked(old(k.nodes), p, j), old(k.nodes)[p].ents[j].inum,
                                          old(k.view)[old(k.nodes)[p].ents[j].inum].ref == 0)
    ensures r == Failed ==> k.nodes == old(k.nodes)
  {
    ghost var nodes0, view0 := k.nodes, k.view;
    MayUnlink(nodes0, view0, p, j);
    k.ViewFacts(p);
    var c := k.nodes[k.slots[dp].inum].ents[j].inum;
    r := OpenAndUnlink(k, dp, p, c, j);
    if r != Panicked {
      AfterOthers(nodes0, view0, k.view, p, c);
    }
  }

  /** The inode the entry names is locked too. */
  method OpenAndUnlink(k: Kernel, dp: nat, ghost p: nat, c: nat, j: nat) returns (r: Outcome)
    requires k.Valid() && p < |k.nodes| && k.view[p].ref > 0
    requires k.view[p].slot == dp && k.view[p].busy && k.view[p].valid
    requires j < |k.nodes[p].ents| && k.nodes[p].ents[j].inum == c < |k.nodes|
    requires c != p && k.nodes[p].nlink > 0 && k.nodes[c].kind != 0 && k.nodes[c].nlink > 0 && !k.view[c].busy
    requires k.nodes[c].kind == T_DIR && OnlyDots(k.nodes[c].ents) ==> k.nodes[p].nlink >= 2
    modifies k`nodes, k`view, k.slots
    ensures k.Valid() && |k.nodes| == |old(k.nodes)| == |k.view|
    ensures r == Panicked ==> forall t :: 0 <= t < k.slots.Length ==> k.slots[t].ref > 0
    ensures r == Failed <==> r != Panicked && old(k.nodes)[c].kind == T_DIR && !OnlyDots(old(k.nodes)[c].ents)
    ensures r == Failed ==> k.nodes == old(k.nodes)
    ensures r == Done ==> k.nodes == Reap(Unlinked(old(k.nodes), p, j), c, old(k.view)[c].ref == 0)
    ensures r != Panicked ==> forall i :: 0 <= i < |k.view| && i != p && i != c ==> k.view[i] == old(k.view)[i]
    ensures r != Panicked ==>
              k.view[p] == Dropped(old(k.view)[p].(busy := false)) && After1(old(k.view)[c], k.view[c], false, true)
  {
    var ok, ip := Open(k, c);
    if !ok {
      return Panicked;
    }
    r := UnlinkOpened(k, dp, p, ip, c, j);
  }

  /** With both inodes locked (sysfile.c:208-226). */
  method UnlinkOpened(k: Kernel, dp: nat, ghost p: nat, ip: nat, c: nat, j: nat) returns (r: Outcome)
    requires k.Valid() && p < |k.nodes| && c < |k.nodes| && p != c && k.nodes[p].nlink > 0 && k.nodes[c].nlink > 0
    requires k.view[p].ref > 0 && k.view[p].slot == dp && k.view[p].busy && k.view[p].valid
    requires k.view[c].ref > 0 && k.view[c].slot == ip && k.view[c].busy && k.view[c].valid
    requires j < |k.nodes[p].ents| && k.nodes[p].ents[j].inum == c
    requires k.nodes[c].kind == T_DIR && OnlyDots(k.nodes[c].ents) ==> k.nodes[p].nlink >= 2
    modifies k`nodes, k`view, k.slots
    ensures k.Valid() && |k.nodes| == |old(k.nodes)| && |k.view| == |old(k.view)| && r != Panicked
    ensures r == Failed <==> old(k.nodes)[c].kind == T_DIR && !OnlyDots(old(k.nodes)[c].ents)
    ensures r == Failed ==> k.nodes == old(k.nodes)
    ensures r == Done ==> k.nodes == Put(Unlinked(old(k.nodes), p, j), old(k.view), c)
    ensures k.view == old(k.view)[p := Dropped(old(k.view)[p].(busy := false))]
                [c := Dropped(old(k.view)[c].(busy := false))]
  {
    var empty := IsDirEmpty(k.nodes[c].ents);
    if k.nodes[c].kind == T_DIR && !empty {
      PutBoth(k, dp, p, ip, c);
      return Failed;
    }
    RemoveEntry(k, dp, p, ip, c, j);
    return Done;
  }

  /* sys_unlink (sysfile.c:181-236). */

  /** Entry j of p is the one the name is for, and it may go: it names a file,
      or a directory that holds nothing but "." and "..". */
  ghost predicate RemovableAt(nodes: seq<Node>, p: nat, name: string, j: nat) {
    CanUnlink(nodes, p, j) && nodes[p].ents[j].name == name
  }

  ghost predicate Removable(nodes: seq<Node>, p: nat, name: string) {
    exists j :: RemovableAt(nodes, p, name, j)
  }

  ghost predicate RemovedAt(nodes: seq<Node>, view: seq<View>, p: nat, name: string, nodes': seq<Node>, j: nat) {
    && |view| == |nodes| && RemovableAt(nodes, p, name, j)
    && nodes' == Reap(Unlinked(nodes, p, j), nodes[p].ents[j].inum, view[nodes[p].ents[j].inum].ref == 0)
  }

  /** The name is gone from p, and with it a link of the inode it named. */
  ghost predicate Removed(nodes: seq<Node>, view: seq<View>, p: nat, name: string, nodes': seq<Node>) {
    exists j :: RemovedAt(nodes, view, p, name, nodes', j)
  }

  lemma OnlyOne(nodes: seq<Node>, p: nat, j: nat, l: nat)
    requires Inv(nodes) && p < |nodes| && nodes[p].kind == T_DIR && j < |nodes[p].ents| && l < |nodes[p].ents|
    requires nodes[p].ents[j].inum != 0 && nodes[p].ents[l].inum != 0 && nodes[p].ents[j].name == nodes[p].ents[l].name
    ensures j == l
  {
    assert NodeOk(nodes, p);
  }

  /** With the parent directory locked (sysfile.c:200-235). */
  method UnlinkLocked(k: Kernel, dp: nat, ghost p: nat, name: string) returns (r: Outcome)
    requires k.Valid() && p < |k.nodes| && k.view[p].ref > 0
    requires k.view[p].slot == dp && k.view[p].busy && k.view[p].valid
    requires Settled(k.nodes, k.view[p := k.view[p].(busy := false)]) && k.nodes[p].kind == T_DIR
    modifies k`nodes, k`view, k.slots
    ensures k.Valid() && |k.nodes| == |old(k.nodes)| == |k.view|
    ensures r == Panicked ==> forall u :: 0 <= u < k.slots.Length ==> k.slots[u].ref > 0
    ensures r != Panicked ==> exists c: nat :: After(old(k.view), k.view, p, c)
    ensures r != Panicked ==> Settled(k.nodes, k.view)
    ensures r == Done <==> r != Panicked && Removable(old(k.nodes), p, Trunc(name))
    ensures r == Failed ==> k.nodes == Reap(old(k.nodes), p, old(k.view)[p].ref == 1)
    ensures r == Done ==> Removed(old(k.nodes), old(k.view), p, Trunc(name), k.nodes)
  {
    ghost var nodes0, view0 := k.nodes, k.view;
    ghost var w := view0[p := view0[p].(busy := false)];
    k.ViewFacts(p);
    var j := Scan(k.nodes[k.slots[dp].inum].ents, name);
    if IsDots(Trunc(name)) || j == |k.nodes[k.slots[dp].inum].ents| {
      PutSettled(nodes0, w, p);
      Iunlockput(k, dp, p);
      AfterPut(nodes0, view0, k.view, p);
      return Failed;
    }
    EntryNames(nodes0, p, j);
    ghost var c := nodes0[p].ents[j].inum;
    r := UnlinkFound(k, dp, p, j);
    if r != Panicked {
      assert After(w, k.view, p, c) by {
        forall i | 0 <= i < |w| ensures After1(w[i], k.view[i], i == p, i == c) {
          assert After1(view0[i], k.view[i], i == p, i == c);
        }
      }
      if r == Done {
        assert RemovedAt(nodes0, view0, p, Trunc(name), k.nodes, j);
        UnlinkSettled(nodes0, w, k.view, p, j, c);
      } else {
        FailSettled(nodes0, w, k.view, p, c);
        forall l | RemovableAt(nodes0, p, Trunc(name), l) ensures l == j {
          OnlyOne(nodes0, p, j, l);
        }
      }
    }
  }

  lemma RemovedBefore(nodes: seq<Node>, view: seq<View>, view2: seq<View>, p: nat, name: string, nodes': seq<Node>)
    requires Inv(nodes) && |view| == |view2| && Removed(nodes, view2, p, name, nodes')
    requires forall i :: 0 <= i < |view| && i != p ==> view2[i].ref == view[i].ref
    ensures Removed(nodes, view, p, name, nodes')
  {
    var j :| RemovedAt(nodes, view2, p, name, nodes', j);
    EntryNames(nodes, p, j);
    assert RemovedAt(nodes, view, p, name, nodes', j);
  }

  /** sys_unlink: the last name of the path goes from the directory the rest of
      it leads to, exactly when it may. */
  method SysUnlink(k: Kernel, cwd: nat, path: string) returns (r: Outcome)
    requires k.Valid() && Settled(k.nodes, k.view) && cwd < k.slots.Length && k.slots[cwd].ref > 0
    requires InUse(k.nodes, Origin(path, k.slots[cwd].inum), Elements(path, 0), true)
    modifies k`nodes, k`view, k.slots
    ensures k.Valid() && |k.nodes| == |old(k.nodes)|
    ensures r == Panicked ==> forall u :: 0 <= u < k.slots.Length ==> k.slots[u].ref > 0
    ensures r != Panicked ==> Settled(k.nodes, k.view) && SameRefs(old(k.view), k.view)
    ensures r != Panicked ==>
              var p := Target(old(k.nodes), Origin(path, old(k.slots[cwd].inum)), Elements(path, 0), true);
              && (r == Done <==> p != 0 && Removable(old(k.nodes), p, Trunc(Last(Elements(path, 0)))))
              && (r == Done ==> Removed(old(k.nodes), old(k.view), p, Trunc(Last(Elements(path, 0))), k.nodes))
              && (r == Failed ==> k.nodes == old(k.nodes))
  {
    ghost var nodes0, view0 := k.nodes, k.view;
    ghost var p: nat := Target(nodes0, Origin(path, k.slots[cwd].inum), Elements(path, 0), true);
    var dp, name;
    r, dp, name := Name(k, cwd, path, true);
    if r != Done {
      return;
    }
    TargetIsDir(nodes0, Origin(path, old(k.slots[cwd].inum)), Elements(path, 0));
    r := UnlinkFrom(k, dp, p, name, view0);
  }

  /** With a handle on the parent directory. */
  method UnlinkFrom(k: Kernel, dp: nat, ghost p: nat, name: string, ghost view0: seq<View>) returns (r: Outcome)
    requires At(k, view0, dp, p, [], false) && Settled(k.nodes, k.view) && k.nodes[p].kind == T_DIR
    modifies k`nodes, k`view, k.slots
    ensures k.Valid() && |k.nodes| == |old(k.nodes)|
    ensures r == Panicked ==> forall u :: 0 <= u < k.slots.Length ==> k.slots[u].ref > 0
    ensures r != Panicked ==> Settled(k.nodes, k.view) && SameRefs(view0, k.view)
    ensures r == Done <==> r != Panicked && Removable(old(k.nodes), p, Trunc(name))
    ensures r == Done ==> Removed(old(k.nodes), view0, p, Trunc(name), k.nodes)
    ensures r == Failed ==> k.nodes == old(k.nodes)
  {
    ghost var nodes0, view1 := k.nodes, k.view;
    assert Took1(view0[p], view1[p], true);
    k.ViewFacts(p);
    RelockSettled(nodes0, view1, p);
    assert Kept(nodes0[p], view1[p]);
    k.Ilock(dp);
    ghost var view2 := k.view;
    r := UnlinkLocked(k, dp, p, name);
    if r != Panicked {
      ghost var c: nat :| After(view2, k.view, p, c);
      TookThenAfter(view0, view1, view2, k.view, p, c);
      if r == Done {
        TookRefs(view0, view1, p);
        RemovedBefore(nodes0, view0, view2, p, Trunc(name), k.nodes);
      }
    }
  }

  /* dirlink (fs.c:535-562). */

  /** A directory file holds at most this many entries of 16 bytes. */
  const MAXENTS: nat := 140 * 512 / 16

  function FirstFree(ents: seq<Dirent>, k: nat): (f: nat)
    requires k <= |ents|
    ensures k <= f <= |ents| && (f < |ents| ==> ents[f].inum == 0) && forall l :: k <= l < f ==> ents[l].inum != 0
    decreases |ents| - k
  {
    if k == |ents| || ents[k].inum == 0 then k else FirstFree(ents, k + 1)
  }

  /** As many entries as a directory can have, and none of them free. */
  predicate Full(ents: seq<Dirent>) {
    |ents| >= MAXENTS && forall l :: 0 <= l < MAXENTS ==> ents[l].inum != 0
  }

  /** Place f is free, and none before it. */
  predicate FreeAt(ents: seq<Dirent>, f: nat) {
    f < |ents| && ents[f].inum == 0 && forall l :: 0 <= l < f ==> ents[l].inum != 0
  }

  /** Of two lists of entries the second has e in the first free place of the
      first, or at the end if there is none, and is otherwise the same. */
  ghost predicate InFirstPlace(ents: seq<Dirent>, e: Dirent, ents': seq<Dirent>) {
    if exists l :: 0 <= l < |ents| && ents[l].inum == 0
    then && |ents'| == |ents|
         && exists f ::
              0 <= f < |ents| && FreeAt(ents, f) && ents'[f] == e &&
              forall l :: 0 <= l < |ents| && l != f ==> ents'[l] == ents[l]
    else |ents'| == |ents| + 1 && ents'[|ents|] == e && forall l :: 0 <= l < |ents| ==> ents'[l] == ents[l]
  }

  /** The directory with one more entry, in the first free place. */
  function Placed(ents: seq<Dirent>, e: Dirent): (ents': seq<Dirent>)
    ensures Added(ents, e, ents') && InFirstPlace(ents, e, ents')
  {
    var f := FirstFree(ents, 0);
    if f < |ents| then assert FreeAt(ents, f); ents[f := e] else ents + [e]
  }

  method Dirlink(k: Kernel, s: nat, ghost i: nat, name: string, inum: nat) returns (r: Outcome)
    requires Holding(k, s, i) && forall l :: 0 <= l < |k.nodes[i].ents| ==> k.nodes[i].ents[l].inum < |k.nodes|
    modifies k`nodes, k`view, k.slots
    ensures k.Valid() && k.view == old(k.view) && |k.nodes| == |old(k.nodes)|
    ensures r == Panicked ==> AllUsed(k) || Full(old(k.nodes)[i].ents)
    ensures !HasName(old(k.nodes)[i].ents, Trunc(name)) ==> (r == Panicked <==> Full(old(k.nodes)[i].ents))
    ensures r == Failed <==> r != Panicked && HasName(old(k.nodes)[i].ents, Trunc(name))
    ensures r == Done ==>
              k.nodes ==
              old(k.nodes)[i := old(k.nodes)[i].(ents := Placed(old(k.nodes)[i].ents, Dirent(inum, Trunc(name))))]
    ensures r == Done ==>
              InFirstPlace(old(k.nodes)[i].ents, Dirent(inum, Trunc(name)), k.nodes[i].ents) &&
              k.nodes == old(k.nodes)[i := old(k.nodes)[i].(ents := k.nodes[i].ents)]
    ensures r != Done ==> k.nodes == old(k.nodes)
  {
    k.ViewFacts(i);
    var ents := k.nodes[k.slots[s].inum].ents;
    var j := Scan(ents, name);
    if j < |ents| {
      var ok := Touch(k, ents[j].inum);
      return if ok then Failed else Panicked;
    }
    j := 0;
    while j < |ents| && ents[j].inum != 0
      invariant 0 <= j <= |ents| && FirstFree(ents, 0) == FirstFree(ents, j)
      invariant k.Valid() && k.view == old(k.view) && k.nodes == old(k.nodes) && k.slots[..] == old(k.slots[..])
    {
      j := j + 1;
    }
    if j >= MAXENTS {
      return Panicked;
    }
    k.WriteEntry(s, j, Dirent(inum, Trunc(name)));
    return Done;
  }

  /* create (sysfile.c:238-281). */

  /** ialloc, lock and give one link. */
  method NewInode(k: Kernel, kind: nat) returns (ok: bool, c: nat, ip: nat)
    requires k.Valid() && kind != 0 && |k.nodes| > 0
    requires forall i :: 1 <= i < |k.nodes| && k.nodes[i].kind == 0 ==> k.view[i].ref == 0
    modifies k`nodes, k`view, k.slots
    ensures k.Valid() && |k.nodes| == |old(k.nodes)| && |k.view| == |old(k.view)|
    ensures !ok ==> AllUsed(k) || forall i :: 1 <= i < |old(k.nodes)| ==> old(k.nodes)[i].kind != 0
    ensures ok ==> 0 < c < |k.nodes| && old(k.nodes)[c].kind == 0 && Holding(k, ip, c)
    ensures ok ==>
              k.nodes == old(k.nodes)[c := Node(kind, 1, [])] && k.view == old(k.view)[c := View(1, true, true, ip)]
  {
    ip := 0;
    c := k.Ialloc(kind);
    if c == 0 {
      return false, c, ip;
    }
    ok, ip := k.Iget(c);
    if ok {
      k.SlotFacts(ip);
      k.Ilock(ip);
      k.SlotFacts(ip);
      k.SetNlink(ip, 1);
    }
  }

  method FillDots(k: Kernel, ip: nat, c: nat, p: nat) returns (ok: bool)
    requires Holding(k, ip, c) && c != 0 && k.nodes[c].ents == []
    modifies k`nodes, k`view, k.slots
    ensures k.Valid() && k.view == old(k.view) && |k.nodes| == |old(k.nodes)|
    ensures !ok ==> AllUsed(k)
    ensures ok ==> k.nodes == old(k.nodes)[c := old(k.nodes)[c].(ents := [Dirent(c, "."), Dirent(p, "..")])]
  {
    var r := Dirlink(k, ip, c, ".", c);
    if r == Panicked {
      return false;
    }
    assert k.nodes[c].ents == [Dirent(c, ".")];
    assert Placed([Dirent(c, ".")], Dirent(p, "..")) == [Dirent(c, "."), Dirent(p, "..")];
    r := Dirlink(k, ip, c, "..", p);
    return r == Done;
  }

  /** The inodes after create made c under a name in p. */
  function Created(nodes: seq<Node>, p: nat, name: string, kind: nat, c: nat): seq<Node>
    requires p < |nodes| && c < |nodes|
  {
    var ents' := Placed(nodes[p].ents, Dirent(c, name));
    if kind == T_DIR then Made(nodes, p, c, ents') else Linked(nodes[c := Node(kind, 0, [])], p, c, ents')
  }

  lemma CreatedKeeps(nodes: seq<Node>, p: nat, name: string, kind: nat, c: nat)
    requires Inv(nodes) && 0 < p < |nodes| && nodes[p].kind == T_DIR && !HasName(nodes[p].ents, name)
    requires 0 < c < |nodes| && nodes[c].kind == 0 && kind != 0
    ensures Inv(Created(nodes, p, name, kind, c)) <==> nodes[p].nlink > 0
  {
    var ents' := Placed(nodes[p].ents, Dirent(c, name));
    if kind == T_DIR {
      MakeKeeps(nodes, p, c, name, ents');
    } else {
      AllocKeeps(nodes, c, kind);
      LinkKeeps(nodes[c := Node(kind, 0, [])], p, c, name, ents');
    }
  }

  lemma CreatedSettled(nodes: seq<Node>, view: seq<View>, view': seq<View>, p: nat, name: string, kind: nat, c: nat)
    requires Settled(nodes, view) && 0 < p < |nodes| && Live(nodes[p]) && !HasName(nodes[p].ents, name)
    requires 0 < c < |nodes| && nodes[c].kind == 0 && kind != 0 && view[p].ref > 0
    requires c < |view'| && view' == view[c := View(1, true, false, view'[c].slot)][p := Dropped(view[p])]
    ensures Settled(Created(nodes, p, name, kind, c), view')
  {
    var nodes' := Created(nodes, p, name, kind, c);
    CreatedKeeps(nodes, p, name, kind, c);
    forall i | 0 <= i < |nodes'| ensures Kept(nodes'[i], view'[i]) {
      assert Kept(nodes[i], view[i]);
    }
  }

  /** The name is free (sysfile.c:258-280): a new inode under it, locked. */
  method CreateNew(k: Kernel, dp: nat, p: nat, name: string, kind: nat) returns (ok: bool, c: nat, ip: nat)
    requires Holding(k, dp, p) && 0 < p && k.nodes[p].kind == T_DIR
    requires !HasName(k.nodes[p].ents, Trunc(name)) && kind != 0
    requires forall l :: 0 <= l < |k.nodes[p].ents| ==> k.nodes[p].ents[l].inum < |k.nodes|
    requires forall i :: 1 <= i < |k.nodes| && k.nodes[i].kind == 0 ==> k.view[i].ref == 0
    requires k.nodes[p].nlink > 0
    modifies k`nodes, k`view, k.slots
    ensures k.Valid() && |k.nodes| == |old(k.nodes)| && |k.view| == |old(k.view)|
    ensures !ok ==>
              AllUsed(k) || Full(old(k.nodes)[p].ents) ||
              forall i :: 1 <= i < |old(k.nodes)| ==> old(k.nodes)[i].kind != 0
    ensures ok ==>
              0 < c < |k.nodes| && old(k.nodes)[c].kind == 0 &&
              k.nodes == Created(old(k.nodes), p, Trunc(name), kind, c)
    ensures ok ==> k.view == old(k.view)[c := View(1, true, true, ip)][p := Dropped(old(k.view)[p].(busy := false))]
  {
    ok, c, ip := NewInode(k, kind);
    if !ok {
      return;
    }
    if kind == T_DIR {
      k.ViewFacts(p);
      k.SlotFacts(dp);
      k.SetNlink(dp, k.slots[dp].nlink + 1);
      ok := FillDots(k, ip, c, p);
      if !ok {
        return;
      }
    }
    var r := Dirlink(k, dp, p, name, c);
    if r != Done {
      return false, c, ip;
    }
    Iunlockput(k, dp, p);
  }

  /** The name exists (sysfile.c:249-256): good enough only for a file where a
      file is wanted. */
  method CreateFound(k: Kernel, dp: nat, ghost p: nat, c: nat, kind: nat, ghost view0: seq<View>,
                     ghost view1: seq<View>)
    returns (r: Outcome, ip: nat)
    requires Holding(k, dp, p) && Took(view0, view1, p) && p < |view1|
    requires k.view == view1[p := view1[p].(busy := true, valid := true)]
    requires c < |k.nodes| && k.nodes[c].kind != 0 && k.nodes[c].nlink > 0 && k.nodes[p].nlink > 0
    modifies k`nodes, k`view, k.slots
    ensures k.Valid() && k.nodes == old(k.nodes) && |k.view| == |old(k.view)|
    ensures r == Panicked ==> AllUsed(k)
    ensures r == Done <==> r != Panicked && kind == T_FILE && k.nodes[c].kind == T_FILE
    ensures r == Done ==> Holding(k, ip, c) && Took(view0, Unlocked(k.view, c), c)
    ensures r == Failed ==> Took(view0, k.view, -1)
  {
    assert Took1(view0[p], view1[p], true) && Took1(view0[c], view1[c], c == p);
    var ok;
    ok, ip := k.Iget(c);
    if !ok {
      return Panicked, ip;
    }
    k.SlotFacts(ip);
    Iunlockput(k, dp, p);
    ghost var view2 := k.view;
    TookMoves(view0, view1, view2, p, c);
    assert Took1(view0[c], view2[c], true);
    k.ViewFacts(c);
    k.Ilock(ip);
    if kind == T_FILE && k.nodes[c].kind == T_FILE {
      TookMoves(view0, view2, Unlocked(k.view, c), c, c);
      return Done, ip;
    }
    Iunlockput(k, ip, c);
    TookMoves(view0, view2, k.view, c, -1);
    return Failed, ip;
  }

  /** create with a handle on the parent directory, which has not been removed.
      The handle it returns is locked. */
  method CreateIn(k: Kernel, dp: nat, p: nat, name: string, kind: nat, ghost view0: seq<View>)
    returns (r: Outcome, made: bool, c: nat, ip: nat)
    requires At(k, view0, dp, p, [], false) && Settled(k.nodes, k.view) && Live(k.nodes[p]) && kind != 0
    modifies k`nodes, k`view, k.slots
    ensures k.Valid() && |k.nodes| == |old(k.nodes)| && |k.view| == |old(k.view)|
    ensures r == Panicked ==>
              AllUsed(k) || Full(old(k.nodes)[p].ents) ||
              forall i :: 1 <= i < |old(k.nodes)| ==> old(k.nodes)[i].kind != 0
    ensures r == Failed ==> k.nodes == old(k.nodes) && Took(view0, k.view, -1)
    ensures r == Done ==> Holding(k, ip, c) && Took(view0, Unlocked(k.view, c), c) && 0 < c
    ensures r != Panicked ==> (made <==> !HasName(old(k.nodes)[p].ents, Trunc(name)))
    ensures r == Failed <==>
              r != Panicked && !made && !(kind == T_FILE && c < |k.nodes| && old(k.nodes)[c].kind == T_FILE)
    ensures r != Panicked && !made ==> k.nodes == old(k.nodes) && c == Lookup(k.nodes[p].ents, Trunc(name), 0)
    ensures r != Panicked && made ==>
              c < |k.nodes| && old(k.nodes)[c].kind == 0 && k.nodes == Created(old(k.nodes), p, Trunc(name), kind, c)
    ensures r == Done && made ==> Settled(k.nodes, Unlocked(k.view, c))
  {
    ghost var nodes0, view1 := k.nodes, k.view;
    assert Took1(view0[p], view1[p], true) && NodeOk(nodes0, p);
    k.ViewFacts(p);
    k.Ilock(dp);
    made, c, ip := false, 0, 0;
    var j := Scan(k.nodes[p].ents, name);
    if j < |k.nodes[p].ents| {
      c := k.nodes[p].ents[j].inum;
      InvLeads(nodes0, p, j);
      assert EntryLeads(nodes0, p, j);
      r, ip := CreateFound(k, dp, p, c, kind, view0, view1);
      return;
    }
    made, c, ip := CreateFresh(k, dp, p, name, kind, view0, view1);
    r := if made then Done else Panicked;
  }

  method CreateFresh(k: Kernel, dp: nat, p: nat, name: string, kind: nat, ghost view0: seq<View>,
                     ghost view1: seq<View>)
    returns (ok: bool, c: nat, ip: nat)
    requires Holding(k, dp, p) && Took(view0, view1, p) && p < |view1|
    requires k.view == view1[p := view1[p].(busy := true, valid := true)]
    requires Settled(k.nodes, view1) && Live(k.nodes[p]) && !HasName(k.nodes[p].ents, Trunc(name)) && kind != 0
    modifies k`nodes, k`view, k.slots
    ensures k.Valid() && |k.nodes| == |old(k.nodes)| && |k.view| == |old(k.view)|
    ensures !ok ==>
              AllUsed(k) || Full(old(k.nodes)[p].ents) ||
              forall i :: 1 <= i < |old(k.nodes)| ==> old(k.nodes)[i].kind != 0
    ensures ok ==>
              0 < c < |k.nodes| && old(k.nodes)[c].kind == 0 &&
              k.nodes == Created(old(k.nodes), p, Trunc(name), kind, c)
    ensures ok ==> Holding(k, ip, c) && Took(view0, Unlocked(k.view, c), c) && Settled(k.nodes, Unlocked(k.view, c))
  {
    ghost var nodes0 := k.nodes;
    FreshFacts(nodes0, view1, p);
    assert Took1(view0[p], view1[p], true);
    ok, c, ip := CreateNew(k, dp, p, name, kind);
    if ok {
      FreshSettled(nodes0, view0, view1, Unlocked(k.view, c), p, Trunc(name), kind, c);
    }
  }

  lemma FreshFacts(nodes: seq<Node>, view: seq<View>, p: nat)
    requires Settled(nodes, view) && p < |nodes| && Live(nodes[p])
    ensures forall i :: 1 <= i < |nodes| && nodes[i].kind == 0 ==> view[i].ref == 0
    ensures 0 < p && forall l :: 0 <= l < |nodes[p].ents| ==> nodes[p].ents[l].inum < |nodes|
  {
    forall i | 1 <= i < |nodes| && nodes[i].kind == 0 ensures view[i].ref == 0 {
      assert Kept(nodes[i], view[i]);
    }
    assert NodeOk(nodes, p);
  }

  lemma FreshSettled(nodes: seq<Node>, view0: seq<View>, view1: seq<View>, view': seq<View>, p: nat, name: string,
                     kind: nat, c: nat)
    requires Took(view0, view1, p) && Settled(nodes, view1) && p < |nodes|
    requires Live(nodes[p]) && !HasName(nodes[p].ents, name)
    requires 0 < c < |nodes| && nodes[c].kind == 0 && kind != 0 && c < |view'|
    requires view' == view1[c := View(1, true, false, view'[c].slot)]
                 [p := Dropped(view1[p].(valid := true, busy := false))]
    ensures Took(view0, view', c) && Settled(Created(nodes, p, name, kind, c), view')
  {
    assert Took1(view0[p], view1[p], true) && NodeOk(nodes, p);
    CreatedHandle(nodes, view0, view1, view', p, c);
    RelockSettled(nodes, view1, p);
    CreatedSettled(nodes, view1[p := view1[p].(valid := true, busy := false)], view', p, name, kind, c);
  }

  lemma CreatedHandle(nodes: seq<Node>, view0: seq<View>, view1: seq<View>, view': seq<View>, p: nat, c: nat)
    requires Took(view0, view1, p) && p < |view1| == |nodes| && c < |view1| == |view'| && c != p
    requires Settled(nodes, view1) && nodes[c].kind == 0
    requires view' == view1[c := View(1, true, false, view'[c].slot)]
                 [p := Dropped(view1[p].(valid := true, busy := false))]
    ensures Took(view0, view', c)
  {
    assert Kept(nodes[c], view1[c]);
    assert Took1(view0[p], view1[p], true) && Took1(view0[c], view1[c], false);
    TookMoves(view0, view1, view', p, c);
  }

  /** create: a handle, locked, on the inode of a path, which is new unless a
      file was there already; for a directory that has not been removed. */
  method Create(k: Kernel, cwd: nat, path: string, kind: nat) returns (r: Outcome, made: bool, c: nat, ip: nat)
    requires k.Valid() && Settled(k.nodes, k.view) && cwd < k.slots.Length && k.slots[cwd].ref > 0 && kind != 0
    requires InUse(k.nodes, Origin(path, k.slots[cwd].inum), Elements(path, 0), true)
    requires var p := Target(k.nodes, Origin(path, k.slots[cwd].inum), Elements(path, 0), true);
             0 < p < |k.nodes| ==> k.nodes[p].nlink > 0
    modifies k`nodes, k`view, k.slots
    ensures k.Valid() && |k.nodes| == |old(k.nodes)| && |k.view| == |old(k.view)|
    ensures r == Done ==>
              Holding(k, ip, c) && Took(old(k.view), Unlocked(k.view, c), c) && Settled(k.nodes, Unlocked(k.view, c))
    ensures r == Failed ==> k.nodes == old(k.nodes) && Settled(k.nodes, k.view) && SameRefs(old(k.view), k.view)
    ensures var p := Target(old(k.nodes), Origin(path, old(k.slots[cwd].inum)), Elements(path, 0), true);
            Creates(k, old(k.nodes), p, Trunc(Last(Elements(path, 0))), kind, r, made, c)
  {
    ghost var nodes0, view0 := k.nodes, k.view;
    ghost var p0: nat := Target(nodes0, Origin(path, k.slots[cwd].inum), Elements(path, 0), true);
    var dp, name;
    made, c, ip := false, 0, 0;
    r, dp, name := Name(k, cwd, path, true);
    if r != Done {
      return;
    }
    TargetIsDir(nodes0, Origin(path, old(k.slots[cwd].inum)), Elements(path, 0));
    k.ViewFacts(p0);
    assert Took1(view0[p0], k.view[p0], true);
    r, made, c, ip := CreateIn(k, dp, k.slots[dp].inum, name, kind, view0);
    if r == Failed {
      TookSettled(nodes0, view0, k.view, -1);
      SameRefsOf(view0, k.view);
    } else if r == Done && !made {
      TookSettled(nodes0, view0, Unlocked(k.view, c), c);
    }
  }

  /** What became of a name in directory p, if p is one. */
  ghost predicate Creates(k: Kernel, nodes: seq<Node>, p: nat, name: string, kind: nat, r: Outcome, made: bool, c: nat)
    reads k, k.slots
  {
    && (r == Panicked ==>
          AllUsed(k) || (0 < p < |nodes| && Full(nodes[p].ents)) ||
          forall i :: 1 <= i < |nodes| ==> nodes[i].kind != 0)
    && (r != Panicked && !(0 < p < |nodes|) ==> r == Failed)
    && (r != Panicked && 0 < p < |nodes| ==>
          if HasName(nodes[p].ents, name)
          then !made && k.nodes == nodes && c == Lookup(nodes[p].ents, name, 0)
               && (r == Done <==> kind == T_FILE && c < |nodes| && nodes[c].kind == T_FILE)
          else r == Done && made && 0 < c < |nodes| && nodes[c].kind == 0 &&
               k.nodes == Created(nodes, p, name, kind, c))
  }

  /* sys_link (sysfile.c:115-162). */

  /** Enter the name in the directory the second path led to
      (sysfile.c:143-148). */
  method EnterName(k: Kernel, dp: nat, ghost p: nat, name: string, c: nat, ghost view0: seq<View>) returns (r: Outcome)
    requires k.Valid() && p < |k.nodes| && Took(view0, k.view, p) && k.view[p].slot == dp && Live(k.nodes[p])
    requires forall l :: 0 <= l < |k.nodes[p].ents| ==> k.nodes[p].ents[l].inum < |k.nodes|
    modifies k`nodes, k`view, k.slots
    ensures k.Valid() && |k.nodes| == |old(k.nodes)| && |k.view| == |old(k.view)|
    ensures r == Panicked ==> AllUsed(k) || Full(old(k.nodes)[p].ents)
    ensures r != Panicked ==> Took(view0, k.view, -1)
    ensures r == Failed <==> r != Panicked && HasName(old(k.nodes)[p].ents, Trunc(name))
    ensures r == Failed ==> k.nodes == old(k.nodes)
    ensures r == Done ==>
              k.nodes ==
              old(k.nodes)[p := old(k.nodes)[p].(ents := Placed(old(k.nodes)[p].ents, Dirent(c, Trunc(name))))]
  {
    ghost var view := k.view;
    assert Took1(view0[p], view[p], true);
    k.ViewFacts(p);
    k.Ilock(dp);
    r := Dirlink(k, dp, p, name, c);
    if r != Panicked {
      Iunlockput(k, dp, p);
      TookMoves(view0, view, k.view, p, -1);
    }
  }

  /** One more link, unless it is a directory (sysfile.c:130-139). */
  method AddLink(k: Kernel, ip: nat, ghost c: nat, ghost view0: seq<View>) returns (ok: bool)
    requires k.Valid() && c < |k.nodes| && Took(view0, k.view, c) && k.view[c].slot == ip && k.nodes[c].kind != 0
    requires k.nodes[c].nlink > 0 || view0[c].ref > 0
    modifies k`nodes, k`view, k.slots
    ensures k.Valid() && |k.nodes| == |old(k.nodes)| && |k.view| == |old(k.view)|
    ensures ok <==> old(k.nodes)[c].kind != T_DIR
    ensures ok ==> k.nodes == old(k.nodes)[c := old(k.nodes)[c].(nlink := old(k.nodes)[c].nlink + 1)]
    ensures ok ==> Took(view0, k.view, c) && k.view[c].slot == ip
    ensures !ok ==> k.nodes == old(k.nodes) && Took(view0, k.view, -1)
  {
    ghost var view := k.view;
    assert Took1(view0[c], view[c], true);
    k.ViewFacts(c);
    k.Ilock(ip);
    if k.nodes[k.slots[ip].inum].kind == T_DIR {
      Iunlockput(k, ip, c);
      TookMoves(view0, view, k.view, c, -1);
      return false;
    }
    k.SlotFacts(ip);
    k.SetNlink(ip, k.slots[ip].nlink + 1);
    k.SlotFacts(ip);
    k.Iunlock(ip);
    TookMoves(view0, view, k.view, c, c);
    return true;
  }

  /** The way out when the new name cannot be made (sysfile.c:155-159). */
  method TakeBack(k: Kernel, ip: nat, ghost c: nat, ghost view0: seq<View>)
    requires k.Valid() && c < |k.nodes| && Took(view0, k.view, c) && k.view[c].slot == ip && k.nodes[c].kind != 0
    requires k.nodes[c].nlink > 1 || view0[c].ref > 0
    modifies k`nodes, k`view, k.slots
    ensures k.Valid() && |k.nodes| == |old(k.nodes)| && |k.view| == |old(k.view)|
    ensures k.nodes == old(k.nodes)[c := old(k.nodes)[c].(nlink := old(k.nodes)[c].nlink - 1)]
    ensures Took(view0, k.view, -1)
  {
    ghost var view := k.view;
    assert Took1(view0[c], view[c], true);
    k.ViewFacts(c);
    k.Ilock(ip);
    k.SlotFacts(ip);
    k.SetNlink(ip, k.slots[ip].nlink - 1);
    Iunlockput(k, ip, c);
    TookMoves(view0, view, k.view, c, -1);
  }

  /** The second path, walked while the file has its extra link. */
  method FindParent(k: Kernel, cwd: nat, path: string, ghost nodes0: seq<Node>, ghost view0: seq<View>, ghost c: nat)
    returns (r: Outcome, dp: nat, name: string)
    requires Settled(nodes0, view0) && c < |nodes0| && nodes0[c].kind != T_DIR
    requires k.Valid() && k.nodes == nodes0[c := nodes0[c].(nlink := nodes0[c].nlink + 1)] && Took(view0, k.view, c)
    requires cwd < k.slots.Length && k.slots[cwd].ref > 0
    requires InUse(nodes0, Origin(path, k.slots[cwd].inum), Elements(path, 0), true)
    modifies k`nodes, k`view, k.slots
    ensures k.Valid() && k.nodes == old(k.nodes) && |k.view| == |old(k.view)|
    ensures Named(k, old(k.view), Target(nodes0, Origin(path, old(k.slots[cwd].inum)), Elements(path, 0), true), r, dp)
    ensures r == Done ==> name == Last(Elements(path, 0))
  {
    ghost var i := Origin(path, k.slots[cwd].inum);
    InvWalkable(nodes0);
    assert c != 0 ==> Counted(nodes0, c);
    BumpWalkable(nodes0, c);
    TargetSame(nodes0, k.nodes, i, Elements(path, 0), true);
    forall j | 0 <= j < |k.view| ensures !k.view[j].busy && k.view[j].ref >= view0[j].ref {
      assert Took1(view0[j], k.view[j], j == c);
    }
    StandingIf(nodes0, view0, i, Elements(path, 0), true);
    StandingStays(nodes0, view0, k.nodes, k.view, i, Elements(path, 0), true);
    r, dp, name := Namex(k, cwd, path, true);
  }

  lemma LinkSettled(nodes: seq<Node>, view: seq<View>, view': seq<View>, p: nat, c: nat, name: string)
    requires Settled(nodes, view) && Took(view, view', -1) && 0 < c && p < |nodes| && Live(nodes[p]) && c < |nodes|
    requires CanLink(nodes, p, c, name, Placed(nodes[p].ents, Dirent(c, name)))
    ensures Settled(Linked(nodes, p, c, Placed(nodes[p].ents, Dirent(c, name))), view')
  {
    var ents' := Placed(nodes[p].ents, Dirent(c, name));
    var nodes' := Linked(nodes, p, c, ents');
    LinkKeeps(nodes, p, c, name, ents');
    assert Counted(nodes, c);
    forall i | 0 <= i < |nodes'| ensures Kept(nodes'[i], view'[i]) {
      assert Kept(nodes[i], view[i]) && Took1(view[i], view'[i], false);
    }
  }

  /** Find the directory of the second path and enter the name there; no handle
      on it is kept. */
  method FindAndEnter(k: Kernel, cwd: nat, path: string, c: nat, ghost nodes0: seq<Node>, ghost view0: seq<View>)
    returns (r: Outcome)
    requires Settled(nodes0, view0) && 0 < c < |nodes0| && nodes0[c].kind != T_DIR
    requires k.Valid() && k.nodes == nodes0[c := nodes0[c].(nlink := nodes0[c].nlink + 1)] && Took(view0, k.view, c)
    requires cwd < k.slots.Length && k.slots[cwd].ref > 0
    requires InUse(nodes0, Origin(path, k.slots[cwd].inum), Elements(path, 0), true)
    requires var p := Target(nodes0, Origin(path, k.slots[cwd].inum), Elements(path, 0), true);
             0 < p < |nodes0| ==> nodes0[p].nlink > 0
    modifies k`nodes, k`view, k.slots
    ensures k.Valid() && |k.nodes| == |nodes0| && |k.view| == |view0|
    ensures r != Panicked ==> Took(old(k.view), k.view, -1)
    ensures r == Failed ==> k.nodes == old(k.nodes)
    ensures var p := Target(nodes0, Origin(path, old(k.slots[cwd].inum)), Elements(path, 0), true);
            var name := Trunc(Last(Elements(path, 0)));
            && (r == Panicked ==> AllUsed(k) || (0 < p < |nodes0| && Full(nodes0[p].ents)))
            && (r == Done <==> r != Panicked && 0 < p < |nodes0| && !HasName(nodes0[p].ents, name))
            && (r == Done ==>
                  0 < p < |nodes0| && k.nodes == Linked(nodes0, p, c, Placed(nodes0[p].ents, Dirent(c, name))))
  {
    ghost var view1 := k.view;
    ghost var from := Origin(path, k.slots[cwd].inum);
    ghost var p: nat := Target(nodes0, from, Elements(path, 0), true);
    var dp, name;
    r, dp, name := FindParent(k, cwd, path, nodes0, view0, c);
    if r == Done {
      TargetIsDir(nodes0, from, Elements(path, 0));
      FreshFacts(nodes0, view0, p);
      r := EnterName(k, dp, p, name, c, view1);
    }
  }

  /** From the extra link on (sysfile.c:141-159): either the name is made, or
      the link is taken back. */
  method LinkInto(k: Kernel, cwd: nat, path: string, ip: nat, c: nat, ghost nodes0: seq<Node>, ghost view0: seq<View>)
    returns (r: Outcome)
    requires Settled(nodes0, view0) && 0 < c < |nodes0| && nodes0[c].kind != 0 && nodes0[c].kind != T_DIR
    requires nodes0[c].nlink > 0 || view0[c].ref > 0
    requires k.Valid() && k.nodes == nodes0[c := nodes0[c].(nlink := nodes0[c].nlink + 1)]
    requires Took(view0, k.view, c) && k.view[c].slot == ip
    requires cwd < k.slots.Length && k.slots[cwd].ref > 0
    requires InUse(nodes0, Origin(path, k.slots[cwd].inum), Elements(path, 0), true)
    requires var p := Target(nodes0, Origin(path, k.slots[cwd].inum), Elements(path, 0), true);
             0 < p < |nodes0| ==> nodes0[p].nlink > 0
    modifies k`nodes, k`view, k.slots
    ensures k.Valid() && |k.nodes| == |nodes0| && |k.view| == |view0|
    ensures r != Panicked ==> Took(view0, k.view, -1)
    ensures NameMade(k, nodes0, c, Target(nodes0, Origin(path, old(k.slots[cwd].inum)), Elements(path, 0), true),
                     Trunc(Last(Elements(path, 0))), r)
  {
    ghost var view1 := k.view;
    assert Took1(view0[c], view1[c], true);
    r := FindAndEnter(k, cwd, path, c, nodes0, view0);
    if r == Panicked {
      return;
    }
    TookTrans(view0, view1, k.view, c);
    assert Took1(view1[c], k.view[c], false);
    if r == Failed {
      TakeBack(k, ip, c, view0);
    } else {
      GiveUp(k, ip, c, view0);
    }
  }

  /** What became of the new name for c in directory p, if p is one. */
  ghost predicate NameMade(k: Kernel, nodes: seq<Node>, c: nat, p: nat, name: string, r: Outcome)
    requires c < |nodes|
    reads k, k.slots
  {
    && (r == Panicked ==> AllUsed(k) || (0 < p < |nodes| && Full(nodes[p].ents)))
    && (r == Failed ==> k.nodes == nodes)
    && (r == Done <==> r != Panicked && 0 < p < |nodes| && !HasName(nodes[p].ents, name))
    && (r == Done ==> 0 < p < |nodes| && k.nodes == Linked(nodes, p, c, Placed(nodes[p].ents, Dirent(c, name))))
  }

  /** sys_link: a new name for the file of the first path, in the directory of
      the second, which has not been removed. */
  method SysLink(k: Kernel, cwd: nat, path: string, path2: string) returns (r: Outcome)
    requires k.Valid() && Settled(k.nodes, k.view) && cwd < k.slots.Length && k.slots[cwd].ref > 0
    requires InUse(k.nodes, Origin(path, k.slots[cwd].inum), Elements(path, 0), false)
    requires InUse(k.nodes, Origin(path2, k.slots[cwd].inum), Elements(path2, 0), true)
    requires var p := Target(k.nodes, Origin(path2, k.slots[cwd].inum), Elements(path2, 0), true);
             0 < p < |k.nodes| ==> k.nodes[p].nlink > 0
    modifies k`nodes, k`view, k.slots
    ensures k.Valid() && |k.nodes| == |old(k.nodes)| && |k.view| == |old(k.view)|
    ensures r != Panicked ==> Settled(k.nodes, k.view) && SameRefs(old(k.view), k.view)
    ensures var c := Target(old(k.nodes), Origin(path, old(k.slots[cwd].inum)), Elements(path, 0), false);
            var p := Target(old(k.nodes), Origin(path2, old(k.slots[cwd].inum)), Elements(path2, 0), true);
            if 0 < c < |old(k.nodes)| && old(k.nodes)[c].kind != T_DIR
            then NameMade(k, old(k.nodes), c, p, Trunc(Last(Elements(path2, 0))), r) || (r == Panicked && AllUsed(k))
            else r != Done && (r == Failed ==> k.nodes == old(k.nodes)) && (r == Panicked ==> AllUsed(k))
  {
    ghost var nodes0, view0 := k.nodes, k.view;
    ghost var w: nat := Target(nodes0, Origin(path, k.slots[cwd].inum), Elements(path, 0), false);
    ghost var cwd0 := k.slots[cwd].inum;
    k.SlotFacts(cwd);
    var ip, name;
    r, ip, name := Name(k, cwd, path, false);
    if r != Done {
      return;
    }
    r := LinkFile(k, cwd, cwd0, path2, ip, w, view0);
  }

  /** From the handle on the first path's inode on (sysfile.c:130-161). */
  method LinkFile(k: Kernel, cwd: nat, ghost cwd0: nat, path: string, ip: nat, ghost c: nat, ghost view0: seq<View>)
    returns (r: Outcome)
    requires At(k, view0, ip, c, [], false) && Settled(k.nodes, view0)
    requires cwd0 < |view0| && view0[cwd0].ref > 0 && view0[cwd0].slot == cwd
    requires InUse(k.nodes, Origin(path, cwd0), Elements(path, 0), true)
    requires var p := Target(k.nodes, Origin(path, cwd0), Elements(path, 0), true);
             0 < p < |k.nodes| ==> k.nodes[p].nlink > 0
    modifies k`nodes, k`view, k.slots
    ensures k.Valid() && |k.nodes| == |old(k.nodes)| && |k.view| == |view0|
    ensures r != Panicked ==> Settled(k.nodes, k.view) && SameRefs(view0, k.view)
    ensures if old(k.nodes)[c].kind == T_DIR then r == Failed && k.nodes == old(k.nodes)
            else NameMade(k, old(k.nodes), c, Target(old(k.nodes), Origin(path, cwd0), Elements(path, 0), true),
                          Trunc(Last(Elements(path, 0))), r)
  {
    ghost var nodes0 := k.nodes;
    assert Took1(view0[c], k.view[c], true);
    k.ViewFacts(c);
    var inum := k.slots[ip].inum;
    var ok := AddLink(k, ip, c, view0);
    if !ok {
      TookSettled(nodes0, view0, k.view, -1);
      SameRefsOf(view0, k.view);
      return Failed;
    }
    assert Took1(view0[cwd0], k.view[cwd0], cwd0 == c);
    k.ViewFacts(cwd0);
    r := LinkInto(k, cwd, path, ip, inum, nodes0, view0);
    if r != Panicked {
      LinkEnds(nodes0, view0, k.nodes, k.view, c, Origin(path, cwd0), Elements(path, 0), r == Done);
    }
  }

  lemma LinkEnds(nodes: seq<Node>, view: seq<View>, nodes': seq<Node>, view': seq<View>, c: nat, from: nat,
                 names: seq<string>, made: bool)
    requires Settled(nodes, view) && Took(view, view', -1)
    requires 0 < c < |nodes| && nodes[c].kind != 0 && nodes[c].kind != T_DIR
    requires !made ==> nodes' == nodes
    requires made ==> var p := Target(nodes, from, names, true); 0 < p < |nodes| && nodes[p].nlink > 0
    requires made ==> !HasName(nodes[Target(nodes, from, names, true)].ents, Trunc(Last(names)))
    requires made ==>
              var p := Target(nodes, from, names, true);
              nodes' == Linked(nodes, p, c, Placed(nodes[p].ents, Dirent(c, Trunc(Last(names)))))
    ensures Settled(nodes', view') && SameRefs(view, view')
  {
    SameRefsOf(view, view');
    if made {
      TargetIsDir(nodes, from, names);
      LinkSettled(nodes, view, view', Target(nodes, from, names, true), c, Trunc(Last(names)));
    } else {
      TookSettled(nodes, view, view', -1);
    }
  }

  /** Dropping any handle, as close and chdir do: the inode is freed exactly when
      that was the last one and it has no links. */
  method Close(k: Kernel, s: nat)
    requires k.Valid() && Settled(k.nodes, k.view) && s < k.slots.Length && k.slots[s].ref > 0
    modifies k`nodes, k`view, k.slots
    ensures k.Valid() && Settled(k.nodes, k.view) && old(k.slots[s].inum) < |old(k.nodes)| == |k.nodes| == |old(k.view)|
    ensures k.nodes == Reap(old(k.nodes), old(k.slots[s].inum), old(k.slots[s].ref) == 1)
    ensures k.view == old(k.view)[old(k.slots[s].inum) := Dropped(old(k.view)[old(k.slots[s].inum)])]
  {
    k.SlotFacts(s);
    PutSettled(k.nodes, k.view, k.slots[s].inum);
    assert Kept(k.nodes[k.slots[s].inum], k.view[k.slots[s].inum]);
    k.Iput(s);
  }
}

/** Looking up paths (fs.c:508-532, 608-654): one handle moves along the path. */
module Namei {
  import opened Links
  import opened Icache
  import opened Paths
  import opened Handles

  /** The loop of dirlookup (fs.c:517-531). */
  method Scan(ents: seq<Dirent>, name: string) returns (k: nat)
    ensures k <= |ents| && forall l :: 0 <= l < k ==> !(ents[l].inum != 0 && ents[l].name == Trunc(name))
    ensures k < |ents| ==> ents[k].inum != 0 && ents[k].name == Trunc(name)
    ensures k < |ents| <==> HasName(ents, Trunc(name))
    ensures Lookup(ents, Trunc(name), 0) == if k < |ents| then ents[k].inum else 0
  {
    k := 0;
    while k < |ents|
      invariant 0 <= k <= |ents|
      invariant forall l :: 0 <= l < k ==> !(ents[l].inum != 0 && ents[l].name == Trunc(name))
      invariant Lookup(ents, Trunc(name), 0) == Lookup(ents, Trunc(name), k)
    {
      if ents[k].inum != 0 && Trunc(name) == ents[k].name {
        return;
      }
      k := k + 1;
    }
  }

  /** Some inode the walk comes to has no entry in the cache. */
  predicate Uncached(nodes: seq<Node>, view: seq<View>, i: nat, names: seq<string>)
    decreases |names|
  {
    || (0 < i < |view| && view[i].ref == 0)
    || (|names| > 0 && i < |nodes| && nodes[i].kind == T_DIR &&
        Uncached(nodes, view, Lookup(nodes[i].ents, names[0], 0), names[1..]))
  }

  /** One turn of the loop: look a name up, and move the handle there. */
  method Descend(k: Kernel, s: nat, ghost i: nat, name: string, ghost view0: seq<View>) returns (r: Outcome, t: nat)
    requires k.Valid() && i < |k.nodes| && Took(view0, k.view, i) && k.view[i].slot == s
    requires k.nodes[i].kind != 0 && (k.nodes[i].nlink > 0 || view0[i].ref > 0) && Leads(k.nodes, i)
    modifies k`nodes, k`view, k.slots
    ensures k.Valid() && k.nodes == old(k.nodes) && |k.view| == |old(k.view)|
    ensures r == Panicked ==> forall u :: 0 <= u < k.slots.Length ==> k.slots[u].ref > 0
    ensures r == Panicked ==>
              var c := Lookup(k.nodes[i].ents, Trunc(name), 0);
              k.nodes[i].kind == T_DIR && 0 < c < |view0| && view0[c].ref == 0
    ensures r == Failed <==> r != Panicked && (k.nodes[i].kind != T_DIR || Lookup(k.nodes[i].ents, Trunc(name), 0) == 0)
    ensures r == Failed ==> Took(view0, k.view, -1)
    ensures r == Done ==> Took(view0, k.view, Lookup(k.nodes[i].ents, Trunc(name), 0))
    ensures r == Done ==>
              Lookup(k.nodes[i].ents, Trunc(name), 0) < |k.view| &&
              k.view[Lookup(k.nodes[i].ents, Trunc(name), 0)].slot == t
  {
    ghost var view := k.view;
    assert Took1(view0[i], view[i], true);
    k.ViewFacts(i);
    k.Ilock(s);
    t := 0;
    if k.nodes[k.slots[s].inum].kind != T_DIR {
      Iunlockput(k, s, i);
      TookMoves(view0, view, k.view, i, -1);
      return Failed, t;
    }
    var j := Scan(k.nodes[k.slots[s].inum].ents, name);
    if j == |k.nodes[k.slots[s].inum].ents| {
      Iunlockput(k, s, i);
      TookMoves(view0, view, k.view, i, -1);
      return Failed, t;
    }
    var c := k.nodes[k.slots[s].inum].ents[j].inum;
    assert EntryLeads(k.nodes, i, j);
    assert Took1(view0[c], view[c], c == i);
    var ok;
    ok, t := k.Iget(c);
    if !ok {
      return Panicked, t;
    }
    k.SlotFacts(t);
    Iunlockput(k, s, i);
    TookMoves(view0, view, k.view, i, c);
    return Done, t;
  }

  /** nameiparent stops at a directory (fs.c:619-628). */
  method Stop(k: Kernel, s: nat, ghost i: nat, ghost view0: seq<View>) returns (r: Outcome)
    requires k.Valid() && i < |k.nodes| && Took(view0, k.view, i) && k.view[i].slot == s
    requires k.nodes[i].kind != 0 && (k.nodes[i].nlink > 0 || view0[i].ref > 0)
    modifies k`nodes, k`view, k.slots
    ensures k.Valid() && k.nodes == old(k.nodes) && |k.view| == |old(k.view)|
    ensures if k.nodes[i].kind == T_DIR then r == Done && Took(view0, k.view, i) && k.view[i].slot == s
            else r == Failed && Took(view0, k.view, -1)
  {
    ghost var view := k.view;
    assert Took1(view0[i], view[i], true);
    k.ViewFacts(i);
    k.Ilock(s);
    if k.nodes[k.slots[s].inum].kind != T_DIR {
      Iunlockput(k, s, i);
      TookMoves(view0, view, k.view, i, -1);
      return Failed;
    }
    k.ViewFacts(i);
    k.Iunlock(s);
    TookMoves(view0, view, k.view, i, i);
    return Done;
  }

  /** Drop the handle when there is no name left (fs.c:636-639). */
  method GiveUp(k: Kernel, s: nat, ghost i: nat, ghost view0: seq<View>)
    requires k.Valid() && i < |k.nodes| && Took(view0, k.view, i) && k.view[i].slot == s
    requires k.nodes[i].nlink > 0 || view0[i].ref > 0
    modifies k`nodes, k`view, k.slots
    ensures k.Valid() && k.nodes == old(k.nodes) && Took(view0, k.view, -1)
  {
    ghost var view := k.view;
    assert Took1(view0[i], view[i], true);
    k.ViewFacts(i);
    k.Iput(s);
    TookMoves(view0, view, k.view, i, -1);
  }

  /** Where a path starts. */
  function Origin(path: string, cwd: nat): nat {
    if |path| > 0 && path[0] == '/' then ROOTINO else cwd
  }

  /** The handle namex starts from (fs.c:613-616). */
  method StartAt(k: Kernel, cwd: nat, path: string) returns (ok: bool, s: nat)
    requires k.Valid() && ROOTINO < |k.nodes| && cwd < k.slots.Length && k.slots[cwd].ref > 0
    requires forall i :: 0 <= i < |k.view| ==> !k.view[i].busy
    modifies k`view, k.slots
    ensures k.Valid() && |k.view| == |old(k.view)|
    ensures !ok ==> forall u :: 0 <= u < k.slots.Length ==> k.slots[u].ref > 0
    ensures !ok ==> "/" <= path && old(k.view)[ROOTINO].ref == 0
    ensures ok ==>
              var i := Origin(path, old(k.slots[cwd].inum));
              i < |k.view| && Took(old(k.view), k.view, i) && k.view[i].slot == s
  {
    k.SlotFacts(cwd);
    if |path| > 0 && path[0] == '/' {
      ok, s := k.Iget(ROOTINO);
      if ok {
        k.SlotFacts(s);
      }
    } else {
      k.Idup(cwd);
      k.SlotFacts(cwd);
      ok, s := true, cwd;
    }
  }

  /** Whether namex looks a name up here, or stops. */
  predicate GoesOn(nodes: seq<Node>, i: nat, rest: seq<string>, parent: bool) {
    i < |nodes| && nodes[i].kind == T_DIR && |rest| > Bool(parent) && Lookup(nodes[i].ents, rest[0], 0) != 0
  }

  /** Where the walk may stand: on an inode with links, or on a removed one that
      some other handle keeps, if it may stand where it goes from there. */
  ghost predicate Standing(nodes: seq<Node>, view0: seq<View>, i: nat, rest: seq<string>, parent: bool)
    decreases |rest|
  {
    && i < |nodes| == |view0| && nodes[i].kind != 0 && nodes[0].kind == 0 && (nodes[i].nlink > 0 || view0[i].ref > 0)
    && (nodes[i].nlink <= 0 && GoesOn(nodes, i, rest, parent) ==>
          Standing(nodes, view0, Lookup(nodes[i].ents, rest[0], 0), rest[1..], parent))
  }

  lemma StandingNext(nodes: seq<Node>, view0: seq<View>, i: nat, rest: seq<string>, parent: bool)
    requires Standing(nodes, view0, i, rest, parent) && Leads(nodes, i) && GoesOn(nodes, i, rest, parent)
    ensures Standing(nodes, view0, Lookup(nodes[i].ents, rest[0], 0), rest[1..], parent)
  {
    var k := LookupAt(nodes[i].ents, rest[0], 0);
    assert EntryLeads(nodes, i, k);
  }

  /** No inode the walk comes to has been freed. */
  predicate InUse(nodes: seq<Node>, i: nat, names: seq<string>, parent: bool) {
    forall n :: 0 <= n <= |names| - Bool(parent && |names| > 0) ==> Reaches(nodes, i, names[..n])
  }

  predicate Reaches(nodes: seq<Node>, i: nat, names: seq<string>) {
    var w := Walk(nodes, i, names);
    w < |nodes| && (nodes[w].kind != 0 || (w == 0 && |names| > 0))
  }

  lemma ReachesNext(nodes: seq<Node>, i: nat, names: seq<string>, n: nat)
    requires n < |names| && i < |nodes| && nodes[i].kind == T_DIR
    ensures Walk(nodes, Lookup(nodes[i].ents, names[0], 0), names[1..][..n]) == Walk(nodes, i, names[..n + 1])
  {
    assert names[..n + 1][1..] == names[1..][..n];
  }

  lemma {:induction false} StandingIf(nodes: seq<Node>, view: seq<View>, i: nat, names: seq<string>, parent: bool)
    requires Settled(nodes, view) && InUse(nodes, i, names, parent)
    ensures Standing(nodes, view, i, names, parent)
    decreases |names|
  {
    assert names[..0] == [] && Reaches(nodes, i, names[..0]);
    assert Kept(nodes[i], view[i]);
    if GoesOn(nodes, i, names, parent) {
      var c := Lookup(nodes[i].ents, names[0], 0);
      forall n | 0 <= n <= |names[1..]| - Bool(parent && |names[1..]| > 0) ensures Reaches(nodes, c, names[1..][..n]) {
        ReachesNext(nodes, i, names, n);
        assert Reaches(nodes, i, names[..n + 1]);
      }
      StandingIf(nodes, view, c, names[1..], parent);
    }
  }

  lemma {:induction false} StandingReaches(nodes: seq<Node>, view: seq<View>, i: nat, names: seq<string>, parent: bool,
                                           n: nat)
    requires Standing(nodes, view, i, names, parent) && Walkable(nodes) && n <= |names| - Bool(parent && |names| > 0)
    ensures Reaches(nodes, i, names[..n])
    decreases n
  {
    if n > 0 && nodes[i].kind == T_DIR {
      ReachesNext(nodes, i, names, n - 1);
      if Lookup(nodes[i].ents, names[0], 0) != 0 {
        StandingNext(nodes, view, i, names, parent);
        StandingReaches(nodes, view, Lookup(nodes[i].ents, names[0], 0), names[1..], parent, n - 1);
      } else {
        NowhereStays(nodes, names[1..][..n - 1]);
      }
    }
  }

  lemma NowhereStays(nodes: seq<Node>, names: seq<string>)
    requires |nodes| > 0 && nodes[0].kind == 0
    ensures Walk(nodes, 0, names) == 0
  {
  }

  /** Between calls, the walk may stand there exactly if it comes to no freed
      inode: the panic of ilock is all there is to fear (fs.c:295-296). */
  lemma StandingExactly(nodes: seq<Node>, view: seq<View>, i: nat, names: seq<string>, parent: bool)
    requires Settled(nodes, view)
    ensures Standing(nodes, view, i, names, parent) <==> InUse(nodes, i, names, parent)
  {
    InvWalkable(nodes);
    if Standing(nodes, view, i, names, parent) {
      forall n | 0 <= n <= |names| - Bool(parent && |names| > 0) ensures Reaches(nodes, i, names[..n]) {
        StandingReaches(nodes, view, i, names, parent, n);
      }
    }
    if InUse(nodes, i, names, parent) {
      StandingIf(nodes, view, i, names, parent);
    }
  }

  /** From a directory with links any walk is safe. */
  lemma LiveInUse(nodes: seq<Node>, view: seq<View>, i: nat, names: seq<string>, parent: bool)
    requires Settled(nodes, view) && i < |nodes| && nodes[i].nlink > 0
    ensures InUse(nodes, i, names, parent)
  {
    assert Kept(nodes[i], view[i]) && NodeOk(nodes, i);
    StandingExactly(nodes, view, i, names, parent);
  }

  /** More links on a file and more handles do no harm. */
  lemma {:induction false} StandingStays(nodes: seq<Node>, view: seq<View>, nodes': seq<Node>, view': seq<View>, i: nat,
                                         names: seq<string>, parent: bool)
    requires Standing(nodes, view, i, names, parent) && |nodes'| == |nodes| && |view'| == |view|
    requires forall j :: 0 <= j < |nodes| ==>
              nodes'[j].kind == nodes[j].kind && nodes'[j].ents == nodes[j].ents && nodes'[j].nlink >= nodes[j].nlink
    requires forall j :: 0 <= j < |view| ==> view'[j].ref >= view[j].ref
    ensures Standing(nodes', view', i, names, parent)
    decreases |names|
  {
    if nodes[i].nlink <= 0 && GoesOn(nodes, i, names, parent) {
      StandingStays(nodes, view, nodes', view', Lookup(nodes[i].ents, names[0], 0), names[1..], parent);
    }
  }

  /** A process in a removed directory whose parent has been removed too, and
      freed: its ".." is no longer in use. */
  lemma ParentGone() returns (nodes: seq<Node>, view: seq<View>)
    ensures Settled(nodes, view) && |nodes| == 4 && nodes[3].kind == T_DIR && view[3].ref == 1
    ensures Walk(nodes, 3, [".."]) == 2 && nodes[2].kind == 0 && !InUse(nodes, 3, [".."], false)
  {
    nodes := RemovedTwice();
    view := Booted(nodes)[3 := ABSENT.(ref := 1, valid := true)];
    forall i | 0 <= i < |nodes| ensures Kept(nodes[i], view[i]) {
    }
    assert [".."][..1] == [".."];
    assert Lookup(nodes[3].ents, "..", 1) == 2;
    assert [".."][1..] == [];
    assert Walk(nodes, 3, [".."]) == Walk(nodes, 2, []) == 2;
    assert !Reaches(nodes, 3, [".."][..1]);
  }

  lemma {:induction false} LookupAt(ents: seq<Dirent>, name: string, from: nat) returns (k: nat)
    requires from <= |ents| && Lookup(ents, name, from) != 0
    ensures k < |ents| && ents[k].inum == Lookup(ents, name, from) && ents[k].name == name
    decreases |ents| - from
  {
    if ents[from].inum != 0 && ents[from].name == name {
      k := from;
    } else {
      k := LookupAt(ents, name, from + 1);
    }
  }

  /** The handle namex holds between turns of its loop. */
  ghost predicate At(k: Kernel, view0: seq<View>, s: nat, i: nat, rest: seq<string>, parent: bool)
    reads k, k.slots
  {
    && k.Valid() && Took(view0, k.view, i) && i < |k.view| && k.view[i].slot == s
    && Standing(k.nodes, view0, i, rest, parent)
  }

  /** What namex promises when it returns r with handle s. */
  ghost predicate Named(k: Kernel, view0: seq<View>, w: nat, r: Outcome, s: nat)
    reads k, k.slots
  {
    && (r == Panicked ==> forall u :: 0 <= u < k.slots.Length ==> k.slots[u].ref > 0)
    && (r == Failed ==> w == 0 && Took(view0, k.view, -1))
    && (r == Done ==> w != 0 && At(k, view0, s, w, [], false))
  }

  /** One turn of the loop (fs.c:618-639). */
  method Turn(k: Kernel, s: nat, ghost i: nat, path: string, at: nat, parent: bool, ghost view0: seq<View>)
    returns (going: bool, r: Outcome, t: nat, name: string, next: nat, ghost j: nat)
    requires at <= |path| && At(k, view0, s, i, Elements(path, at), parent) && Leads(k.nodes, i)
    modifies k`nodes, k`view, k.slots
    ensures k.Valid() && k.nodes == old(k.nodes) && |k.view| == |old(k.view)| && next <= |path|
    ensures !going ==> Named(k, view0, Target(k.nodes, i, Elements(path, at), parent), r, t)
    ensures !going && parent && r == Done ==> Elements(path, at) == [name]
    ensures !going && r == Panicked ==> Uncached(k.nodes, view0, i, Elements(path, at))
    ensures going && Uncached(k.nodes, view0, j, Elements(path, next)) ==>
              Uncached(k.nodes, view0, i, Elements(path, at))
    ensures going ==> at < next <= |path| && At(k, view0, t, j, Elements(path, next), parent)
    ensures going ==> Target(k.nodes, i, Elements(path, at), parent) == Target(k.nodes, j, Elements(path, next), parent)
    ensures going ==> Elements(path, at) == [name] + Elements(path, next) && !(parent && Elements(path, next) == [])
  {
    ghost var rest := Elements(path, at);
    var more;
    j, t, going := i, s, false;
    more, name, next := Skipelem(path, at);
    if !more {
      r := Done;
      if parent {
        GiveUp(k, s, i, view0);
        r := Failed;
      }
      return;
    }
    if parent && next == |path| {
      r := Stop(k, s, i, view0);
      return;
    }
    r, t := Descend(k, s, i, name, view0);
    assert rest[1..] == Elements(path, next);
    if r == Done {
      StandingNext(k.nodes, view0, i, rest, parent);
      j := Lookup(k.nodes[i].ents, name, 0);
      going := true;
    }
  }

  /** namex: a handle on the inode the path leads to, and no other. */
  method Namex(k: Kernel, cwd: nat, path: string, parent: bool) returns (r: Outcome, s: nat, name: string)
    requires k.Valid() && Walkable(k.nodes) && ROOTINO < |k.nodes|
    requires forall i :: 0 <= i < |k.view| ==> !k.view[i].busy
    requires cwd < k.slots.Length && k.slots[cwd].ref > 0
    requires Standing(k.nodes, k.view, Origin(path, k.slots[cwd].inum), Elements(path, 0), parent)
    modifies k`nodes, k`view, k.slots
    ensures k.Valid() && k.nodes == old(k.nodes) && |k.view| == |old(k.view)|
    ensures "/" <= path ==> Named(k, old(k.view), Target(k.nodes, ROOTINO, Elements(path, 0), parent), r, s)
    ensures !("/" <= path) ==>
              Named(k, old(k.view), Target(k.nodes, old(k.slots[cwd].inum), Elements(path, 0), parent), r, s)
    ensures r == Panicked ==>
              Uncached(k.nodes, old(k.view), if "/" <= path then ROOTINO else old(k.slots[cwd].inum), Elements(path, 0))
    ensures r == Done && parent ==> |Elements(path, 0)| > 0 && name == Elements(path, 0)[|Elements(path, 0)| - 1]
  {
    ghost var view0 := k.view;
    ghost var i0: nat := Origin(path, k.slots[cwd].inum);
    ghost var i := i0;
    ghost var w := Target(k.nodes, i, Elements(path, 0), parent);
    var ok;
    ok, s := StartAt(k, cwd, path);
    if !ok {
      return Panicked, s, "";
    }
    r, name := Done, "";
    var at, going := 0, true;
    while going
      invariant k.Valid() && k.nodes == old(k.nodes) && |k.view| == |view0| && at <= |path|
      invariant going ==> At(k, view0, s, i, Elements(path, at), parent)
      invariant going ==> w == Target(k.nodes, i, Elements(path, at), parent)
      invariant if going then Uncached(k.nodes, view0, i, Elements(path, at)) ==>
                              Uncached(k.nodes, view0, i0, Elements(path, 0))
                else r == Panicked ==> Uncached(k.nodes, view0, i0, Elements(path, 0))
      invariant going && parent ==> SameLast(Elements(path, at), Elements(path, 0))
      invariant !going ==> Named(k, view0, w, r, s)
      invariant !going && parent && r == Done ==> SameLast([name], Elements(path, 0))
      decreases going, |path| - at
    {
      assert Leads(k.nodes, i);
      going, r, s, name, at, i := Turn(k, s, i, path, at, parent, view0);
    }
  }

  predicate SameLast(a: seq<string>, b: seq<string>) {
    |a| > 0 ==> |b| > 0 && a[|a| - 1] == b[|b| - 1]
  }

  function Last(names: seq<string>): string {
    if |names| == 0 then "" else names[|names| - 1]
  }

  /** namex, between system calls. */
  method Name(k: Kernel, cwd: nat, path: string, parent: bool) returns (r: Outcome, s: nat, name: string)
    requires k.Valid() && Settled(k.nodes, k.view) && cwd < k.slots.Length && k.slots[cwd].ref > 0
    requires InUse(k.nodes, Origin(path, k.slots[cwd].inum), Elements(path, 0), parent)
    modifies k`nodes, k`view, k.slots
    ensures k.Valid() && k.nodes == old(k.nodes) && |k.view| == |old(k.view)|
    ensures "/" <= path ==> Named(k, old(k.view), Target(k.nodes, ROOTINO, Elements(path, 0), parent), r, s)
    ensures !("/" <= path) ==>
              Named(k, old(k.view), Target(k.nodes, old(k.slots[cwd].inum), Elements(path, 0), parent), r, s)
    ensures r == Panicked ==>
              Uncached(k.nodes, old(k.view), if "/" <= path then ROOTINO else old(k.slots[cwd].inum), Elements(path, 0))
    ensures r == Done && parent ==> name == Last(Elements(path, 0))
    ensures r != Panicked ==> Settled(k.nodes, k.view)
    ensures r == Failed ==> SameRefs(old(k.view), k.view)
  {
    ghost var view0 := k.view;
    ghost var w: nat := Target(k.nodes, Origin(path, k.slots[cwd].inum), Elements(path, 0), parent);
    InvWalkable(k.nodes);
    StandingIf(k.nodes, k.view, Origin(path, k.slots[cwd].inum), Elements(path, 0), parent);
    forall i | 0 <= i < |k.view| ensures !k.view[i].busy {
      assert Kept(k.nodes[i], k.view[i]);
    }
    r, s, name := Namex(k, cwd, path, parent);
    if r == Done {
      TookSettled(k.nodes, view0, k.view, w);
    } else if r == Failed {
      TookSettled(k.nodes, view0, k.view, -1);
      SameRefsOf(view0, k.view);
    }
  }

  /** A path of names with a slash in front leads from the root, whatever the
      current directory is. */
  lemma AbsolutePath(nodes: seq<Node>, cwd: nat, names: seq<string>)
    requires |names| > 0 && forall k :: 0 <= k < |names| ==> IsName(names[k])
    ensures Target(nodes, Origin(Join(names), cwd), Elements(Join(names), 0), false) == Walk(nodes, ROOTINO, names)
  {
    ElementsOfJoin(names);
    TargetIsWalk(nodes, ROOTINO, names);
  }

  /** Without that slash it leads from the current directory. */
  lemma RelativePath(nodes: seq<Node>, cwd: nat, names: seq<string>)
    requires |names| > 0 && forall k :: 0 <= k < |names| ==> IsName(names[k])
    ensures Target(nodes, Origin(Join(names)[1..], cwd), Elements(Join(names)[1..], 0), false) ==
            Walk(nodes, cwd, names)
  {
    ElementsOfJoin(names);
    var path := Join(names);
    assert path == "/" + path[1..] && path[0] == '/';
    ElementsShift("/", path[1..], 0);
    assert IsName(names[0]) && path[1] == names[0][0];
    TargetIsWalk(nodes, cwd, names);
  }

  lemma {:induction false} TargetIsDir(nodes: seq<Node>, i: nat, names: seq<string>)
    requires Target(nodes, i, names, true) != 0
    ensures Target(nodes, i, names, true) < |nodes| && nodes[Target(nodes, i, names, true)].kind == T_DIR
    decreases |names|
  {
    if |names| > 1 {
      TargetIsDir(nodes, Lookup(nodes[i].ents, names[0], 0), names[1..]);
    }
  }

  /** More links on a file change no walk. */
  lemma {:induction false} TargetSame(nodes: seq<Node>, nodes': seq<Node>, i: nat, names: seq<string>, parent: bool)
    requires |nodes'| == |nodes|
    requires forall j :: 0 <= j < |nodes| ==> nodes'[j].kind == nodes[j].kind && nodes'[j].ents == nodes[j].ents
    ensures Target(nodes', i, names, parent) == Target(nodes, i, names, parent)
    decreases |names|
  {
    if |names| > 0 && i < |nodes| {
      TargetSame(nodes, nodes', Lookup(nodes[i].ents, names[0], 0), names[1..], parent);
    }
  }

  lemma BumpWalkable(nodes: seq<Node>, c: nat)
    requires Walkable(nodes) && c < |nodes| && nodes[c].kind != T_DIR && nodes[c].nlink >= 0
    ensures Walkable(nodes[c := nodes[c].(nlink := nodes[c].nlink + 1)])
  {
    var nodes' := nodes[c := nodes[c].(nlink := nodes[c].nlink + 1)];
    forall d | 0 <= d < |nodes'| ensures Leads(nodes', d) {
      assert Leads(nodes, d);
      if nodes'[d].kind == T_DIR {
        forall k | 0 <= k < |nodes'[d].ents| && nodes'[d].ents[k].inum != 0 ensures EntryLeads(nodes', d, k) {
          assert EntryLeads(nodes, d, k);
        }
      }
    }
  }
}

/** Directories and link counts (fs.c:499-562, sysfile.c:116-281), on the values
    of all inodes: what create, link and unlink do to them, and the invariant
    every operation keeps. */
module Links {
  const T_DIR: nat := 1
  const T_FILE: nat := 2
  const ROOTINO: nat := 1
  const DIRSIZ: nat := 14

  /** A directory entry; inum 0 marks a free one (fs.h:51-54). */
  datatype Dirent = Dirent(inum: nat, name: string)

  /** An inode: kind 0 is a free one; ents is the content of a directory. */
  datatype Node = Node(kind: nat, nlink: int, ents: seq<Dirent>)

  const FREE: Dirent := Dirent(0, "")

  predicate IsDots(name: string) {
    name == "." || name == ".."
  }

  /** Directories that have not been removed. */
  predicate Live(x: Node) {
    x.kind == T_DIR && x.nlink > 0
  }

  /* Counting links. */

  predicate Names(e: Dirent, i: nat) {
    e.inum == i && e.name != "."
  }

  function Bool(b: bool): nat {
    if b then 1 else 0
  }

  /** The entries naming i, "." apart. */
  ghost function CountIn(ents: seq<Dirent>, i: nat): nat {
    if |ents| == 0 then 0 else CountIn(ents[..|ents| - 1], i) + Bool(Names(ents[|ents| - 1], i))
  }

  ghost function From(x: Node, i: nat): nat {
    if Live(x) then CountIn(x.ents, i) else 0
  }

  /** The entries naming i in the first n inodes that are live directories. */
  ghost function LinksTo(nodes: seq<Node>, i: nat, n: nat): nat
    requires n <= |nodes|
  {
    if n == 0 then 0 else LinksTo(nodes, i, n - 1) + From(nodes[n - 1], i)
  }

  lemma {:induction false} CountUpdate(ents: seq<Dirent>, k: nat, e: Dirent, i: nat)
    requires k < |ents|
    ensures CountIn(ents[k := e], i) == CountIn(ents, i) - Bool(Names(ents[k], i)) + Bool(Names(e, i))
  {
    var n := |ents| - 1;
    if k == n {
      assert ents[k := e][..n] == ents[..n];
    } else {
      CountUpdate(ents[..n], k, e, i);
      assert ents[k := e][..n] == ents[..n][k := e];
    }
  }

  lemma CountSnoc(ents: seq<Dirent>, e: Dirent, i: nat)
    ensures CountIn(ents + [e], i) == CountIn(ents, i) + Bool(Names(e, i))
  {
    assert (ents + [e])[..|ents|] == ents;
  }

  lemma {:induction false} CountZero(ents: seq<Dirent>, i: nat)
    ensures CountIn(ents, i) == 0 <==> forall k :: 0 <= k < |ents| ==> !Names(ents[k], i)
  {
    if |ents| > 0 {
      var n := |ents| - 1;
      CountZero(ents[..n], i);
      assert forall k :: 0 <= k < n ==> ents[..n][k] == ents[k];
    }
  }

  lemma {:induction false} LinksUpdate(nodes: seq<Node>, d: nat, x: Node, i: nat, n: nat)
    requires d < |nodes| && n <= |nodes|
    ensures LinksTo(nodes[d := x], i, n) == LinksTo(nodes, i, n) + (if d < n then From(x, i) - From(nodes[d], i) else 0)
  {
    if n > 0 {
      LinksUpdate(nodes, d, x, i, n - 1);
    }
  }

  lemma {:induction false} LinksZero(nodes: seq<Node>, i: nat, n: nat)
    requires n <= |nodes|
    ensures LinksTo(nodes, i, n) == 0 <==> forall d :: 0 <= d < n ==> From(nodes[d], i) == 0
  {
    if n > 0 {
      LinksZero(nodes, i, n - 1);
    }
  }

  lemma {:induction false} LinksAtLeast(nodes: seq<Node>, i: nat, d: nat, n: nat)
    requires d < n <= |nodes|
    ensures LinksTo(nodes, i, n) >= From(nodes[d], i)
  {
    if d < n - 1 {
      LinksAtLeast(nodes, i, d, n - 1);
    }
  }

  lemma {:induction false} LinksAtLeastTwo(nodes: seq<Node>, i: nat, c: nat, d: nat, n: nat)
    requires c < d < n <= |nodes|
    ensures LinksTo(nodes, i, n) >= From(nodes[c], i) + From(nodes[d], i)
  {
    if d < n - 1 {
      LinksAtLeastTwo(nodes, i, c, d, n - 1);
    } else {
      LinksAtLeast(nodes, i, c, d);
    }
  }

  /* The invariant. */

  /** Names are not repeated, and every entry names an inode. */
  predicate EntsOk(ents: seq<Dirent>, n: nat) {
    && (forall k :: 0 <= k < |ents| ==> ents[k].inum < n)
    && (forall k, l :: 0 <= k < l < |ents| && ents[k].inum != 0 && ents[l].inum != 0 ==> ents[k].name != ents[l].name)
  }

  /** "." and ".." come first, which isdirempty relies on. */
  predicate Dotted(ents: seq<Dirent>, d: nat) {
    |ents| >= 2 && d != 0 && ents[0] == Dirent(d, ".") && ents[1].name == ".." && ents[1].inum != 0
  }

  predicate OnlyDots(ents: seq<Dirent>) {
    forall k :: 2 <= k < |ents| ==> ents[k].inum == 0
  }

  predicate NodeOk(nodes: seq<Node>, d: nat)
    requires d < |nodes|
  {
    var x := nodes[d];
    && (x.kind == 0 ==> x.nlink == 0)
    && (x.kind == T_DIR ==> Dotted(x.ents, d) && EntsOk(x.ents, |nodes|) && (x.nlink <= 0 ==> OnlyDots(x.ents)))
  }

  /** A directory named by entry k of p has p for its "..", no other entry of p
      names it, and it is neither p nor the root. */
  predicate ChildOk(nodes: seq<Node>, p: nat, k: nat)
    requires p < |nodes| && 2 <= k < |nodes[p].ents|
  {
    var c := nodes[p].ents[k].inum;
    c != 0 && c < |nodes| && nodes[c].kind == T_DIR ==>
      && c != p && c != ROOTINO && |nodes[c].ents| >= 2 && nodes[c].ents[1].inum == p
      && forall l :: 2 <= l < |nodes[p].ents| && nodes[p].ents[l].inum == c ==> l == k
  }

  predicate Holds(ents: seq<Dirent>, c: nat) {
    exists k :: 2 <= k < |ents| && ents[k].inum == c
  }

  /** A live directory is an entry of the live directory its ".." names; the
      root is its own parent. */
  predicate ParentOk(nodes: seq<Node>, c: nat)
    requires c < |nodes|
  {
    |nodes[c].ents| >= 2 && var p := nodes[c].ents[1].inum;
    && p < |nodes| && Live(nodes[p])
    && (if c == ROOTINO then p == ROOTINO else Holds(nodes[p].ents, c))
  }

  /** k times ".." leads from live directory c, through live ones, to the root. */
  predicate Climbs(nodes: seq<Node>, c: nat, k: nat)
    decreases k
  {
    && c < |nodes| && Live(nodes[c]) && |nodes[c].ents| >= 2
    && if k == 0 then c == ROOTINO else Climbs(nodes, nodes[c].ents[1].inum, k - 1)
  }

  ghost predicate Rooted(nodes: seq<Node>, c: nat) {
    exists k: nat :: Climbs(nodes, c, k)
  }

  ghost predicate Counted(nodes: seq<Node>, i: nat)
    requires i < |nodes|
  {
    nodes[i].nlink == LinksTo(nodes, i, |nodes|)
  }

  ghost predicate TreeOk(nodes: seq<Node>) {
    && ROOTINO < |nodes| && Live(nodes[ROOTINO]) && nodes[0] == Node(0, 0, [])
    && (forall d :: 0 <= d < |nodes| ==> NodeOk(nodes, d))
    && (forall p, k :: 0 <= p < |nodes| && Live(nodes[p]) && 2 <= k < |nodes[p].ents| ==> ChildOk(nodes, p, k))
    && (forall c :: 0 <= c < |nodes| && Live(nodes[c]) ==> ParentOk(nodes, c))
  }

  ghost predicate AllRooted(nodes: seq<Node>) {
    forall c :: 0 <= c < |nodes| && Live(nodes[c]) ==> Rooted(nodes, c)
  }

  /** Every inode's link count is the number of entries naming it, other than
      ".", and the directories form a tree. */
  ghost predicate Inv(nodes: seq<Node>) {
    TreeOk(nodes) && AllRooted(nodes) && forall i :: 1 <= i < |nodes| ==> Counted(nodes, i)
  }

  /** The directory k steps up from c. */
  function Ancestor(nodes: seq<Node>, c: nat, k: nat): nat
    decreases k
  {
    if k == 0 || c >= |nodes| || |nodes[c].ents| < 2 then c else Ancestor(nodes, nodes[c].ents[1].inum, k - 1)
  }

  lemma {:induction false} ClimbsTo(nodes: seq<Node>, c: nat, k: nat)
    requires Climbs(nodes, c, k)
    ensures Ancestor(nodes, c, k) == ROOTINO
    decreases k
  {
    if k > 0 {
      ClimbsTo(nodes, nodes[c].ents[1].inum, k - 1);
    }
  }

  lemma {:induction false} AncestorTwice(nodes: seq<Node>, c: nat, j: nat, k: nat)
    ensures Ancestor(nodes, Ancestor(nodes, c, j), k) == Ancestor(nodes, c, j + k)
    decreases j
  {
    if j > 0 && c < |nodes| && |nodes[c].ents| >= 2 {
      AncestorTwice(nodes, nodes[c].ents[1].inum, j - 1, k);
    }
  }

  lemma {:induction false} RootStays(nodes: seq<Node>, k: nat)
    requires TreeOk(nodes)
    ensures Ancestor(nodes, ROOTINO, k) == ROOTINO
  {
    if k > 0 {
      assert ParentOk(nodes, ROOTINO);
      RootStays(nodes, k - 1);
    }
  }

  lemma {:induction false} CycleRepeats(nodes: seq<Node>, c: nat, k: nat, n: nat)
    requires Ancestor(nodes, c, k) == c
    ensures Ancestor(nodes, c, n * k) == c
  {
    if n > 0 {
      CycleRepeats(nodes, c, k, n - 1);
      AncestorTwice(nodes, c, k, (n - 1) * k);
    }
  }

  lemma MoreSteps(n: nat, k: nat)
    requires k > 0
    ensures n <= n * k
  {
  }

  lemma PastRoot(nodes: seq<Node>, c: nat, n: nat, m: nat)
    requires TreeOk(nodes) && Ancestor(nodes, c, n) == ROOTINO && n <= m
    ensures Ancestor(nodes, c, m) == ROOTINO
  {
    AncestorTwice(nodes, c, n, m - n);
    RootStays(nodes, m - n);
  }

  /** The directories form a tree: from every live one ".." leads to the root, and
      none but the root is above itself. */
  lemma TreeShape(nodes: seq<Node>, c: nat, k: nat)
    requires Inv(nodes) && c < |nodes| && Live(nodes[c]) && k > 0
    ensures exists n: nat :: Ancestor(nodes, c, n) == ROOTINO
    ensures Ancestor(nodes, c, k) == c ==> c == ROOTINO
  {
    assert Rooted(nodes, c);
    var n: nat :| Climbs(nodes, c, n);
    ClimbsTo(nodes, c, n);
    if Ancestor(nodes, c, k) == c {
      CycleRepeats(nodes, c, k, n);
      MoreSteps(n, k);
      PastRoot(nodes, c, n, n * k);
    }
  }

  /** Directories that stay where they are still lead to the root, if gone, the one
      that goes, is above none of them. */
  lemma {:induction false} ClimbsStill(nodes: seq<Node>, nodes': seq<Node>, gone: nat, c: nat, k: nat)
    requires Climbs(nodes, c, k) && c != gone
    requires forall d :: 0 <= d < |nodes| && Live(nodes[d]) && d != gone ==> StaysPut(nodes, nodes', gone, d)
    ensures Climbs(nodes', c, k)
    decreases k
  {
    assert StaysPut(nodes, nodes', gone, c);
    if k > 0 {
      ClimbsStill(nodes, nodes', gone, nodes[c].ents[1].inum, k - 1);
    }
  }

  predicate StaysPut(nodes: seq<Node>, nodes': seq<Node>, gone: nat, d: nat)
    requires d < |nodes|
  {
    && d < |nodes'| && Live(nodes'[d]) && |nodes'[d].ents| >= 2
    && (|nodes[d].ents| >= 2 ==> nodes'[d].ents[1] == nodes[d].ents[1] && nodes[d].ents[1].inum != gone)
  }

  lemma RootedStill(nodes: seq<Node>, nodes': seq<Node>, gone: nat)
    requires AllRooted(nodes) && |nodes'| == |nodes|
    requires forall d :: 0 <= d < |nodes| && Live(nodes[d]) && d != gone ==> StaysPut(nodes, nodes', gone, d)
    ensures forall c :: 0 <= c < |nodes| && Live(nodes[c]) && c != gone ==> Rooted(nodes', c)
  {
    forall c | 0 <= c < |nodes| && Live(nodes[c]) && c != gone ensures Rooted(nodes', c) {
      assert Rooted(nodes, c);
      var k: nat :| Climbs(nodes, c, k);
      ClimbsStill(nodes, nodes', gone, c, k);
    }
  }

  /** The same when no directory goes and none comes. */
  lemma RootedSame(nodes: seq<Node>, nodes': seq<Node>)
    requires TreeOk(nodes) && AllRooted(nodes) && |nodes'| == |nodes|
    requires forall d :: 0 <= d < |nodes| ==> SamePlace(nodes[d], nodes'[d])
    ensures AllRooted(nodes')
  {
    forall d | 0 <= d < |nodes| && Live(nodes[d]) ensures StaysPut(nodes, nodes', |nodes|, d) {
      assert NodeOk(nodes, d) && ParentOk(nodes, d) && SamePlace(nodes[d], nodes'[d]);
    }
    RootedStill(nodes, nodes', |nodes|);
    forall c | 0 <= c < |nodes'| && Live(nodes'[c]) ensures Rooted(nodes', c) {
      assert SamePlace(nodes[c], nodes'[c]);
    }
  }

  predicate SamePlace(x: Node, x': Node) {
    && (Live(x) <==> Live(x'))
    && (Live(x) && |x.ents| >= 2 ==> |x'.ents| >= 2 && x'.ents[1] == x.ents[1])
  }

  /* Looking up and linking (fs.c:508-562). */

  /** Names are compared and stored up to DIRSIZ characters. */
  function Trunc(name: string): string {
    if |name| <= DIRSIZ then name else name[..DIRSIZ]
  }

  predicate HasName(ents: seq<Dirent>, name: string) {
    exists k :: 0 <= k < |ents| && ents[k].inum != 0 && ents[k].name == name
  }

  /** The directory with an entry written over a free one, or at the end. */
  predicate Added(ents: seq<Dirent>, e: Dirent, ents': seq<Dirent>) {
    || ents' == ents + [e]
    || (exists k :: 0 <= k < |ents| && ents[k].inum == 0 && ents' == ents[k := e])
  }

  lemma AddedCount(ents: seq<Dirent>, e: Dirent, ents': seq<Dirent>, i: nat)
    requires Added(ents, e, ents') && i != 0
    ensures CountIn(ents', i) == CountIn(ents, i) + Bool(Names(e, i))
  {
    if ents' == ents + [e] {
      CountSnoc(ents, e, i);
    } else {
      var k :| 0 <= k < |ents| && ents[k].inum == 0 && ents' == ents[k := e];
      CountUpdate(ents, k, e, i);
    }
  }

  /** The added entry is at some place k that held no entry before. */
  lemma AddedAt(ents: seq<Dirent>, e: Dirent, ents': seq<Dirent>) returns (k: nat)
    requires Added(ents, e, ents') && |ents| >= 2 && ents[0].inum != 0 && ents[1].inum != 0
    ensures 2 <= k < |ents'| && ents'[k] == e && |ents| <= |ents'| && (k < |ents| ==> ents[k].inum == 0)
    ensures forall l :: 0 <= l < |ents'| && l != k ==> l < |ents| && ents'[l] == ents[l]
  {
    if ents' == ents + [e] {
      k := |ents|;
    } else {
      k :| 0 <= k < |ents| && ents[k].inum == 0 && ents' == ents[k := e];
    }
  }

  lemma AddedEntsOk(ents: seq<Dirent>, e: Dirent, ents': seq<Dirent>, d: nat, n: nat)
    requires Added(ents, e, ents') && Dotted(ents, d) && EntsOk(ents, n) && e.inum < n && !HasName(ents, e.name)
    ensures Dotted(ents', d) && EntsOk(ents', n) && !IsDots(e.name)
  {
    var k := AddedAt(ents, e, ents');
    assert ents[0].inum != 0 && ents[1].inum != 0;
  }

  /* sys_link (sysfile.c:115-162): a further name for an inode that is not a
     directory. */

  function Linked(nodes: seq<Node>, p: nat, c: nat, ents': seq<Dirent>): seq<Node>
    requires p < |nodes| && c < |nodes|
  {
    nodes[c := nodes[c].(nlink := nodes[c].nlink + 1)][p := nodes[p].(ents := ents')]
  }

  ghost predicate CanLink(nodes: seq<Node>, p: nat, c: nat, name: string, ents': seq<Dirent>) {
    && p < |nodes| && 0 < c < |nodes| && nodes[p].kind == T_DIR
    && nodes[c].kind != 0 && nodes[c].kind != T_DIR
    && !HasName(nodes[p].ents, name) && Added(nodes[p].ents, Dirent(c, name), ents')
  }

  lemma LinkChild(nodes: seq<Node>, p: nat, c: nat, name: string, ents': seq<Dirent>, q: nat, l: nat)
    requires CanLink(nodes, p, c, name, ents') && Dotted(nodes[p].ents, p)
    requires q < |nodes| && 2 <= l < |Linked(nodes, p, c, ents')[q].ents|
    requires l < |nodes[q].ents| ==> ChildOk(nodes, q, l)
    ensures ChildOk(Linked(nodes, p, c, ents'), q, l)
  {
    var k := AddedAt(nodes[p].ents, Dirent(c, name), ents');
  }

  lemma LinkParent(nodes: seq<Node>, p: nat, c: nat, name: string, ents': seq<Dirent>, d: nat)
    requires CanLink(nodes, p, c, name, ents') && Dotted(nodes[p].ents, p) && 0 < d < |nodes| && ParentOk(nodes, d)
    ensures ParentOk(Linked(nodes, p, c, ents'), d)
  {
    var k := AddedAt(nodes[p].ents, Dirent(c, name), ents');
    StillHolds(nodes[p].ents, ents', k, d);
  }

  lemma LinkTree(nodes: seq<Node>, p: nat, c: nat, name: string, ents': seq<Dirent>)
    requires TreeOk(nodes) && CanLink(nodes, p, c, name, ents') && Live(nodes[p])
    ensures TreeOk(Linked(nodes, p, c, ents'))
  {
    var nodes' := Linked(nodes, p, c, ents');
    assert NodeOk(nodes, p);
    forall d | 0 <= d < |nodes'| ensures NodeOk(nodes', d) {
      assert NodeOk(nodes, d);
      if d == p {
        AddedEntsOk(nodes[p].ents, Dirent(c, name), ents', p, |nodes|);
      }
    }
    forall q, l | 0 <= q < |nodes'| && Live(nodes'[q]) && 2 <= l < |nodes'[q].ents| ensures ChildOk(nodes', q, l) {
      assert l < |nodes[q].ents| ==> ChildOk(nodes, q, l);
      LinkChild(nodes, p, c, name, ents', q, l);
    }
    forall d | 0 <= d < |nodes'| && Live(nodes'[d]) ensures ParentOk(nodes', d) {
      assert ParentOk(nodes, d);
      LinkParent(nodes, p, c, name, ents', d);
    }
  }

  lemma LinkRooted(nodes: seq<Node>, p: nat, c: nat, name: string, ents': seq<Dirent>)
    requires TreeOk(nodes) && AllRooted(nodes) && CanLink(nodes, p, c, name, ents') && Live(nodes[p])
    ensures AllRooted(Linked(nodes, p, c, ents'))
  {
    assert NodeOk(nodes, p);
    var k := AddedAt(nodes[p].ents, Dirent(c, name), ents');
    RootedSame(nodes, Linked(nodes, p, c, ents'));
  }

  lemma StillHolds(ents: seq<Dirent>, ents': seq<Dirent>, k: nat, d: nat)
    requires forall l :: 0 <= l < |ents| && l != k ==> l < |ents'| && ents'[l] == ents[l]
    requires k < |ents| ==> ents[k].inum != d
    ensures Holds(ents, d) ==> Holds(ents', d)
  {
    if Holds(ents, d) {
      var l :| 2 <= l < |ents| && ents[l].inum == d;
      assert ents'[l] == ents[l];
    }
  }

  /** How the counts move when p gets the entry and c one more link. */
  lemma LinkCount(nodes: seq<Node>, p: nat, c: nat, name: string, ents': seq<Dirent>, i: nat)
    requires TreeOk(nodes) && CanLink(nodes, p, c, name, ents') && 1 <= i < |nodes|
    ensures LinksTo(Linked(nodes, p, c, ents'), i, |nodes|)
         == LinksTo(nodes, i, |nodes|) + Bool(i == c && Live(nodes[p]))
  {
    assert NodeOk(nodes, p);
    AddedEntsOk(nodes[p].ents, Dirent(c, name), ents', p, |nodes|);
    AddedCount(nodes[p].ents, Dirent(c, name), ents', i);
    var child := nodes[c].(nlink := nodes[c].nlink + 1);
    LinksUpdate(nodes, c, child, i, |nodes|);
    LinksUpdate(nodes[c := child], p, nodes[p].(ents := ents'), i, |nodes|);
  }

  /** A new name keeps the invariant exactly when its directory has not been
      removed. */
  lemma LinkKeeps(nodes: seq<Node>, p: nat, c: nat, name: string, ents': seq<Dirent>)
    requires Inv(nodes) && CanLink(nodes, p, c, name, ents')
    ensures Inv(Linked(nodes, p, c, ents')) <==> nodes[p].nlink > 0
  {
    var nodes' := Linked(nodes, p, c, ents');
    if nodes[p].nlink > 0 {
      LinkTree(nodes, p, c, name, ents');
      LinkRooted(nodes, p, c, name, ents');
      forall i | 1 <= i < |nodes'| ensures Counted(nodes', i) {
        LinkCount(nodes, p, c, name, ents', i);
        assert Counted(nodes, i);
      }
    } else {
      LinkCount(nodes, p, c, name, ents', c);
      assert Counted(nodes, c) && !Counted(nodes', c);
    }
  }

  /* create (sysfile.c:238-281), for a file or device: ialloc, then as link. */

  /** ialloc (fs.c:176-199) takes a free inode, which nothing names. */
  lemma AllocKeeps(nodes: seq<Node>, c: nat, kind: nat)
    requires Inv(nodes) && 0 < c < |nodes| && nodes[c].kind == 0 && kind != T_DIR
    ensures Inv(nodes[c := Node(kind, 0, [])])
  {
    var nodes' := nodes[c := Node(kind, 0, [])];
    assert NodeOk(nodes, c);
    forall d | 0 <= d < |nodes'| ensures NodeOk(nodes', d) {
      assert NodeOk(nodes, d);
    }
    forall q, l | 0 <= q < |nodes'| && Live(nodes'[q]) && 2 <= l < |nodes'[q].ents| ensures ChildOk(nodes', q, l) {
      assert ChildOk(nodes, q, l);
    }
    forall d | 0 <= d < |nodes'| && Live(nodes'[d]) ensures ParentOk(nodes', d) {
      assert ParentOk(nodes, d);
    }
    RootedSame(nodes, nodes');
    forall i | 1 <= i < |nodes'| ensures Counted(nodes', i) {
      LinksUpdate(nodes, c, Node(kind, 0, []), i, |nodes|);
      assert Counted(nodes, i);
    }
  }

  /* create, for a directory. */

  function NewDir(p: nat, c: nat): Node {
    Node(T_DIR, 1, [Dirent(c, "."), Dirent(p, "..")])
  }

  function Made(nodes: seq<Node>, p: nat, c: nat, ents': seq<Dirent>): seq<Node>
    requires p < |nodes| && c < |nodes|
  {
    nodes[c := NewDir(p, c)][p := Node(T_DIR, nodes[p].nlink + 1, ents')]
  }

  ghost predicate CanMake(nodes: seq<Node>, p: nat, c: nat, name: string, ents': seq<Dirent>) {
    && 0 < p < |nodes| && 0 < c < |nodes| && nodes[p].kind == T_DIR && nodes[c].kind == 0
    && !HasName(nodes[p].ents, name) && Added(nodes[p].ents, Dirent(c, name), ents')
  }

  /** No live directory has an entry for an inode with no links, except as "."
      first. */
  lemma NotNamed(nodes: seq<Node>, c: nat, q: nat, l: nat)
    requires Inv(nodes) && 0 < c < |nodes| && nodes[c].nlink == 0
    requires q < |nodes| && Live(nodes[q]) && 1 <= l < |nodes[q].ents|
    ensures nodes[q].ents[l].inum != c
  {
    assert Counted(nodes, c) && NodeOk(nodes, q);
    LinksZero(nodes, c, |nodes|);
    assert From(nodes[q], c) == 0;
    CountZero(nodes[q].ents, c);
    assert !Names(nodes[q].ents[l], c);
  }

  lemma MakeChild(nodes: seq<Node>, p: nat, c: nat, name: string, ents': seq<Dirent>, q: nat, l: nat)
    requires Inv(nodes) && CanMake(nodes, p, c, name, ents') && Live(nodes[p])
    requires q < |nodes| && Live(nodes[q]) && 2 <= l < |Made(nodes, p, c, ents')[q].ents|
    ensures ChildOk(Made(nodes, p, c, ents'), q, l)
  {
    assert NodeOk(nodes, p) && NodeOk(nodes, c);
    var k := AddedAt(nodes[p].ents, Dirent(c, name), ents');
    forall r, m | 0 <= r < |nodes| && Live(nodes[r]) && 2 <= m < |nodes[r].ents| ensures nodes[r].ents[m].inum != c {
      NotNamed(nodes, c, r, m);
    }
    if !(q == p && l == k) {
      assert ChildOk(nodes, q, l);
    }
  }

  lemma MakeParent(nodes: seq<Node>, p: nat, c: nat, name: string, ents': seq<Dirent>, d: nat)
    requires TreeOk(nodes) && CanMake(nodes, p, c, name, ents') && Live(nodes[p])
    requires d < |nodes| && (d == c || Live(nodes[d]))
    ensures ParentOk(Made(nodes, p, c, ents'), d)
  {
    assert NodeOk(nodes, p);
    var k := AddedAt(nodes[p].ents, Dirent(c, name), ents');
    if d == c {
      assert ents'[k].inum == c;
    } else {
      assert ParentOk(nodes, d) && NodeOk(nodes, d);
      StillHolds(nodes[p].ents, ents', k, d);
    }
  }

  lemma MakeTree(nodes: seq<Node>, p: nat, c: nat, name: string, ents': seq<Dirent>)
    requires Inv(nodes) && CanMake(nodes, p, c, name, ents') && Live(nodes[p])
    ensures TreeOk(Made(nodes, p, c, ents'))
  {
    var nodes' := Made(nodes, p, c, ents');
    forall d | 0 <= d < |nodes'| ensures NodeOk(nodes', d) {
      assert NodeOk(nodes, d);
      if d == p {
        AddedEntsOk(nodes[p].ents, Dirent(c, name), ents', p, |nodes|);
      }
    }
    forall q, l | 0 <= q < |nodes'| && Live(nodes'[q]) && 2 <= l < |nodes'[q].ents| ensures ChildOk(nodes', q, l) {
      if q != c {
        MakeChild(nodes, p, c, name, ents', q, l);
      }
    }
    forall d | 0 <= d < |nodes'| && Live(nodes'[d]) ensures ParentOk(nodes', d) {
      MakeParent(nodes, p, c, name, ents', d);
    }
  }

  lemma MakeStays(nodes: seq<Node>, p: nat, c: nat, name: string, ents': seq<Dirent>, d: nat)
    requires TreeOk(nodes) && CanMake(nodes, p, c, name, ents') && Live(nodes[p]) && d < |nodes| && Live(nodes[d])
    ensures StaysPut(nodes, Made(nodes, p, c, ents'), |nodes|, d)
  {
    assert NodeOk(nodes, p) && NodeOk(nodes, d) && ParentOk(nodes, d);
    var k := AddedAt(nodes[p].ents, Dirent(c, name), ents');
  }

  lemma MakeRooted(nodes: seq<Node>, p: nat, c: nat, name: string, ents': seq<Dirent>)
    requires TreeOk(nodes) && AllRooted(nodes) && CanMake(nodes, p, c, name, ents') && Live(nodes[p])
    ensures AllRooted(Made(nodes, p, c, ents'))
  {
    var nodes' := Made(nodes, p, c, ents');
    forall d | 0 <= d < |nodes| && Live(nodes[d]) ensures StaysPut(nodes, nodes', |nodes|, d) {
      MakeStays(nodes, p, c, name, ents', d);
    }
    RootedStill(nodes, nodes', |nodes|);
    assert Rooted(nodes', p);
    var n: nat :| Climbs(nodes', p, n);
    assert Climbs(nodes', c, n + 1);
  }

  /** If p had been removed it comes back with its old "..". */
  lemma MakeCount(nodes: seq<Node>, p: nat, c: nat, name: string, ents': seq<Dirent>, i: nat)
    requires TreeOk(nodes) && CanMake(nodes, p, c, name, ents') && 1 <= i < |nodes| && nodes[p].nlink >= 0
    ensures LinksTo(Made(nodes, p, c, ents'), i, |nodes|)
         == LinksTo(nodes, i, |nodes|) + Bool(i == p) + Bool(i == c)
          + (if Live(nodes[p]) then 0 else CountIn(nodes[p].ents, i))
  {
    assert NodeOk(nodes, p);
    AddedEntsOk(nodes[p].ents, Dirent(c, name), ents', p, |nodes|);
    AddedCount(nodes[p].ents, Dirent(c, name), ents', i);
    CountSnoc([], Dirent(c, "."), i);
    CountSnoc([Dirent(c, ".")], Dirent(p, ".."), i);
    assert [Dirent(c, ".")] + [Dirent(p, "..")] == NewDir(p, c).ents && [] + [Dirent(c, ".")] == [Dirent(c, ".")];
    LinksUpdate(nodes, c, NewDir(p, c), i, |nodes|);
    LinksUpdate(nodes[c := NewDir(p, c)], p, Node(T_DIR, nodes[p].nlink + 1, ents'), i, |nodes|);
  }

  /** A new directory keeps the invariant exactly when its parent has not been
      removed. */
  lemma MakeKeeps(nodes: seq<Node>, p: nat, c: nat, name: string, ents': seq<Dirent>)
    requires Inv(nodes) && CanMake(nodes, p, c, name, ents')
    ensures Inv(Made(nodes, p, c, ents')) <==> nodes[p].nlink > 0
  {
    var nodes' := Made(nodes, p, c, ents');
    assert NodeOk(nodes, p) && NodeOk(nodes, c) && Counted(nodes, p);
    if nodes[p].nlink > 0 {
      MakeTree(nodes, p, c, name, ents');
      MakeRooted(nodes, p, c, name, ents');
      forall i | 1 <= i < |nodes'| ensures Counted(nodes', i) {
        MakeCount(nodes, p, c, name, ents', i);
        assert Counted(nodes, i);
      }
    } else {
      var q := nodes[p].ents[1].inum;
      MakeCount(nodes, p, c, name, ents', q);
      CountZero(nodes[p].ents, q);
      assert Names(nodes[p].ents[1], q);
      assert Counted(nodes, q) && !Counted(nodes', q);
    }
  }

  /* sys_unlink (sysfile.c:181-236). */

  /** The entry is zeroed; the parent of a directory loses its "..". */
  function Unlinked(nodes: seq<Node>, p: nat, k: nat): seq<Node>
    requires p < |nodes| && k < |nodes[p].ents| && nodes[p].ents[k].inum < |nodes|
  {
    var c := nodes[p].ents[k].inum;
    nodes[p := nodes[p].(nlink := nodes[p].nlink - Bool(nodes[c].kind == T_DIR), ents := nodes[p].ents[k := FREE])]
         [c := nodes[c].(nlink := nodes[c].nlink - 1)]
  }

  ghost predicate CanUnlink(nodes: seq<Node>, p: nat, k: nat) {
    && p < |nodes| && nodes[p].kind == T_DIR && k < |nodes[p].ents| && 0 < nodes[p].ents[k].inum < |nodes|
    && !IsDots(nodes[p].ents[k].name)
    && (nodes[nodes[p].ents[k].inum].kind == T_DIR ==> OnlyDots(nodes[nodes[p].ents[k].inum].ents))
  }

  /** What an entry other than "." and ".." tells of its directory and of the
      inode it names. */
  lemma EntryNames(nodes: seq<Node>, p: nat, k: nat)
    requires Inv(nodes) && p < |nodes| && nodes[p].kind == T_DIR && k < |nodes[p].ents|
    requires nodes[p].ents[k].inum != 0 && !IsDots(nodes[p].ents[k].name)
    ensures 2 <= k && Live(nodes[p]) && nodes[p].ents[k].inum < |nodes| && nodes[p].ents[k].inum != p
    ensures nodes[nodes[p].ents[k].inum].nlink >= 1 && nodes[nodes[p].ents[k].inum].kind != 0
  {
    assert NodeOk(nodes, p);
    var c := nodes[p].ents[k].inum;
    assert ChildOk(nodes, p, k) && NodeOk(nodes, c);
    assert Names(nodes[p].ents[k], c);
    CountZero(nodes[p].ents, c);
    LinksAtLeast(nodes, c, p, |nodes|);
    assert Counted(nodes, c);
  }

  lemma UnlinkBasics(nodes: seq<Node>, p: nat, k: nat) returns (c: nat)
    requires Inv(nodes) && CanUnlink(nodes, p, k)
    ensures c == nodes[p].ents[k].inum && 2 <= k && Live(nodes[p]) && c != p && nodes[c].nlink >= 1
    ensures nodes[c].kind == T_DIR ==> c != ROOTINO && Dotted(nodes[c].ents, c) && nodes[c].ents[1].inum == p
  {
    c := nodes[p].ents[k].inum;
    EntryNames(nodes, p, k);
    assert NodeOk(nodes, c) && ChildOk(nodes, p, k);
  }

  lemma CountDots(ents: seq<Dirent>, d: nat, i: nat)
    requires Dotted(ents, d) && OnlyDots(ents) && i != 0
    ensures CountIn(ents, i) == Bool(ents[1].inum == i)
  {
    CountUpdate(ents, 1, FREE, i);
    CountZero(ents[1 := FREE], i);
  }

  /** Nothing hangs on a directory that may be removed. */
  lemma NotAbove(nodes: seq<Node>, c: nat, d: nat)
    requires TreeOk(nodes) && c < |nodes| && d < |nodes| && Live(nodes[d]) && OnlyDots(nodes[c].ents) && c != ROOTINO
    ensures |nodes[d].ents| >= 2 && 0 < nodes[d].ents[1].inum < |nodes| && nodes[d].ents[1].inum != c
  {
    assert NodeOk(nodes, d) && ParentOk(nodes, d);
  }

  lemma DotsElsewhere(nodes: seq<Node>, c: nat, d: nat)
    requires TreeOk(nodes) && c < |nodes| && d < |nodes| && Live(nodes[d]) && OnlyDots(nodes[c].ents) && c != ROOTINO
    ensures |nodes[d].ents| >= 2 && !Names(nodes[d].ents[1], c)
    ensures !Names(nodes[d].ents[0], c)
  {
    assert NodeOk(nodes, d);
    NotAbove(nodes, c, d);
  }

  /** Nothing else names an empty directory: only the entry in its parent. */
  lemma LastLink(nodes: seq<Node>, p: nat, k: nat)
    requires Inv(nodes) && CanUnlink(nodes, p, k) && nodes[nodes[p].ents[k].inum].kind == T_DIR
    ensures nodes[nodes[p].ents[k].inum].nlink == 1
  {
    var c := UnlinkBasics(nodes, p, k);
    var x := nodes[p].(ents := nodes[p].ents[k := FREE]);
    var nodes1 := nodes[p := x];
    LinksUpdate(nodes, p, x, c, |nodes|);
    CountUpdate(nodes[p].ents, k, FREE, c);
    forall d | 0 <= d < |nodes1| ensures From(nodes1[d], c) == 0 {
      NotElsewhere(nodes, p, k, c, d);
    }
    LinksZero(nodes1, c, |nodes|);
    assert Counted(nodes, c);
  }

  /** A directory is named by one entry of one directory, "." and ".." aside. */
  lemma OneName(nodes: seq<Node>, p: nat, k: nat, d: nat, l: nat)
    requires TreeOk(nodes) && p < |nodes| && Live(nodes[p]) && 2 <= k < |nodes[p].ents|
    requires 0 < nodes[p].ents[k].inum < |nodes| && nodes[nodes[p].ents[k].inum].kind == T_DIR
    requires d < |nodes| && Live(nodes[d]) && 2 <= l < |nodes[d].ents|
    ensures nodes[d].ents[l].inum == nodes[p].ents[k].inum ==> d == p && l == k
  {
    assert ChildOk(nodes, p, k) && ChildOk(nodes, d, l);
  }

  lemma NamedOnce(nodes: seq<Node>, p: nat, k: nat, c: nat, d: nat)
    requires TreeOk(nodes) && CanUnlink(nodes, p, k) && 2 <= k && Live(nodes[p]) && c == nodes[p].ents[k].inum
    requires nodes[c].kind == T_DIR && c != ROOTINO && d < |nodes| && Live(nodes[d])
    ensures forall l :: 0 <= l < |nodes[d].ents| && (d == p ==> l != k) ==> !Names(nodes[d].ents[l], c)
  {
    DotsElsewhere(nodes, c, d);
    forall l | 0 <= l < |nodes[d].ents| && (d == p ==> l != k) ensures !Names(nodes[d].ents[l], c) {
      if l >= 2 {
        OneName(nodes, p, k, d, l);
      }
    }
  }

  lemma NotElsewhere(nodes: seq<Node>, p: nat, k: nat, c: nat, d: nat)
    requires TreeOk(nodes) && CanUnlink(nodes, p, k) && 2 <= k && Live(nodes[p]) && c == nodes[p].ents[k].inum
    requires nodes[c].kind == T_DIR && c != ROOTINO && d < |nodes|
    ensures From(if d == p then nodes[p].(ents := nodes[p].ents[k := FREE]) else nodes[d], c) == 0
  {
    if Live(nodes[d]) {
      NamedOnce(nodes, p, k, c, d);
      CountZero(if d == p then nodes[p].ents[k := FREE] else nodes[d].ents, c);
    }
  }

  /** A directory that holds another has a link besides that one's "..". */
  lemma ParentStays(nodes: seq<Node>, p: nat, k: nat)
    requires Inv(nodes) && CanUnlink(nodes, p, k) && nodes[nodes[p].ents[k].inum].kind == T_DIR
    ensures nodes[p].nlink >= 2
  {
    var c := UnlinkBasics(nodes, p, k);
    CountDots(nodes[c].ents, c, p);
    LastLink(nodes, p, k);
    assert NodeOk(nodes, p) && ParentOk(nodes, p) && Counted(nodes, p);
    var q := nodes[p].ents[1].inum;
    assert NodeOk(nodes, q);
    CountZero(nodes[q].ents, p);
    if p == ROOTINO {
      assert Names(nodes[q].ents[1], p);
    } else {
      var l :| 2 <= l < |nodes[q].ents| && nodes[q].ents[l].inum == p;
      assert Names(nodes[q].ents[l], p);
    }
    LinksAtLeastTwo(nodes, p, if c < q then c else q, if c < q then q else c, |nodes|);
  }

  lemma UnlinkChild(nodes: seq<Node>, p: nat, k: nat, q: nat, l: nat)
    requires CanUnlink(nodes, p, k) && 2 <= k && nodes[p].ents[k].inum != p
    requires q < |nodes| && 2 <= l < |nodes[q].ents| && ChildOk(nodes, q, l)
    ensures ChildOk(Unlinked(nodes, p, k), q, l)
  {
    var nodes' := Unlinked(nodes, p, k);
    assert forall d :: 0 <= d < |nodes| && |nodes[d].ents| >= 2 ==> nodes'[d].ents[1] == nodes[d].ents[1];
  }

  lemma UnlinkParent(nodes: seq<Node>, p: nat, k: nat, d: nat)
    requires CanUnlink(nodes, p, k) && 2 <= k && nodes[p].ents[k].inum !in {p, d}
    requires 0 < d < |nodes| && ParentOk(nodes, d)
    requires nodes[nodes[p].ents[k].inum].kind == T_DIR ==> nodes[p].nlink >= 2 && nodes[p].ents[k].inum != ROOTINO
    ensures ParentOk(Unlinked(nodes, p, k), d)
  {
    StillHolds(nodes[p].ents, nodes[p].ents[k := FREE], k, d);
  }

  lemma UnlinkTree(nodes: seq<Node>, p: nat, k: nat)
    requires Inv(nodes) && CanUnlink(nodes, p, k)
    ensures TreeOk(Unlinked(nodes, p, k))
  {
    var c := UnlinkBasics(nodes, p, k);
    var nodes' := Unlinked(nodes, p, k);
    if nodes[c].kind == T_DIR {
      LastLink(nodes, p, k);
      ParentStays(nodes, p, k);
    }
    forall d | 0 <= d < |nodes'| ensures NodeOk(nodes', d) {
      assert NodeOk(nodes, d);
    }
    forall q, l | 0 <= q < |nodes'| && Live(nodes'[q]) && 2 <= l < |nodes'[q].ents| ensures ChildOk(nodes', q, l) {
      assert ChildOk(nodes, q, l);
      UnlinkChild(nodes, p, k, q, l);
    }
    forall d | 0 <= d < |nodes'| && Live(nodes'[d]) ensures ParentOk(nodes', d) {
      assert ParentOk(nodes, d);
      UnlinkParent(nodes, p, k, d);
    }
  }

  lemma UnlinkStays(nodes: seq<Node>, p: nat, k: nat, gone: nat, d: nat)
    requires CanUnlink(nodes, p, k) && 2 <= k && nodes[p].ents[k].inum != p
    requires d < |nodes| && Live(nodes[d]) && d != gone && |nodes[d].ents| >= 2 && nodes[d].ents[1].inum != gone
    requires gone == if nodes[nodes[p].ents[k].inum].kind == T_DIR then nodes[p].ents[k].inum else |nodes|
    requires gone < |nodes| ==> nodes[p].nlink >= 2
    ensures StaysPut(nodes, Unlinked(nodes, p, k), gone, d)
  {
  }

  lemma OthersStay(nodes: seq<Node>, p: nat, k: nat, gone: nat, d: nat)
    requires TreeOk(nodes) && CanUnlink(nodes, p, k) && 2 <= k && nodes[p].ents[k].inum != p
    requires gone == if nodes[nodes[p].ents[k].inum].kind == T_DIR then nodes[p].ents[k].inum else |nodes|
    requires gone < |nodes| ==> nodes[p].nlink >= 2 && gone != ROOTINO
    requires d < |nodes| && Live(nodes[d]) && d != gone
    ensures StaysPut(nodes, Unlinked(nodes, p, k), gone, d)
  {
    if gone < |nodes| {
      NotAbove(nodes, gone, d);
    } else {
      assert NodeOk(nodes, d) && ParentOk(nodes, d);
    }
    UnlinkStays(nodes, p, k, gone, d);
  }

  lemma OthersRooted(nodes: seq<Node>, p: nat, k: nat, gone: nat)
    requires TreeOk(nodes) && AllRooted(nodes) && CanUnlink(nodes, p, k) && 2 <= k && nodes[p].ents[k].inum != p
    requires gone == if nodes[nodes[p].ents[k].inum].kind == T_DIR then nodes[p].ents[k].inum else |nodes|
    requires gone < |nodes| ==> nodes[p].nlink >= 2 && gone != ROOTINO && nodes[gone].nlink == 1
    ensures AllRooted(Unlinked(nodes, p, k))
  {
    var nodes' := Unlinked(nodes, p, k);
    forall d | 0 <= d < |nodes| && Live(nodes[d]) && d != gone ensures StaysPut(nodes, nodes', gone, d) {
      OthersStay(nodes, p, k, gone, d);
    }
    RootedStill(nodes, nodes', gone);
  }

  lemma UnlinkRooted(nodes: seq<Node>, p: nat, k: nat)
    requires Inv(nodes) && CanUnlink(nodes, p, k)
    ensures AllRooted(Unlinked(nodes, p, k))
  {
    var c := UnlinkBasics(nodes, p, k);
    if nodes[c].kind == T_DIR {
      LastLink(nodes, p, k);
      ParentStays(nodes, p, k);
      OthersRooted(nodes, p, k, c);
    } else {
      OthersRooted(nodes, p, k, |nodes|);
    }
  }

  /** What p and the inode named still contribute to the links of i. */
  lemma UnlinkFrom(nodes: seq<Node>, p: nat, k: nat, i: nat)
    requires Inv(nodes) && CanUnlink(nodes, p, k) && 1 <= i < |nodes|
    ensures var c := nodes[p].ents[k].inum;
            && From(Unlinked(nodes, p, k)[p], i) == From(nodes[p], i) - Bool(i == c)
            && From(Unlinked(nodes, p, k)[c], i) == From(nodes[c], i) - Bool(i == p && nodes[c].kind == T_DIR)
  {
    var c := UnlinkBasics(nodes, p, k);
    if nodes[c].kind == T_DIR {
      LastLink(nodes, p, k);
      ParentStays(nodes, p, k);
      CountDots(nodes[c].ents, c, i);
    }
    CountUpdate(nodes[p].ents, k, FREE, i);
  }

  lemma UnlinkCount(nodes: seq<Node>, p: nat, k: nat, i: nat)
    requires Inv(nodes) && CanUnlink(nodes, p, k) && 1 <= i < |nodes|
    ensures LinksTo(Unlinked(nodes, p, k), i, |nodes|) == LinksTo(nodes, i, |nodes|)
         - Bool(i == nodes[p].ents[k].inum) - Bool(i == p && nodes[nodes[p].ents[k].inum].kind == T_DIR)
  {
    var c := UnlinkBasics(nodes, p, k);
    var nodes' := Unlinked(nodes, p, k);
    UnlinkFrom(nodes, p, k, i);
    LinksUpdate(nodes, p, nodes'[p], i, |nodes|);
    LinksUpdate(nodes[p := nodes'[p]], c, nodes'[c], i, |nodes|);
  }

  /** Unlinking keeps the invariant; a directory loses its last link. */
  lemma UnlinkKeeps(nodes: seq<Node>, p: nat, k: nat)
    requires Inv(nodes) && CanUnlink(nodes, p, k)
    ensures Inv(Unlinked(nodes, p, k)) && nodes[p].nlink > 0
    ensures nodes[nodes[p].ents[k].inum].kind == T_DIR ==> Unlinked(nodes, p, k)[nodes[p].ents[k].inum].nlink == 0
  {
    var c := UnlinkBasics(nodes, p, k);
    var nodes' := Unlinked(nodes, p, k);
    UnlinkTree(nodes, p, k);
    UnlinkRooted(nodes, p, k);
    forall i | 1 <= i < |nodes'| ensures Counted(nodes', i) {
      UnlinkCount(nodes, p, k, i);
      assert Counted(nodes, i);
    }
    if nodes[c].kind == T_DIR {
      LastLink(nodes, p, k);
    }
  }

  /** Freeing an inode without links (fs.c:324-336) keeps the invariant. */
  lemma FreeKeeps(nodes: seq<Node>, c: nat)
    requires Inv(nodes) && 0 < c < |nodes| && nodes[c].nlink == 0
    ensures Inv(nodes[c := Node(0, 0, [])])
  {
    var nodes' := nodes[c := Node(0, 0, [])];
    forall d | 0 <= d < |nodes'| ensures NodeOk(nodes', d) {
      assert NodeOk(nodes, d);
    }
    forall q, l | 0 <= q < |nodes'| && Live(nodes'[q]) && 2 <= l < |nodes'[q].ents| ensures ChildOk(nodes', q, l) {
      assert ChildOk(nodes, q, l);
    }
    forall d | 0 <= d < |nodes'| && Live(nodes'[d]) ensures ParentOk(nodes', d) {
      assert ParentOk(nodes, d);
    }
    RootedSame(nodes, nodes');
    forall i | 1 <= i < |nodes'| ensures Counted(nodes', i) {
      LinksUpdate(nodes, c, Node(0, 0, []), i, |nodes|);
      assert Counted(nodes, i);
    }
  }

  /* The first file system (mkfs.c:107-118). */

  function Root(): Node {
    Node(T_DIR, 1, [Dirent(ROOTINO, "."), Dirent(ROOTINO, "..")])
  }

  function FirstNodes(n: nat): seq<Node> {
    seq(n, i => if i == ROOTINO then Root() else Node(0, 0, []))
  }

  /** A root directory alone, whose own ".." is its one link. */
  lemma FirstInv(n: nat)
    requires ROOTINO < n
    ensures Inv(FirstNodes(n))
  {
    var nodes, none := FirstNodes(n), seq(n, i => Node(0, 0, []));
    forall i | 1 <= i < n ensures Counted(nodes, i) {
      assert nodes == none[ROOTINO := Root()];
      LinksUpdate(none, ROOTINO, Root(), i, n);
      LinksZero(none, i, n);
      assert forall d :: 0 <= d < n ==> From(none[d], i) == 0;
      CountSnoc([], Dirent(ROOTINO, "."), i);
      CountSnoc([Dirent(ROOTINO, ".")], Dirent(ROOTINO, ".."), i);
      assert [] + [Dirent(ROOTINO, ".")] == [Dirent(ROOTINO, ".")];
      assert [Dirent(ROOTINO, ".")] + [Dirent(ROOTINO, "..")] == Root().ents;
    }
    assert forall d :: 0 <= d < n ==> NodeOk(nodes, d);
    assert Climbs(nodes, ROOTINO, 0);
  }

  /** With these files (mkfs.c:120-146), numbered from 2 on; names are cut to
      what an entry holds. */
  function FileEntries(names: seq<string>): (ents: seq<Dirent>)
    ensures |ents| == |names|
  {
    seq(|names|, i requires 0 <= i < |names| => Dirent(2 + i, Trunc(names[i])))
  }

  function MkfsNodes(n: nat, names: seq<string>): seq<Node> {
    seq(n, i => if i == ROOTINO then Node(T_DIR, 1, Root().ents + FileEntries(names))
                else if 2 <= i < 2 + |names| then Node(T_FILE, 1, [])
                else Node(0, 0, []))
  }

  /** No two of the names are the same once cut, and none is a dot entry's. */
  predicate NamesApart(names: seq<string>) {
    && (forall i :: 0 <= i < |names| ==> !IsDots(Trunc(names[i])))
    && (forall i, j :: 0 <= i < j < |names| ==> Trunc(names[i]) != Trunc(names[j]))
  }

  /** One more file: ialloc, and an entry in the root directory. */
  lemma OneFile(n: nat, names: seq<string>, name: string)
    requires 2 + |names| < n && Inv(MkfsNodes(n, names)) && NamesApart(names + [name])
    ensures Inv(MkfsNodes(n, names + [name]))
  {
    var nodes, c, all := MkfsNodes(n, names), 2 + |names|, names + [name];
    var ents := nodes[ROOTINO].ents;
    AllocKeeps(nodes, c, T_FILE);
    var nodes1 := nodes[c := Node(T_FILE, 0, [])];
    forall k | 0 <= k < |ents| ensures ents[k].name != Trunc(name) {
      assert !IsDots(Trunc(all[|names|]));
      if k >= 2 {
        assert ents[k] == Dirent(k, Trunc(all[k - 2])) && all[|names|] == name;
      }
    }
    var ents' := ents + [Dirent(c, Trunc(name))];
    LinkKeeps(nodes1, ROOTINO, c, Trunc(name), ents');
    assert FileEntries(all) == FileEntries(names) + [Dirent(c, Trunc(name))];
    assert ents' == Root().ents + FileEntries(all);
    assert Linked(nodes1, ROOTINO, c, ents') == MkfsNodes(n, all);
  }

  lemma {:induction false} FilesInv(n: nat, names: seq<string>)
    requires 2 + |names| <= n && NamesApart(names)
    ensures Inv(MkfsNodes(n, names))
  {
    if |names| == 0 {
      FirstInv(n);
      assert Root().ents + FileEntries(names) == Root().ents;
      assert MkfsNodes(n, names) == FirstNodes(n);
    } else {
      var m := |names| - 1;
      FilesInv(n, names[..m]);
      assert names == names[..m] + [names[m]];
      OneFile(n, names[..m], names[m]);
    }
  }

  /** mkfs checks no name: the image is a good one exactly if they are apart. */
  lemma MkfsInv(n: nat, names: seq<string>)
    requires 2 + |names| <= n
    ensures Inv(MkfsNodes(n, names)) <==> NamesApart(names)
  {
    var nodes := MkfsNodes(n, names);
    if NamesApart(names) {
      FilesInv(n, names);
    }
    if Inv(nodes) {
      assert NodeOk(nodes, ROOTINO);
      EntriesApart(names, n);
    }
  }

  lemma EntriesApart(names: seq<string>, n: nat)
    requires EntsOk(Root().ents + FileEntries(names), n)
    ensures NamesApart(names)
  {
    var ents := Root().ents + FileEntries(names);
    assert forall i :: 0 <= i < |names| ==> ents[i + 2] == Dirent(2 + i, Trunc(names[i]));
    forall i | 0 <= i < |names| ensures !IsDots(Trunc(names[i])) {
      assert ents[0].name != ents[i + 2].name && ents[1].name != ents[i + 2].name;
    }
    forall i, j | 0 <= i < j < |names| ensures Trunc(names[i]) != Trunc(names[j]) {
      assert ents[i + 2].name != ents[j + 2].name;
    }
  }

  /** Free entries at the end of the root directory, as its rounded size leaves
      them (mkfs.c:148-153). */
  function PadRoot(nodes: seq<Node>, m: nat): seq<Node>
    requires ROOTINO < |nodes|
  {
    nodes[ROOTINO := nodes[ROOTINO].(ents := nodes[ROOTINO].ents + seq(m, _ => FREE))]
  }

  lemma {:induction false} CountPad(ents: seq<Dirent>, m: nat, i: nat)
    requires i != 0
    ensures CountIn(ents + seq(m, _ => FREE), i) == CountIn(ents, i)
  {
    if m == 0 {
      assert ents + seq(0, _ => FREE) == ents;
    } else {
      CountPad(ents, m - 1, i);
      CountSnoc(ents + seq(m - 1, _ => FREE), FREE, i);
      assert ents + seq(m, _ => FREE) == ents + seq(m - 1, _ => FREE) + [FREE];
    }
  }

  lemma PadKeeps(nodes: seq<Node>, m: nat)
    requires Inv(nodes)
    ensures Inv(PadRoot(nodes, m))
  {
    var nodes' := PadRoot(nodes, m);
    var ents, ents' := nodes[ROOTINO].ents, nodes'[ROOTINO].ents;
    forall d | 0 <= d < |nodes'| ensures NodeOk(nodes', d) {
      assert NodeOk(nodes, d);
    }
    forall q, l | 0 <= q < |nodes'| && Live(nodes'[q]) && 2 <= l < |nodes'[q].ents| ensures ChildOk(nodes', q, l) {
      if l < |nodes[q].ents| {
        assert ChildOk(nodes, q, l) && NodeOk(nodes, ROOTINO);
      }
    }
    forall d | 0 <= d < |nodes'| && Live(nodes'[d]) ensures ParentOk(nodes', d) {
      assert ParentOk(nodes, d) && NodeOk(nodes, ROOTINO);
      StillHolds(ents, ents', |ents'|, d);
    }
    RootedSame(nodes, nodes');
    forall i | 1 <= i < |nodes'| ensures Counted(nodes', i) {
      assert Counted(nodes, i);
      CountPad(ents, m, i);
      LinksUpdate(nodes, ROOTINO, nodes'[ROOTINO], i, |nodes|);
    }
  }

  /* A directory that is removed while a process is in it. */

  /** The file "f" is made, then the directory "d", which is unlinked again. */
  lemma RemovedDir() returns (nodes: seq<Node>)
    ensures Inv(nodes) && |nodes| == 5 && Live(nodes[ROOTINO]) && nodes[2] == Node(T_FILE, 1, [])
    ensures nodes[0] == nodes[4] == Node(0, 0, [])
    ensures nodes[3] == Node(T_DIR, 0, [Dirent(3, "."), Dirent(ROOTINO, "..")])
  {
    nodes := MkfsNodes(5, ["f"]);
    MkfsInv(5, ["f"]);
    var ents := nodes[ROOTINO].ents;
    assert ents == [Dirent(ROOTINO, "."), Dirent(ROOTINO, ".."), Dirent(2, "f")];
    MakeKeeps(nodes, ROOTINO, 3, "d", ents + [Dirent(3, "d")]);
    nodes := Made(nodes, ROOTINO, 3, ents + [Dirent(3, "d")]);
    assert nodes[ROOTINO].ents[3] == Dirent(3, "d") && OnlyDots(nodes[3].ents);
    UnlinkKeeps(nodes, ROOTINO, 3);
    nodes := Unlinked(nodes, ROOTINO, 3);
  }

  /** The directory "a" is made, then "b" in it; "b" is unlinked, then "a", which
      is freed. */
  lemma RemovedTwice() returns (nodes: seq<Node>)
    ensures Inv(nodes) && |nodes| == 4 && Live(nodes[ROOTINO]) && nodes[0] == nodes[2] == Node(0, 0, [])
    ensures nodes[3] == Node(T_DIR, 0, [Dirent(3, "."), Dirent(2, "..")])
  {
    nodes := MkfsNodes(4, []);
    MkfsInv(4, []);
    var ents := nodes[ROOTINO].ents;
    assert ents == [Dirent(ROOTINO, "."), Dirent(ROOTINO, "..")];
    MakeKeeps(nodes, ROOTINO, 2, "a", ents + [Dirent(2, "a")]);
    nodes := Made(nodes, ROOTINO, 2, ents + [Dirent(2, "a")]);
    MakeKeeps(nodes, 2, 3, "b", nodes[2].ents + [Dirent(3, "b")]);
    nodes := Made(nodes, 2, 3, nodes[2].ents + [Dirent(3, "b")]);
    assert nodes[2].ents[2] == Dirent(3, "b") && OnlyDots(nodes[3].ents);
    UnlinkKeeps(nodes, 2, 2);
    nodes := Unlinked(nodes, 2, 2);
    assert nodes[ROOTINO].ents[2] == Dirent(2, "a") && OnlyDots(nodes[2].ents);
    UnlinkKeeps(nodes, ROOTINO, 2);
    nodes := Unlinked(nodes, ROOTINO, 2);
    FreeKeeps(nodes, 2);
    nodes := nodes[2 := Node(0, 0, [])];
  }

  /** A name made in it for the file counts as a link that nothing leads to. */
  lemma LinkBreaks() returns (nodes: seq<Node>, ents': seq<Dirent>)
    ensures Inv(nodes) && CanLink(nodes, 3, 2, "x", ents') && !Inv(Linked(nodes, 3, 2, ents'))
  {
    nodes := RemovedDir();
    ents' := nodes[3].ents + [Dirent(2, "x")];
    LinkKeeps(nodes, 3, 2, "x", ents');
  }

  /** A directory made in it brings it back, with a ".." its parent has
      forgotten. */
  lemma MakeBreaks() returns (nodes: seq<Node>, ents': seq<Dirent>)
    ensures Inv(nodes) && CanMake(nodes, 3, 4, "x", ents') && !Inv(Made(nodes, 3, 4, ents'))
  {
    nodes := RemovedDir();
    ents' := nodes[3].ents + [Dirent(4, "x")];
    MakeKeeps(nodes, 3, 4, "x", ents');
  }

  /* The width of a link count. */

  ghost function TotalEntries(nodes: seq<Node>, n: nat): nat
    requires n <= |nodes|
  {
    if n == 0 then 0 else TotalEntries(nodes, n - 1) + |nodes[n - 1].ents|
  }

  lemma {:induction false} CountBound(ents: seq<Dirent>, i: nat)
    ensures CountIn(ents, i) <= |ents|
  {
    if |ents| > 0 {
      CountBound(ents[..|ents| - 1], i);
    }
  }

  lemma {:induction false} LinksBound(nodes: seq<Node>, i: nat, n: nat)
    requires n <= |nodes|
    ensures LinksTo(nodes, i, n) <= TotalEntries(nodes, n)
  {
    if n > 0 {
      LinksBound(nodes, i, n - 1);
      CountBound(nodes[n - 1].ents, i);
    }
  }

  /** A link count fits the short it is kept in (fs.h:31) on any disk with room
      for fewer than 32768 entries, such as the 965 data blocks of mkfs.c:16. */
  lemma NlinkFits(nodes: seq<Node>, i: nat)
    requires Inv(nodes) && 1 <= i < |nodes| && TotalEntries(nodes, |nodes|) < 0x8000
    ensures 0 <= nodes[i].nlink < 0x8000
  {
    assert Counted(nodes, i);
    LinksBound(nodes, i, |nodes|);
  }
}

/** Path names (fs.c:564-654): skipelem and the walk of namex. */
module Paths {
  import opened Links

  /* Splitting a path. */

  /** The end of the element that starts at a place. */
  function WordEnd(path: string, at: nat): (e: nat)
    requires at <= |path|
    ensures at <= e <= |path| && (e < |path| ==> path[e] == '/') && forall k :: at <= k < e ==> path[k] != '/'
    decreases |path| - at
  {
    if at == |path| || path[at] == '/' then at else WordEnd(path, at + 1)
  }

  /** The elements of a path from a place on. */
  function Elements(path: string, at: nat): seq<string>
    requires at <= |path|
    decreases |path| - at
  {
    if at == |path| then []
    else if path[at] == '/' then Elements(path, at + 1)
    else [Trunc(path[at..WordEnd(path, at)])] + Elements(path, WordEnd(path, at))
  }

  lemma {:induction false} WordEndIs(path: string, at: nat, e: nat)
    requires at <= e <= |path| && (e < |path| ==> path[e] == '/') && forall k :: at <= k < e ==> path[k] != '/'
    ensures WordEnd(path, at) == e
    decreases e - at
  {
    if at < e {
      WordEndIs(path, at + 1, e);
    }
  }

  /** skipelem (fs.c:579-602): the next element, and where the one after it
      starts; not at a slash, so the end of the path is the end of its
      elements. */
  method Skipelem(path: string, at: nat) returns (more: bool, name: string, next: nat)
    requires at <= |path|
    ensures at <= next <= |path| && (more ==> at < next)
    ensures Elements(path, at) == if more then [name] + Elements(path, next) else []
    ensures more ==> Trunc(name) == name && (next == |path| <==> Elements(path, next) == [])
  {
    next := at;
    while next < |path| && path[next] == '/'
      invariant at <= next <= |path| && Elements(path, at) == Elements(path, next)
    {
      next := next + 1;
    }
    if next == |path| {
      return false, "", next;
    }
    var s := next;
    while next < |path| && path[next] != '/'
      invariant s <= next <= |path| && forall k :: s <= k < next ==> path[k] != '/'
    {
      next := next + 1;
    }
    WordEndIs(path, s, next);
    name := if next - s >= DIRSIZ then path[s..s + DIRSIZ] else path[s..next];
    assert next - s >= DIRSIZ ==> path[s..next][..DIRSIZ] == path[s..s + DIRSIZ];
    assert name == Trunc(path[s..next]);
    ghost var end := next;
    while next < |path| && path[next] == '/'
      invariant end <= next <= |path| && Elements(path, end) == Elements(path, next)
    {
      next := next + 1;
    }
    return true, name, next;
  }

  /* Writing a path, and reading it back. */

  function Join(names: seq<string>): string {
    if |names| == 0 then "" else "/" + names[0] + Join(names[1..])
  }

  predicate IsName(name: string) {
    0 < |name| <= DIRSIZ && forall k :: 0 <= k < |name| ==> name[k] != '/'
  }

  lemma {:induction false} ElementsShift(a: string, b: string, at: nat)
    requires at <= |b|
    ensures Elements(a + b, |a| + at) == Elements(b, at)
    decreases |b| - at
  {
    var c := a + b;
    if at < |b| {
      assert c[|a| + at] == b[at];
      if b[at] == '/' {
        ElementsShift(a, b, at + 1);
      } else {
        var e := WordEnd(b, at);
        forall k | |a| + at <= k < |a| + e ensures c[k] != '/' {
          assert c[k] == b[k - |a|];
        }
        WordEndIs(c, |a| + at, |a| + e);
        assert c[|a| + at..|a| + e] == b[at..e];
        ElementsShift(a, b, e);
      }
    }
  }

  /** Any names, written as a path, are its elements, each cut to its first
      fourteen characters. */
  lemma {:induction false} ElementsOfAny(names: seq<string>)
    requires forall k :: 0 <= k < |names| ==> |names[k]| > 0 && '/' !in names[k]
    ensures |Elements(Join(names), 0)| == |names|
    ensures forall k :: 0 <= k < |names| ==>
              Elements(Join(names), 0)[k] == if |names[k]| > 14 then names[k][..14] else names[k]
  {
    if |names| > 0 {
      ElementsOfAny(names[1..]);
      var a, b := "/" + names[0], Join(names[1..]);
      var c := a + b;
      assert Join(names) == c && |names[0]| > 0;
      assert forall k :: 1 <= k < |a| ==> c[k] == names[0][k - 1];
      assert |names| > 1 ==> b[0] == '/';
      assert |names| == 1 ==> b == "";
      WordEndIs(c, 1, |a|);
      assert c[1..|a|] == names[0];
      ElementsShift(a, b, 0);
      assert Elements(c, 0) == Elements(c, 1) == [Trunc(names[0])] + Elements(c, |a|);
    }
  }

  /** Names that fit an entry are the elements themselves. */
  lemma ElementsOfJoin(names: seq<string>)
    requires forall k :: 0 <= k < |names| ==> IsName(names[k])
    ensures Elements(Join(names), 0) == names
  {
    assert forall k :: 0 <= k < |names| ==> IsName(names[k]);
    ElementsOfAny(names);
  }

  /* Walking a path. */

  /** The inode an entry gives for a name, from place k of the directory on; 0
      when there is none. */
  function Lookup(ents: seq<Dirent>, name: string, k: nat): nat
    requires k <= |ents|
    decreases |ents| - k
  {
    if k == |ents| then 0
    else if ents[k].inum != 0 && ents[k].name == name then ents[k].inum
    else Lookup(ents, name, k + 1)
  }

  /** The inode a list of names leads to; 0 when it leads nowhere. */
  function Walk(nodes: seq<Node>, i: nat, names: seq<string>): nat
    decreases |names|
  {
    if |names| == 0 then i
    else if i >= |nodes| || nodes[i].kind != T_DIR then 0
    else Walk(nodes, Lookup(nodes[i].ents, names[0], 0), names[1..])
  }

  /** A path walked in two parts. */
  lemma {:induction false} WalkParts(nodes: seq<Node>, i: nat, a: seq<string>, b: seq<string>)
    requires |nodes| > 0 ==> nodes[0].kind != T_DIR
    ensures Walk(nodes, i, a + b) == Walk(nodes, Walk(nodes, i, a), b)
    decreases |a|
  {
    if |a| == 0 {
      assert a + b == b;
    } else {
      assert (a + b)[1..] == a[1..] + b;
      if i < |nodes| && nodes[i].kind == T_DIR {
        WalkParts(nodes, Lookup(nodes[i].ents, a[0], 0), a[1..], b);
      }
    }
  }

  lemma {:induction false} LookupEntry(ents: seq<Dirent>, n: nat, k: nat, from: nat)
    requires EntsOk(ents, n) && from <= k < |ents| && ents[k].inum != 0
    ensures Lookup(ents, ents[k].name, from) == ents[k].inum
    decreases k - from
  {
    if from < k {
      LookupEntry(ents, n, k, from + 1);
    }
  }

  /** An entry's name leads from its directory to its inode, and ".." leads back
      from there if that is a directory; "." leads nowhere else. */
  lemma DownAndUp(nodes: seq<Node>, d: nat, k: nat)
    requires Inv(nodes) && d < |nodes| && Live(nodes[d]) && 2 <= k < |nodes[d].ents| && nodes[d].ents[k].inum != 0
    ensures Walk(nodes, d, [nodes[d].ents[k].name]) == nodes[d].ents[k].inum < |nodes| && Walk(nodes, d, ["."]) == d
    ensures nodes[nodes[d].ents[k].inum].kind == T_DIR ==> Walk(nodes, d, [nodes[d].ents[k].name, ".."]) == d
  {
    var name, c := nodes[d].ents[k].name, nodes[d].ents[k].inum;
    assert NodeOk(nodes, d);
    LookupEntry(nodes[d].ents, |nodes|, k, 0);
    LookupEntry(nodes[d].ents, |nodes|, 0, 0);
    assert [name][1..] == [] && ["."][1..] == [];
    if nodes[c].kind == T_DIR {
      assert ChildOk(nodes, d, k) && NodeOk(nodes, c);
      LookupEntry(nodes[c].ents, |nodes|, 1, 0);
      assert [name, ".."][1..] == [".."] && [".."][1..] == [];
    }
  }

  /** What namex returns: the inode itself, or the directory that holds the last
      name. */
  function Target(nodes: seq<Node>, i: nat, names: seq<string>, parent: bool): nat
    decreases |names|
  {
    if |names| == 0 then (if parent then 0 else i)
    else if i >= |nodes| || nodes[i].kind != T_DIR then 0
    else if parent && |names| == 1 then i
    else Target(nodes, Lookup(nodes[i].ents, names[0], 0), names[1..], parent)
  }

  lemma {:induction false} TargetIsWalk(nodes: seq<Node>, i: nat, names: seq<string>)
    ensures Target(nodes, i, names, false) == Walk(nodes, i, names)
    ensures |names| > 0 ==> var w := Walk(nodes, i, names[..|names| - 1]);
                            Target(nodes, i, names, true) == if w < |nodes| && nodes[w].kind == T_DIR then w else 0
    ensures |names| == 0 ==> Target(nodes, i, names, true) == 0
    decreases |names|
  {
    if |names| > 0 && i < |nodes| && nodes[i].kind == T_DIR {
      var c := Lookup(nodes[i].ents, names[0], 0);
      TargetIsWalk(nodes, c, names[1..]);
      if |names| > 1 {
        assert names[..|names| - 1][1..] == names[1..][..|names| - 2];
      }
    } else if |names| > 1 {
      assert names[..|names| - 1][0] == names[0];
    }
  }

  /** One directory's entries lead to inodes in use; a removed one leads only
      to itself or up. */
  predicate Leads(nodes: seq<Node>, d: nat)
    requires d < |nodes|
  {
    nodes[d].kind == T_DIR ==>
      forall k :: 0 <= k < |nodes[d].ents| && nodes[d].ents[k].inum != 0 ==> EntryLeads(nodes, d, k)
  }

  predicate EntryLeads(nodes: seq<Node>, d: nat, k: nat)
    requires d < |nodes| && k < |nodes[d].ents|
  {
    var c := nodes[d].ents[k].inum;
    && c < |nodes|
    && (nodes[d].nlink > 0 ==> nodes[c].kind != 0 && nodes[c].nlink > 0)
    && (nodes[d].nlink <= 0 ==> c == d || nodes[d].ents[k].name == "..")
  }

  ghost predicate Walkable(nodes: seq<Node>) {
    forall d :: 0 <= d < |nodes| ==> Leads(nodes, d)
  }

  lemma InvWalkable(nodes: seq<Node>)
    requires Inv(nodes)
    ensures Walkable(nodes)
  {
    forall d, k | 0 <= d < |nodes| && nodes[d].kind == T_DIR && 0 <= k < |nodes[d].ents| && nodes[d].ents[k].inum != 0
      ensures EntryLeads(nodes, d, k)
    {
      InvLeads(nodes, d, k);
    }
    forall d | 0 <= d < |nodes| ensures Leads(nodes, d) {
    }
  }

  lemma InvLeads(nodes: seq<Node>, d: nat, k: nat)
    requires Inv(nodes) && d < |nodes| && nodes[d].kind == T_DIR && k < |nodes[d].ents| && nodes[d].ents[k].inum != 0
    ensures EntryLeads(nodes, d, k)
  {
    assert NodeOk(nodes, d);
    var c := nodes[d].ents[k].inum;
    if k > 0 && nodes[d].nlink > 0 {
      assert NodeOk(nodes, c) && Counted(nodes, c);
      CountZero(nodes[d].ents, c);
      assert Names(nodes[d].ents[k], c);
      LinksAtLeast(nodes, c, d, |nodes|);
    }
  }
}

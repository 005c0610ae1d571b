/** Path lookup and creation on the node tree of kernel/fs.c: a path is the list of its pieces between slashes,
    and creating a node changes what is found under its parent and name, and nothing else. */
module Vfs {
  import opened Lists
  import opened Strtok

  type Bytes = seq<bv8>

  // vfs_node_t. A node is named by its address; 0 is the null pointer. data is private_data with size bytes.
  datatype Node = Node(name: string, mode: nat, data: Option<Bytes>, parent: nat, children: nat, next: nat)
  type Nodes = map<nat, Node>
  type Kids = map<nat, seq<nat>>

  const S_IFDIR: nat := 0x4000
  const S_IFREG: nat := 0x8000

  predicate IsDir(mode: nat) { mode / S_IFDIR % 2 == 1 }

  // strncpy pads without end once the source fills the space, so a path has at most 510 characters and a name 254.
  const PATH_MAX: nat := 510
  const NAME_MAX: nat := 254

  // ----- The tree -----

  ghost predicate Chain(mem: Nodes, head: nat, q: seq<nat>) {
    head == At(q, 0) && forall i :: 0 <= i < |q| ==> q[i] in mem && q[i] != 0 && mem[q[i]].next == At(q, i + 1)
  }

  // strcmp along the list: the first child of that name, 0 if there is none.
  function Find(mem: Nodes, q: seq<nat>, name: string): (c: nat)
    requires forall i :: 0 <= i < |q| ==> q[i] in mem
    ensures c != 0 ==> c in q && c in mem && mem[c].name == name
  {
    if q == [] then 0 else if mem[q[0]].name == name then q[0] else Find(mem, q[1..], name)
  }

  lemma {:induction false} FindFirst(mem: Nodes, q: seq<nat>, name: string, i: nat)
    requires forall k :: 0 <= k < |q| ==> q[k] in mem
    requires i <= |q| && forall k :: 0 <= k < i ==> mem[q[k]].name != name
    ensures i == |q| ==> Find(mem, q, name) == 0
    ensures i < |q| && mem[q[i]].name == name ==> Find(mem, q, name) == q[i]
  {
    if i > 0 { FindFirst(mem, q[1..], name, i - 1); }
  }

  ghost predicate Sound(mem: Nodes, kids: Kids) {
    0 !in mem && kids.Keys == mem.Keys && forall p, i :: p in kids && 0 <= i < |kids[p]| ==> kids[p][i] in mem
  }

  // The component walk.
  ghost function Walk(mem: Nodes, kids: Kids, n: nat, pieces: seq<string>): (r: nat)
    requires Sound(mem, kids) && n in mem
    ensures r != 0 ==> r in mem
    decreases |pieces|
  {
    if pieces == [] then n
    else
      var c := Find(mem, kids[n], pieces[0]);
      if c == 0 then 0 else Walk(mem, kids, c, pieces[1..])
  }

  function PathPieces(path: string): seq<string> { Pieces(path, "/") }

  ghost function Lookup(mem: Nodes, kids: Kids, root: nat, path: string): (r: nat)
    requires Sound(mem, kids) && root in mem
    ensures r != 0 ==> r in mem
  {
    if path == "" || path[0] != '/' then 0 else Walk(mem, kids, root, PathPieces(path))
  }

  // Repeated and trailing slashes do not matter to a lookup.
  lemma SlashesDoNotMatter(mem: Nodes, kids: Kids, root: nat, a: string, b: string)
    requires Sound(mem, kids) && root in mem
    ensures Lookup(mem, kids, root, "/" + (a + ("/" + ("/" + b)))) == Lookup(mem, kids, root, "/" + (a + ("/" + b)))
    ensures Lookup(mem, kids, root, "/" + (a + ("/" + ""))) == Lookup(mem, kids, root, "/" + a)
  {
    Leading(a + ("/" + ("/" + b)));
    Leading(a + ("/" + b));
    Leading(a + ("/" + ""));
    Leading(a);
    Leading(b);
    PiecesConcat(a, '/', "/" + b, "/");
    PiecesConcat(a, '/', b, "/");
    PiecesConcat(a, '/', "", "/");
    assert Pieces(a, "/") + [] == Pieces(a, "/");
  }

  lemma Leading(a: string)
    ensures PathPieces("/" + a) == PathPieces(a)
  {
  }

  // A lookup goes through any prefix of its components.
  lemma {:induction false} WalkConcat(mem: Nodes, kids: Kids, n: nat, a: seq<string>, b: seq<string>)
    requires Sound(mem, kids) && n in mem
    ensures var m := Walk(mem, kids, n, a); Walk(mem, kids, n, a + b) == if m == 0 then 0 else Walk(mem, kids, m, b)
    decreases |a|
  {
    if a == [] {
      assert a + b == b;
    } else {
      assert (a + b)[1..] == a[1..] + b;
      var c := Find(mem, kids[n], a[0]);
      if c != 0 { WalkConcat(mem, kids, c, a[1..], b); }
    }
  }

  // A path is absolute; "/" is the root, and each component leads to the first child of that name. With the slashes
  // that do not matter this determines every lookup.
  lemma LookupIs(mem: Nodes, kids: Kids, root: nat, path: string, name: string)
    requires Sound(mem, kids) && root in mem && name != "" && forall i :: 0 <= i < |name| ==> name[i] != '/'
    ensures (path == "" || path[0] != '/') ==> Lookup(mem, kids, root, path) == 0
    ensures Lookup(mem, kids, root, "/") == root
    ensures path != "" && path[0] == '/' ==>
      var n := Lookup(mem, kids, root, path);
      Lookup(mem, kids, root, path + ("/" + name)) == if n == 0 then 0 else Find(mem, kids[n], name)
  {
    Leading("");
    if path != "" && path[0] == '/' {
      PiecesConcat(path, '/', name, "/");
      PieceAlone(name, "/");
      WalkConcat(mem, kids, root, PathPieces(path), [name]);
      var n := Lookup(mem, kids, root, path);
      if n != 0 { WalkStep(mem, kids, n, name, []); }
    }
  }

  // ----- Creation -----

  // The memory and the child lists after a new node was put at the front of the children of p.
  function Added(mem: Nodes, p: nat, node: nat, name: string, mode: nat): Nodes
    requires p in mem
  {
    mem[node := Node(name, mode, None, p, 0, mem[p].children)]
       [p := mem[p].(children := node)]
  }

  function AddedKids(kids: Kids, p: nat, node: nat): Kids
    requires p in kids
  {
    kids[node := []][p := [node] + kids[p]]
  }

  // The new node, its place at the front of the children of p, and that nothing else changed.
  ghost predicate NewChild(mem: Nodes, kids: Kids, m: Nodes, k: Kids, p: nat, node: nat, name: string, mode: nat) {
    && p in mem && p in m && p in kids && node in m && m.Keys == mem.Keys + {node} && node !in mem && node != 0
    && m[node].name == name && m[node].mode == mode && m[node].data == None && m[node].parent == p
    && m[node].children == 0 && m[node].next == mem[p].children && m[p] == mem[p].(children := node)
    && (forall n :: n in mem && n != p ==> n in m && m[n] == mem[n])
    && k == kids[node := []][p := [node] + kids[p]]
  }

  lemma AddedIs(mem: Nodes, kids: Kids, p: nat, node: nat, name: string, mode: nat)
    requires p in mem && p in kids && node !in mem && node != 0
    ensures NewChild(mem, kids, Added(mem, p, node, name, mode), AddedKids(kids, p, node), p, node, name, mode)
  {
  }

  // Where a path first steps from p to name, if it does.
  ghost function Through(mem: Nodes, kids: Kids, n: nat, pieces: seq<string>, p: nat, name: string): (r: Option<nat>)
    requires Sound(mem, kids) && n in mem
    ensures r.Some? ==> r.value < |pieces| && pieces[r.value] == name && Walk(mem, kids, n, pieces[..r.value]) == p
    decreases |pieces|
  {
    if pieces == [] then None
    else if n == p && pieces[0] == name then Some(0)
    else
      var c := Find(mem, kids[n], pieces[0]);
      if c == 0 then None
      else
        var rest := Through(mem, kids, c, pieces[1..], p, name);
        if rest.None? then None
        else
          assert pieces[..rest.value + 1][1..] == pieces[1..][..rest.value];
          Some(rest.value + 1)
  }

  lemma AddedIsSound(mem: Nodes, kids: Kids, p: nat, node: nat, name: string, mode: nat)
    requires Sound(mem, kids) && p in mem && node !in mem && node != 0
    ensures Sound(Added(mem, p, node, name, mode), AddedKids(kids, p, node))
  {
  }

  lemma {:induction false} FindSame(mem: Nodes, m: Nodes, q: seq<nat>, name: string)
    requires forall i :: 0 <= i < |q| ==> q[i] in mem && q[i] in m && m[q[i]].name == mem[q[i]].name
    ensures Find(m, q, name) == Find(mem, q, name)
  {
    if q != [] { FindSame(mem, m, q[1..], name); }
  }

  // What a search finds after the creation: the new node from p under its name, else what it found before.
  lemma AddedFind(mem: Nodes, kids: Kids, p: nat, node: nat, name: string, mode: nat, m: Nodes, k: Kids, n: nat,
                  piece: string)
    requires Sound(mem, kids) && p in mem && node !in mem && node != 0 && n in mem
    requires m == Added(mem, p, node, name, mode) && k == AddedKids(kids, p, node) && Sound(m, k)
    ensures Find(m, k[n], piece) == if n == p && piece == name then node else Find(mem, kids[n], piece)
  {
    assert forall i :: 0 <= i < |kids[n]| ==> kids[n][i] in mem;
    FindSame(mem, m, kids[n], piece);
    if n == p { assert k[n][1..] == kids[n]; }
  }

  // After fs_create a path leads where it led before, unless it steps from the parent to the new name: then it
  // leads to the new node if it ends there, and nowhere if it goes on.
  lemma {:induction false} AddedWalk(mem: Nodes, kids: Kids, p: nat, node: nat, name: string, mode: nat, m: Nodes,
                                     k: Kids, n: nat, pieces: seq<string>)
    requires Sound(mem, kids) && p in mem && node !in mem && node != 0 && n in mem
    requires m == Added(mem, p, node, name, mode) && k == AddedKids(kids, p, node) && Sound(m, k)
    ensures var at := Through(mem, kids, n, pieces, p, name);
      Walk(m, k, n, pieces) ==
        if at.None? then Walk(mem, kids, n, pieces) else if at.value == |pieces| - 1 then node else 0
    decreases |pieces|
  {
    if pieces != [] {
      AddedFind(mem, kids, p, node, name, mode, m, k, n, pieces[0]);
      if n == p && pieces[0] == name {
        if |pieces| > 1 { assert Find(m, k[node], pieces[1..][0]) == 0; }
      } else {
        var c := Find(mem, kids[n], pieces[0]);
        if c != 0 { AddedWalk(mem, kids, p, node, name, mode, m, k, c, pieces[1..]); }
      }
    }
  }

  // The last slash of a path splits off its last component.
  lemma LastSlash(path: string, i: nat)
    requires i < |path| && path[i] == '/' && forall k :: i < k < |path| ==> path[k] != '/'
    ensures PathPieces(path) == PathPieces(path[..i]) + if path[i + 1..] == "" then [] else [path[i + 1..]]
  {
    assert path == path[..i] + ("/" + path[i + 1..]);
    PiecesConcat(path[..i], '/', path[i + 1..], "/");
    PieceAlone(path[i + 1..], "/");
  }

  // rank grows from parent to child: no node is below itself.
  ghost predicate Ranked(kids: Kids, rank: map<nat, nat>) {
    kids.Keys <= rank.Keys && forall p, c :: p in kids && c in kids[p] && c in rank ==> rank[p] < rank[c]
  }

  lemma {:induction false} WalkDown(mem: Nodes, kids: Kids, rank: map<nat, nat>, n: nat, pieces: seq<string>, r: nat)
    requires Sound(mem, kids) && Ranked(kids, rank) && n in mem && r == Walk(mem, kids, n, pieces) && r != 0
    requires pieces != []
    ensures r in rank && rank[n] < rank[r]
    decreases |pieces|
  {
    var c := Find(mem, kids[n], pieces[0]);
    if |pieces| > 1 {
      WalkDown(mem, kids, rank, c, pieces[1..], r);
    } else {
      assert pieces[1..] == [];
    }
  }

  lemma {:induction false} ThroughEnd(mem: Nodes, kids: Kids, rank: map<nat, nat>, n: nat, pieces: seq<string>,
                                      p: nat, name: string)
    requires Sound(mem, kids) && Ranked(kids, rank) && n in mem && Walk(mem, kids, n, pieces) == p && p != 0
    ensures Through(mem, kids, n, pieces + [name], p, name) == Some(|pieces|)
    decreases |pieces|
  {
    if pieces == [] {
      assert pieces + [name] == [name];
    } else {
      WalkDown(mem, kids, rank, n, pieces, p);
      assert (pieces + [name])[0] == pieces[0] && (pieces + [name])[1..] == pieces[1..] + [name];
      ThroughEnd(mem, kids, rank, Find(mem, kids[n], pieces[0]), pieces[1..], p, name);
    }
  }

  // ----- The memory of nodes -----

  ghost predicate Tree(mem: Nodes, kids: Kids, rank: map<nat, nat>) {
    && Sound(mem, kids) && Ranked(kids, rank)
    && forall p {:trigger Chain(mem, mem[p].children, kids[p])} :: p in kids ==> Chain(mem, mem[p].children, kids[p])
  }

  lemma AddedIsRanked(kids: Kids, rank: map<nat, nat>, p: nat, node: nat)
    requires Ranked(kids, rank) && p in kids && node !in kids && forall q, c :: q in kids && c in kids[q] ==> c in kids
    ensures Ranked(AddedKids(kids, p, node), rank[node := rank[p] + 1])
  {
  }

  lemma AddedChain(mem: Nodes, kids: Kids, p: nat, node: nat, name: string, mode: nat, m: Nodes, q: nat)
    requires p in mem && p in kids && node !in mem && node != 0 && m == Added(mem, p, node, name, mode)
    requires q in mem && q in kids && Chain(mem, mem[q].children, kids[q]) && Chain(mem, mem[p].children, kids[p])
    ensures Chain(m, m[q].children, if q == p then [node] + kids[p] else kids[q])
  {
  }

  lemma AddedIsTree(mem: Nodes, kids: Kids, rank: map<nat, nat>, p: nat, node: nat, name: string, mode: nat,
                    m: Nodes, k: Kids)
    requires Tree(mem, kids, rank) && p in mem && node !in mem && node != 0
    requires m == Added(mem, p, node, name, mode) && k == AddedKids(kids, p, node)
    ensures Tree(m, k, rank[node := rank[p] + 1])
  {
    AddedIsSound(mem, kids, p, node, name, mode);
    forall q, c | q in kids && c in kids[q] ensures c in kids {
      var i :| 0 <= i < |kids[q]| && kids[q][i] == c;
    }
    AddedIsRanked(kids, rank, p, node);
    forall q | q in k ensures Chain(m, m[q].children, k[q]) {
      if q != node {
        assert Chain(mem, mem[q].children, kids[q]) && Chain(mem, mem[p].children, kids[p]);
        AddedChain(mem, kids, p, node, name, mode, m, q);
      }
    }
  }

  // strncpy with its padding, for a source that leaves room for the terminator.
  method Strncpy(dest: array<char>, src: string, n: nat)
    requires |src| < n <= dest.Length && forall i :: 0 <= i < |src| ==> src[i] != '\0'
    modifies dest
    ensures Holds(dest[..], 0, src) && forall i :: |src| <= i < n ==> dest[i] == '\0'
    ensures forall i :: n <= i < dest.Length ==> dest[i] == old(dest[i])
  {
    var i := 0;
    while i < n && i < |src|
      invariant 0 <= i <= |src|
      invariant forall k :: 0 <= k < i ==> dest[k] == src[k]
      invariant forall k :: n <= k < dest.Length ==> dest[k] == old(dest[k])
    {
      dest[i] := src[i];
      i := i + 1;
    }
    while i < n
      invariant |src| <= i <= n
      invariant forall k :: 0 <= k < |src| ==> dest[k] == src[k]
      invariant forall k :: |src| <= k < i ==> dest[k] == '\0'
      invariant forall k :: n <= k < dest.Length ==> dest[k] == old(dest[k])
    {
      dest[i] := '\0';
      i := i + 1;
    }
  }

  // Reading the string at i back, for strcmp.
  method ReadString(buf: array<char>, i: nat, ghost s: string) returns (t: string)
    requires Holds(buf[..], i, s)
    ensures t == s
  {
    t := "";
    HoldsAt(buf[..], i, s, 0);
    while buf[i + |t|] != '\0'
      invariant |t| <= |s| && t == s[..|t|]
      invariant i + |t| < buf.Length && (buf[i + |t|] == '\0' <==> |t| == |s|) && (|t| < |s| ==> buf[i + |t|] == s[|t|])
      decreases |s| - |t|
    {
      HoldsAt(buf[..], i, s, |t| + 1);
      t := t + [buf[i + |t|]];
    }
  }

  // Where c last occurs, -1 if it does not.
  function LastIndex(s: string, c: char): (i: int)
    ensures -1 <= i < |s| && (i >= 0 ==> s[i] == c) && forall k :: i < k < |s| ==> s[k] != c
  {
    if s == "" then -1 else if s[|s| - 1] == c then |s| - 1 else LastIndex(s[..|s| - 1], c)
  }

  // strrchr on the string at the start of buf, as an index.
  method Strrchr(buf: array<char>, ghost s: string, c: char) returns (last: int)
    requires Holds(buf[..], 0, s)
    ensures last == LastIndex(s, c)
  {
    last := -1;
    var i := 0;
    HoldsAt(buf[..], 0, s, 0);
    while buf[i] != '\0'
      invariant 0 <= i <= |s| && last == LastIndex(s[..i], c)
      invariant i < buf.Length && (buf[i] == '\0' <==> i == |s|) && (i < |s| ==> buf[i] == s[i])
      decreases |s| - i
    {
      if buf[i] == c {
        last := i;
      }
      assert s[..i + 1][..i] == s[..i];
      HoldsAt(buf[..], 0, s, i + 1);
      i := i + 1;
    }
    assert s[..i] == s;
  }

  // The copy of the path that fs_create cuts at its last slash.
  method SplitPath(path: string) returns (last: int, directory: string, filename: string)
    requires |path| <= PATH_MAX && forall i :: 0 <= i < |path| ==> path[i] != '\0'
    ensures last == LastIndex(path, '/')
    ensures last > 0 ==> directory == path[..last] && filename == path[last + 1..]
  {
    directory, filename := "", "";
    var buf := new char[512];
    Strncpy(buf, path, 511);
    buf[511] := '\0';
    last := Strrchr(buf, path, '/');
    if last > 0 {
      ghost var was := buf[..];
      buf[last] := '\0';
      CutHolds(was, 0, path, last, buf[..]);
      directory := ReadString(buf, 0, path[..last]);
      filename := ReadString(buf, last + 1, path[last + 1..]);
    }
  }

  // The directory fs_create adds to, 0 if it refuses: the path must be absolute with a second slash, and what
  // stands before its last slash a directory.
  ghost function CreateIn(mem: Nodes, kids: Kids, root: nat, path: string): (p: nat)
    requires Sound(mem, kids) && root in mem
    ensures p != 0 ==> p in mem && path != "" && path[0] == '/' && LastIndex(path, '/') > 0
  {
    var last := LastIndex(path, '/');
    if path == "" || path[0] != '/' || last <= 0 then 0
    else
      var p := Lookup(mem, kids, root, path[..last]);
      if p == 0 || !IsDir(mem[p].mode) then 0 else p
  }

  // The last slash splits a path into a directory, which must be absolute and lead to a node whose mode has the
  // directory bit 0x4000, and the new name.
  lemma CreateInIs(mem: Nodes, kids: Kids, root: nat, dir: string, name: string)
    requires Sound(mem, kids) && root in mem && forall i :: 0 <= i < |name| ==> name[i] != '/'
    ensures CreateIn(mem, kids, root, name) == 0
    ensures LastIndex(dir + ("/" + name), '/') == |dir| && (dir + ("/" + name))[|dir| + 1..] == name
    ensures dir == "" || dir[0] != '/' ==> CreateIn(mem, kids, root, dir + ("/" + name)) == 0
    ensures dir != "" && dir[0] == '/' ==>
      var d := Lookup(mem, kids, root, dir);
      CreateIn(mem, kids, root, dir + ("/" + name)) == if d == 0 || mem[d].mode / 0x4000 % 2 == 0 then 0 else d
  {
    var path := dir + ("/" + name);
    assert path[|dir|] == '/' && path[..|dir|] == dir;
    assert forall k :: |dir| < k < |path| ==> path[k] == name[k - |dir| - 1];
  }

  ghost predicate CreatedAt(mem: Nodes, kids: Kids, root: nat, path: string, mode: nat, node: nat, m: Nodes, k: Kids)
    requires Sound(mem, kids) && root in mem
  {
    var p, name := CreateIn(mem, kids, root, path), path[LastIndex(path, '/') + 1..];
    p != 0 && p in kids && m == Added(mem, p, node, name, mode) && k == AddedKids(kids, p, node)
  }

  // What fs_create does to every lookup. Its own path leads to the new node exactly when it does not end in a
  // slash; any other path leads where it led, unless it steps from the same directory to the new name.
  lemma CreateThenLookup(mem: Nodes, kids: Kids, rank: map<nat, nat>, root: nat, path: string, mode: nat, node: nat,
                         m: Nodes, k: Kids, other: string)
    requires Tree(mem, kids, rank) && root in mem && node !in mem && node != 0 && Sound(m, k)
    requires CreatedAt(mem, kids, root, path, mode, node, m, k) && other != "" && other[0] == '/'
    ensures Lookup(m, k, root, path) == node <==> path[|path| - 1] != '/'
    ensures var p, name := CreateIn(mem, kids, root, path), path[LastIndex(path, '/') + 1..];
      var at := Through(mem, kids, root, PathPieces(other), p, name);
      Lookup(m, k, root, other) ==
        if at.None? then Lookup(mem, kids, root, other) else if at.value == |PathPieces(other)| - 1 then node else 0
  {
    var last := LastIndex(path, '/');
    var p, name := CreateIn(mem, kids, root, path), path[last + 1..];
    LastSlash(path, last);
    AddedWalk(mem, kids, p, node, name, mode, m, k, root, PathPieces(other));
    AddedWalk(mem, kids, p, node, name, mode, m, k, root, PathPieces(path));
    if name != "" {
      ThroughEnd(mem, kids, rank, root, PathPieces(path[..last]), p, name);
    } else {
      assert PathPieces(path) == PathPieces(path[..last]);
      NeverEmpty(mem, kids, root, PathPieces(path), p, path);
    }
  }

  // No path steps to the empty name.
  lemma NeverEmpty(mem: Nodes, kids: Kids, n: nat, pieces: seq<string>, p: nat, path: string)
    requires Sound(mem, kids) && n in mem && pieces == PathPieces(path)
    ensures Through(mem, kids, n, pieces, p, "").None?
  {
    var at := Through(mem, kids, n, pieces, p, "");
    if at.Some? { PiecesAreClean(path, "/", at.value); }
  }

  class NodeTree {
    var nodes: Nodes
    const root: nat
    // kmalloc hands out addresses that no node has; a counter stands for it.
    var nextAddress: nat
    ghost var kids: Kids
    ghost var rank: map<nat, nat>

    ghost predicate Valid()
      reads this
    {
      && Tree(nodes, kids, rank) && root in nodes
      && nextAddress > 0 && forall n :: n in nodes ==> n < nextAddress
    }

    // The root of fs_init, a directory called "/".
    constructor ()
      ensures Valid() && nodes == map[root := Node("/", S_IFDIR + 0x1ED, None, 0, 0, 0)] && kids == map[root := []]
    {
      root := 1;
      nextAddress := 2;
      nodes, kids, rank := map[1 := Node("/", S_IFDIR + 0x1ED, None, 0, 0, 0)], map[1 := []], map[1 := 0];
    }

    // vfs_find_child
    method FindChild(parent: nat, name: string) returns (child: nat)
      requires Valid() && parent in nodes
      ensures child == Find(nodes, kids[parent], name)
    {
      assert Chain(nodes, nodes[parent].children, kids[parent]);
      child := nodes[parent].children;
      ghost var q := kids[parent];
      ghost var i := 0;
      while child != 0
        invariant 0 <= i <= |q| && child == At(q, i) && Find(nodes, q, name) == Find(nodes, q[i..], name)
        decreases |q| - i
      {
        assert q[i..][0] == q[i] && q[i..][1..] == q[i + 1..];
        if nodes[child].name == name {
          return;
        }
        child := nodes[child].next;
        i := i + 1;
      }
      ChainEnds(nodes, nodes[parent].children, q, i);
    }

    // fs_lookup. No piece is empty, so the test for an empty one is left out.
    method FsLookup(path: string) returns (node: nat)
      requires Valid() && |path| <= PATH_MAX && forall i :: 0 <= i < |path| ==> path[i] != '\0'
      ensures node == Lookup(nodes, kids, root, path)
    {
      if path == "" || path[0] != '/' {
        return 0;
      }
      var buf := new char[512];
      Strncpy(buf, path, 511);
      buf[511] := '\0';
      var cutter := new Cutter(buf, path);
      node := root;
      ghost var found := Walk(nodes, kids, root, PathPieces(path));
      var token, piece := cutter.Next("/");
      while token != -1 && node != 0
        invariant cutter.Valid() && cutter.buf == buf && (node != 0 ==> node in nodes)
        invariant token != -1 ==> token >= 0 && Holds(buf[..], token, piece)
        invariant token == -1 ==> found == node
        invariant token != -1 ==> found == if node == 0 then 0 else Walk(nodes, kids, node, [piece] + Pieces(cutter.rest, "/"))
        decreases token != -1, |Pieces(cutter.rest, "/")|
      {
        var name := ReadString(buf, token, piece);
        WalkStep(nodes, kids, node, name, Pieces(cutter.rest, "/"));
        node := FindChild(node, name);
        token, piece := cutter.Next("/");
      }
    }

    // The stores of vfs_create_node and vfs_add_child.
    method Link(parent: nat, node: nat, name: string, mode: nat)
      requires parent in nodes && parent != node
      modifies this`nodes
      ensures nodes == Added(old(nodes), parent, node, name, mode)
    {
      nodes := nodes[node := Node(name, mode, None, 0, 0, 0)];
      nodes := nodes[node := nodes[node].(parent := parent)];
      nodes := nodes[node := nodes[node].(next := nodes[parent].children)];
      nodes := nodes[parent := nodes[parent].(children := node)];
    }

    // vfs_create_node and vfs_add_child
    method AddChild(parent: nat, name: string, mode: nat) returns (node: nat)
      requires Valid() && parent in nodes && |name| <= NAME_MAX
      modifies this
      ensures Valid() && node != 0 && node !in old(nodes) && parent in old(nodes) && parent in old(kids)
      ensures nodes == Added(old(nodes), parent, node, name, mode) && kids == AddedKids(old(kids), parent, node)
      ensures NewChild(old(nodes), old(kids), nodes, kids, parent, node, name, mode)
    {
      node := nextAddress;
      nextAddress := nextAddress + 1;
      ghost var m, k := Added(nodes, parent, node, name, mode), AddedKids(kids, parent, node);
      NextChild(nodes, kids, rank, parent, node, name, mode, m, k);
      Link(parent, node, name, mode);
      kids := k;
      rank := rank[node := rank[parent] + 1];
    }

    // fs_create
    method FsCreate(path: string, mode: nat) returns (node: nat)
      requires Valid() && |path| <= PATH_MAX && forall i :: 0 <= i < |path| ==> path[i] != '\0'
      requires |path| - 1 - LastIndex(path, '/') <= NAME_MAX
      modifies this
      ensures Valid()
      ensures node == 0 <==> CreateIn(old(nodes), old(kids), root, path) == 0
      ensures node == 0 ==> nodes == old(nodes) && kids == old(kids)
      ensures node != 0 ==> node !in old(nodes) && CreatedAt(old(nodes), old(kids), root, path, mode, node, nodes, kids)
      ensures node != 0 ==>
        var p, name := CreateIn(old(nodes), old(kids), root, path), path[LastIndex(path, '/') + 1..];
        NewChild(old(nodes), old(kids), nodes, kids, p, node, name, mode)
    {
      node := 0;
      if path != "" && path[0] == '/' {
        var last, directory, filename := SplitPath(path);
        if last != -1 && last != 0 {
          var parent := FsLookup(directory);
          if parent != 0 && IsDir(nodes[parent].mode) {
            node := AddChild(parent, filename, mode);
          }
        }
      }
    }
  }

  lemma NextChild(mem: Nodes, kids: Kids, rank: map<nat, nat>, p: nat, node: nat, name: string, mode: nat, m: Nodes,
                  k: Kids)
    requires Tree(mem, kids, rank) && p in mem && node > 0 && forall n :: n in mem ==> n < node
    requires m == Added(mem, p, node, name, mode) && k == AddedKids(kids, p, node)
    ensures Tree(m, k, rank[node := rank[p] + 1]) && NewChild(mem, kids, m, k, p, node, name, mode)
    ensures node !in mem && forall n :: n in m ==> n < node + 1
  {
    AddedIsTree(mem, kids, rank, p, node, name, mode, m, k);
    AddedIs(mem, kids, p, node, name, mode);
  }

  lemma WalkStep(mem: Nodes, kids: Kids, n: nat, piece: string, more: seq<string>)
    requires Sound(mem, kids) && n in mem
    ensures var c := Find(mem, kids[n], piece);
      Walk(mem, kids, n, [piece] + more) == (if c == 0 then 0 else Walk(mem, kids, c, more))
    ensures var c := Find(mem, kids[n], piece); c != 0 ==> c in mem && (more == [] ==> Walk(mem, kids, c, more) == c)
  {
  }

  lemma ChainEnds(mem: Nodes, head: nat, q: seq<nat>, i: nat)
    requires Chain(mem, head, q) && i <= |q| && At(q, i) == 0
    ensures i == |q|
  {
  }
}

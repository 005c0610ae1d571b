/** The node links of html/src/dom/dom.c: the five pointers of every node always spell out one list of
    children per node, and destroying a node frees each node under it once. */
module Dom {
  import opened Lists

  datatype Attr = Attr(name: string, value: Option<string>)

  datatype Content = Document | Element(tag: string, attrs: seq<Attr>) | Text(data: string)

  // dom_node_t. A node is named by its address; 0 is the null pointer.
  datatype Node = Node(content: Content, parent: nat, first: nat, last: nat, prev: nat, next: nat)
  type Nodes = map<nat, Node>
  type Kids = map<nat, seq<nat>>

  // ----- What the links say -----

  // The links of p and of the nodes in q make q the list of children of p.
  ghost predicate Children(mem: Nodes, p: nat, q: seq<nat>)
    requires p in mem
  {
    && NoDup(q) && 0 !in q
    && mem[p].first == At(q, 0) && mem[p].last == At(q, |q| - 1)
    && (forall i :: 0 <= i < |q| ==> q[i] in mem && mem[q[i]].parent == p)
    && (forall i :: 0 <= i < |q| ==> q[i] in mem && mem[q[i]].prev == At(q, i - 1) && mem[q[i]].next == At(q, i + 1))
  }

  // A node is in the list of its parent; without a parent it has no siblings.
  ghost predicate Placed(mem: Nodes, kids: Kids, c: nat)
    requires c in mem
  {
    if mem[c].parent == 0 then mem[c].prev == 0 && mem[c].next == 0
    else mem[c].parent in kids && c in kids[mem[c].parent]
  }

  // dying are nodes that dom_node_destroy has taken out of their lists: their own links are stale.
  ghost predicate Links(mem: Nodes, kids: Kids, dying: set<nat>) {
    && 0 !in mem && kids.Keys == mem.Keys
    && (forall p {:trigger Children(mem, p, kids[p])} :: p in mem ==> Children(mem, p, kids[p]))
    && (forall c {:trigger Placed(mem, kids, c)} :: c in mem && c !in dying ==> Placed(mem, kids, c))
    && (forall p, c :: p in kids && c in kids[p] ==> c !in dying)
  }

  // Every child is in the memory and names its one parent.
  lemma OneParent(mem: Nodes, kids: Kids, dying: set<nat>, p: nat, c: nat)
    requires Links(mem, kids, dying) && p in kids && c in kids[p]
    ensures c in mem && c != 0 && mem[c].parent == p && p != 0
    ensures forall r :: r in kids && r != p ==> c !in kids[r]
  {
    assert Children(mem, p, kids[p]);
    forall r | r in kids && c in kids[r] ensures r == p {
      assert Children(mem, r, kids[r]);
    }
  }

  // ----- dom_node_remove_child -----

  // The four conditional stores that take c out of the list of p.
  function Bypassed(mem: Nodes, p: nat, c: nat): (m: Nodes)
    requires p in mem && c in mem
    ensures m.Keys == mem.Keys
  {
    var m1 := if mem[p].first == c then mem[p := mem[p].(first := mem[c].next)] else mem;
    var m2 := if m1[p].last == c then m1[p := m1[p].(last := m1[c].prev)] else m1;
    var m3 := if m2[c].prev in m2 then m2[m2[c].prev := m2[m2[c].prev].(next := m2[c].next)] else m2;
    if m3[c].next in m3 then m3[m3[c].next := m3[m3[c].next].(prev := m3[c].prev)] else m3
  }

  function Cleared(mem: Nodes, c: nat): Nodes
    requires c in mem
  {
    mem[c := mem[c].(parent := 0, prev := 0, next := 0)]
  }

  // Every list loses c.
  function Without(kids: Kids, c: nat): Kids { map p | p in kids :: Remove(kids[p], c) }

  // m is mem with position i taken out of the list q of p; the links of q[i] itself are as before.
  ghost predicate Spliced(mem: Nodes, p: nat, q: seq<nat>, i: nat, m: Nodes) {
    && m.Keys == mem.Keys
    && (forall x :: x in mem ==> m[x].content == mem[x].content && m[x].parent == mem[x].parent)
    && (forall x :: x in mem ==> m[x].next == if x == At(q, i - 1) then At(q, i + 1) else mem[x].next)
    && (forall x :: x in mem ==> m[x].prev == if x == At(q, i + 1) then At(q, i - 1) else mem[x].prev)
    && (forall x :: x in mem ==> m[x].first == if x == p && i == 0 then At(q, 1) else mem[x].first)
    && (forall x :: x in mem ==> m[x].last == if x == p && i == |q| - 1 then At(q, |q| - 2) else mem[x].last)
  }

  lemma BypassedFields(mem: Nodes, p: nat, q: seq<nat>, i: nat, m: Nodes, x: nat)
    requires p in mem && 0 !in mem && Children(mem, p, q) && i < |q| && x in mem
    requires q[i] in mem && m == Bypassed(mem, p, q[i])
    ensures m[x].content == mem[x].content && m[x].parent == mem[x].parent
    ensures m[x].next == if x == At(q, i - 1) then At(q, i + 1) else mem[x].next
    ensures m[x].prev == if x == At(q, i + 1) then At(q, i - 1) else mem[x].prev
    ensures m[x].first == if x == p && i == 0 then At(q, 1) else mem[x].first
    ensures m[x].last == if x == p && i == |q| - 1 then At(q, |q| - 2) else mem[x].last
  {
    Apart(q, i);
    assert mem[q[i]].prev == At(q, i - 1) && mem[q[i]].next == At(q, i + 1);
    if i > 0 { assert q[i - 1] in mem; }
    if i + 1 < |q| { assert q[i + 1] in mem; }
  }

  lemma BypassedIsSpliced(mem: Nodes, p: nat, q: seq<nat>, i: nat, m: Nodes)
    requires p in mem && 0 !in mem && Children(mem, p, q) && i < |q|
    requires q[i] in mem && m == Bypassed(mem, p, q[i])
    ensures Spliced(mem, p, q, i, m)
  {
    forall x | x in mem
      ensures m[x].content == mem[x].content && m[x].parent == mem[x].parent
      ensures m[x].next == if x == At(q, i - 1) then At(q, i + 1) else mem[x].next
      ensures m[x].prev == if x == At(q, i + 1) then At(q, i - 1) else mem[x].prev
      ensures m[x].first == if x == p && i == 0 then At(q, 1) else mem[x].first
      ensures m[x].last == if x == p && i == |q| - 1 then At(q, |q| - 2) else mem[x].last
    {
      BypassedFields(mem, p, q, i, m, x);
    }
  }

  lemma SplicedItem(mem: Nodes, p: nat, q: seq<nat>, i: nat, m: Nodes, r: seq<nat>, k: nat)
    requires p in mem && 0 !in mem && Children(mem, p, q) && i < |q| && r == q[..i] + q[i + 1..] && k < |r|
    requires Spliced(mem, p, q, i, m)
    ensures r[k] in m && m[r[k]].parent == p && m[r[k]].prev == At(r, k - 1) && m[r[k]].next == At(r, k + 1)
  {
    var j := if k < i then k else k + 1;
    NeighboursWithout(q, i, r, k, j);
    Apart(q, i);
    assert q[j] in q;
    assert mem[q[j]].prev == At(q, j - 1) && mem[q[j]].next == At(q, j + 1);
  }

  lemma SplicedEnds(mem: Nodes, p: nat, q: seq<nat>, i: nat, m: Nodes, r: seq<nat>)
    requires p in mem && Children(mem, p, q) && i < |q| && r == q[..i] + q[i + 1..] && Spliced(mem, p, q, i, m)
    ensures m[p].first == At(r, 0) && m[p].last == At(r, |r| - 1)
  {
  }

  lemma SplicedHere(mem: Nodes, p: nat, q: seq<nat>, i: nat, m: Nodes, r: seq<nat>)
    requires p in mem && 0 !in mem && Children(mem, p, q) && i < |q| && r == Remove(q, q[i])
    requires Spliced(mem, p, q, i, m)
    ensures Children(m, p, r)
  {
    RemoveAt(q, i);
    RemoveIs(q, q[i], r);
    SplicedEnds(mem, p, q, i, m, r);
    forall k | 0 <= k < |r|
      ensures r[k] in m && m[r[k]].parent == p && m[r[k]].prev == At(r, k - 1) && m[r[k]].next == At(r, k + 1)
    {
      SplicedItem(mem, p, q, i, m, r, k);
    }
  }

  lemma SplicedElsewhere(mem: Nodes, p: nat, q: seq<nat>, i: nat, m: Nodes, s: nat, r: seq<nat>)
    requires p in mem && s in mem && s != p && 0 !in mem && Children(mem, p, q) && i < |q| && Children(mem, s, r)
    requires Spliced(mem, p, q, i, m)
    ensures Children(m, s, r)
  {
  }

  lemma WithoutIs(mem: Nodes, kids: Kids, dying: set<nat>, p: nat, c: nat, k: Kids)
    requires Links(mem, kids, dying) && p in kids && c in kids[p] && k == Without(kids, c)
    ensures k == kids[p := Remove(kids[p], c)] && forall r :: r in k ==> c !in k[r]
    ensures forall r, x :: r in k && x in k[r] ==> x in kids[r]
    ensures forall r, x :: r in kids && x in kids[r] && x != c ==> x in k[r]
  {
    OneParent(mem, kids, dying, p, c);
    assert Children(mem, p, kids[p]);
    RemoveIs(kids[p], c, k[p]);
  }

  lemma SplicedPlaced(mem: Nodes, kids: Kids, dying: set<nat>, p: nat, i: nat, m: Nodes, k: Kids, x: nat)
    requires Links(mem, kids, dying) && p in kids && i < |kids[p]| && k == Without(kids, kids[p][i])
    requires Spliced(mem, p, kids[p], i, m) && x in mem && x != kids[p][i] && x !in dying
    ensures Placed(m, k, x)
  {
    WithoutIs(mem, kids, dying, p, kids[p][i], k);
    assert Children(mem, p, kids[p]) && Placed(mem, kids, x);
    if x == At(kids[p], i - 1) || x == At(kids[p], i + 1) {
      assert x != 0 by { assert 0 !in mem; }
      assert x in kids[p];
      OneParent(mem, kids, dying, p, x);
    }
  }

  lemma SplicedChildren(mem: Nodes, kids: Kids, dying: set<nat>, p: nat, i: nat, m: Nodes, k: Kids, s: nat)
    requires Links(mem, kids, dying) && p in kids && i < |kids[p]| && k == Without(kids, kids[p][i])
    requires Spliced(mem, p, kids[p], i, m) && s in mem
    ensures s in k && Children(m, s, k[s])
  {
    OneParent(mem, kids, dying, p, kids[p][i]);
    assert Children(mem, p, kids[p]) && Children(mem, s, kids[s]);
    if s == p { SplicedHere(mem, p, kids[p], i, m, k[p]); } else { SplicedElsewhere(mem, p, kids[p], i, m, s, kids[s]); }
  }

  lemma SplicedLive(mem: Nodes, kids: Kids, dying: set<nat>, p: nat, c: nat, k: Kids)
    requires Links(mem, kids, dying) && p in kids && c in kids[p] && k == Without(kids, c)
    ensures k.Keys == kids.Keys && forall q, x :: q in k && x in k[q] ==> x !in dying + {c}
  {
    WithoutIs(mem, kids, dying, p, c, k);
  }

  // Taking a child out leaves links that are right for all but it, whose own are stale.
  lemma SplicedIsWithout(mem: Nodes, kids: Kids, dying: set<nat>, p: nat, i: nat, m: Nodes, k: Kids)
    requires Links(mem, kids, dying) && p in kids && i < |kids[p]| && k == Without(kids, kids[p][i])
    requires Spliced(mem, p, kids[p], i, m)
    ensures Links(m, k, dying + {kids[p][i]})
  {
    SplicedLive(mem, kids, dying, p, kids[p][i], k);
    forall s | s in m ensures Children(m, s, k[s]) {
      SplicedChildren(mem, kids, dying, p, i, m, k, s);
    }
    forall x | x in m && x !in dying + {kids[p][i]} ensures Placed(m, k, x) {
      SplicedPlaced(mem, kids, dying, p, i, m, k, x);
    }
  }

  lemma BypassedIsWithout(mem: Nodes, kids: Kids, dying: set<nat>, p: nat, c: nat, m: Nodes, k: Kids)
    requires Links(mem, kids, dying) && c in mem && p in kids && c in kids[p]
    requires m == Bypassed(mem, p, c) && k == Without(kids, c)
    ensures Links(m, k, dying + {c}) && k == kids[p := Remove(kids[p], c)]
    ensures forall x :: x in mem ==> m[x].content == mem[x].content && m[x].parent == mem[x].parent
  {
    WithoutIs(mem, kids, dying, p, c, k);
    var i :| 0 <= i < |kids[p]| && kids[p][i] == c;
    assert Children(mem, p, kids[p]);
    BypassedIsSpliced(mem, p, kids[p], i, m);
    SplicedIsWithout(mem, kids, dying, p, i, m, k);
  }

  // Only the parent of c changes, to p.
  ghost predicate Reparented(mem: Nodes, m: Nodes, p: nat, c: nat) {
    && m.Keys == mem.Keys
    && (forall n :: n in mem ==> m[n].parent == if n == c then p else mem[n].parent)
    && (forall n :: n in mem ==> m[n].content == mem[n].content)
  }

  lemma ReparentedTwice(mem: Nodes, m: Nodes, m': Nodes, c: nat, p: nat, q: nat)
    requires Reparented(mem, m, p, c) && Reparented(m, m', q, c)
    ensures Reparented(mem, m', q, c)
  {
  }

  lemma ClearedIsPlaced(mem: Nodes, kids: Kids, dying: set<nat>, c: nat)
    requires Links(mem, kids, dying) && c in dying && c in mem
    ensures Links(Cleared(mem, c), kids, dying - {c})
  {
    var m := Cleared(mem, c);
    forall s | s in m ensures Children(m, s, kids[s]) {
      assert Children(mem, s, kids[s]);
      assert c !in kids[s];
    }
    forall x | x in m && x !in dying - {c} ensures Placed(m, kids, x) {
      if x != c { assert Placed(mem, kids, x); }
    }
  }

  // All of dom_node_remove_child.
  lemma RemovedIsWithout(mem: Nodes, kids: Kids, p: nat, c: nat, m: Nodes)
    requires Links(mem, kids, {}) && c in mem && p in kids && mem[c].parent == p && m == Cleared(Bypassed(mem, p, c), c)
    ensures c in kids[p] && Links(m, Without(kids, c), {}) && Without(kids, c) == kids[p := Remove(kids[p], c)]
    ensures Reparented(mem, m, 0, c)
  {
    assert Placed(mem, kids, c) && p != 0;
    BypassedIsWithout(mem, kids, {}, p, c, Bypassed(mem, p, c), Without(kids, c));
    ClearedIsPlaced(Bypassed(mem, p, c), Without(kids, c), {c}, c);
    assert {c} - {c} == {};
  }

  // ----- dom_node_append_child -----

  function Linked(mem: Nodes, p: nat, c: nat): Nodes
    requires p in mem && c in mem
  {
    var m1 := mem[c := mem[c].(parent := p)];
    if m1[p].first == 0 then m1[p := m1[p].(first := c, last := c)]
    else
      var m2 := if m1[p].last in m1 then m1[m1[p].last := m1[m1[p].last].(next := c)] else m1;
      var m3 := m2[c := m2[c].(prev := m2[p].last)];
      m3[p := m3[p].(last := c)]
  }

  // "The old list without the child, then the child"; every other list just loses the child.
  function Appended(kids: Kids, p: nat, c: nat): Kids {
    map r | r in kids :: Remove(kids[r], c) + if r == p then [c] else []
  }

  // m is mem with the parentless node c put at the end of the list q of p.
  ghost predicate Extended(mem: Nodes, p: nat, q: seq<nat>, c: nat, m: Nodes) {
    && m.Keys == mem.Keys
    && (forall x :: x in mem ==> m[x].content == mem[x].content)
    && (forall x :: x in mem ==> m[x].parent == if x == c then p else mem[x].parent)
    && (forall x :: x in mem ==> m[x].next == if x == At(q, |q| - 1) then c else mem[x].next)
    && (forall x :: x in mem ==> m[x].prev == if x == c && q != [] then At(q, |q| - 1) else mem[x].prev)
    && (forall x :: x in mem ==> m[x].first == if x == p && q == [] then c else mem[x].first)
    && (forall x :: x in mem ==> m[x].last == if x == p then c else mem[x].last)
  }

  lemma LinkedFields(mem: Nodes, p: nat, q: seq<nat>, c: nat, m: Nodes, x: nat)
    requires p in mem && c in mem && 0 !in mem && Children(mem, p, q) && c !in q && m == Linked(mem, p, c) && x in mem
    ensures m.Keys == mem.Keys && m[x].content == mem[x].content
    ensures m[x].parent == if x == c then p else mem[x].parent
    ensures m[x].next == if x == At(q, |q| - 1) then c else mem[x].next
    ensures m[x].prev == if x == c && q != [] then At(q, |q| - 1) else mem[x].prev
    ensures m[x].first == if x == p && q == [] then c else mem[x].first
    ensures m[x].last == if x == p then c else mem[x].last
  {
  }

  lemma LinkedIsExtended(mem: Nodes, p: nat, q: seq<nat>, c: nat, m: Nodes)
    requires p in mem && c in mem && 0 !in mem && Children(mem, p, q) && c !in q && m == Linked(mem, p, c)
    ensures Extended(mem, p, q, c, m)
  {
    LinkedFields(mem, p, q, c, m, c);
    forall x | x in mem
      ensures m[x].content == mem[x].content
      ensures m[x].parent == if x == c then p else mem[x].parent
      ensures m[x].next == if x == At(q, |q| - 1) then c else mem[x].next
      ensures m[x].prev == if x == c && q != [] then At(q, |q| - 1) else mem[x].prev
      ensures m[x].first == if x == p && q == [] then c else mem[x].first
      ensures m[x].last == if x == p then c else mem[x].last
    {
      LinkedFields(mem, p, q, c, m, x);
    }
  }

  lemma ExtendedHere(mem: Nodes, p: nat, q: seq<nat>, c: nat, m: Nodes)
    requires p in mem && c in mem && 0 !in mem && Children(mem, p, q) && c !in q
    requires mem[c].prev == 0 && mem[c].next == 0 && Extended(mem, p, q, c, m)
    ensures Children(m, p, q + [c])
  {
    var r := q + [c];
    forall k | 0 <= k < |r|
      ensures r[k] in m && m[r[k]].parent == p && m[r[k]].prev == At(r, k - 1) && m[r[k]].next == At(r, k + 1)
    {
      if k < |q| {
        assert r[k] == q[k] && r[k] in q;
        assert At(r, k + 1) == if k + 1 < |q| then At(q, k + 1) else c;
        assert q[k] == At(q, |q| - 1) <==> k == |q| - 1;
        assert mem[q[k]].prev == At(q, k - 1) && mem[q[k]].next == At(q, k + 1);
      }
    }
  }

  lemma ExtendedElsewhere(mem: Nodes, p: nat, q: seq<nat>, c: nat, m: Nodes, s: nat, r: seq<nat>)
    requires p in mem && c in mem && 0 !in mem && Children(mem, p, q) && Extended(mem, p, q, c, m)
    requires s in mem && s != p && Children(mem, s, r) && c !in r
    ensures Children(m, s, r)
  {
  }

  lemma ExtendedPlaced(mem: Nodes, kids: Kids, p: nat, c: nat, m: Nodes, x: nat)
    requires Links(mem, kids, {}) && p in mem && c in mem && mem[c].parent == 0
    requires Extended(mem, p, kids[p], c, m) && x in mem
    ensures Placed(m, kids[p := kids[p] + [c]], x)
  {
    assert Children(mem, p, kids[p]) && Placed(mem, kids, x);
    if x != c && x == At(kids[p], |kids[p]| - 1) {
      assert x in kids[p];
      OneParent(mem, kids, {}, p, x);
    }
  }

  // A node without a parent is in no list.
  lemma Orphan(mem: Nodes, kids: Kids, c: nat)
    requires Links(mem, kids, {}) && c in mem && mem[c].parent == 0
    ensures mem[c].prev == 0 && mem[c].next == 0 && forall r :: r in kids ==> c !in kids[r]
  {
    assert Placed(mem, kids, c);
    forall r | r in kids ensures c !in kids[r] {
      if c in kids[r] { OneParent(mem, kids, {}, r, c); }
    }
  }

  lemma ExtendedChildren(mem: Nodes, kids: Kids, p: nat, c: nat, m: Nodes, s: nat)
    requires Links(mem, kids, {}) && p in mem && c in mem && mem[c].parent == 0
    requires Extended(mem, p, kids[p], c, m) && s in mem
    ensures Children(m, s, kids[p := kids[p] + [c]][s])
  {
    Orphan(mem, kids, c);
    assert Children(mem, p, kids[p]) && Children(mem, s, kids[s]);
    if s == p { ExtendedHere(mem, p, kids[p], c, m); } else { ExtendedElsewhere(mem, p, kids[p], c, m, s, kids[s]); }
  }

  lemma ExtendedIsAppended(mem: Nodes, kids: Kids, p: nat, c: nat, m: Nodes, k: Kids)
    requires Links(mem, kids, {}) && p in mem && c in mem && mem[c].parent == 0
    requires Extended(mem, p, kids[p], c, m) && k == kids[p := kids[p] + [c]]
    ensures Links(m, k, {})
  {
    forall s | s in m ensures Children(m, s, k[s]) {
      ExtendedChildren(mem, kids, p, c, m, s);
    }
    forall x | x in m ensures Placed(m, k, x) {
      ExtendedPlaced(mem, kids, p, c, m, x);
    }
  }

  // Linking a node that has no parent adds it to the end of one list.
  lemma LinkedIsAppended(mem: Nodes, kids: Kids, p: nat, c: nat, m: Nodes, k: Kids)
    requires Links(mem, kids, {}) && p in mem && c in mem && mem[c].parent == 0
    requires m == Linked(mem, p, c) && k == kids[p := kids[p] + [c]]
    ensures Links(m, k, {}) && Reparented(mem, m, p, c)
    ensures mem[p].first != 0 ==> mem[p].last in mem
  {
    Orphan(mem, kids, c);
    assert Children(mem, p, kids[p]);
    LinkedIsExtended(mem, p, kids[p], c, m);
    ExtendedIsAppended(mem, kids, p, c, m, k);
  }

  // A whole append: out of the old list, if any, and onto the end of the new one.
  lemma AppendedIs(mem: Nodes, kids: Kids, p: nat, c: nat, k: Kids)
    requires Links(mem, kids, {}) && p in mem && c in mem && k == Without(kids, c)
    ensures Appended(kids, p, c) == k[p := k[p] + [c]]
  {
    assert forall r :: r in kids ==> Remove(kids[r], c) + [] == Remove(kids[r], c);
  }

  // What removing and appending do to the list of r, where c stands at i if it is in it.
  lemma ListAfter(mem: Nodes, kids: Kids, p: nat, c: nat, r: nat, i: nat)
    requires Links(mem, kids, {}) && r in kids && i <= |kids[r]|
    requires if i < |kids[r]| then kids[r][i] == c else c !in kids[r]
    ensures var q := kids[r]; var rest := if i < |q| then q[..i] + q[i + 1..] else q;
      Without(kids, c)[r] == rest && Appended(kids, p, c)[r] == if r == p then rest + [c] else rest
  {
    assert Children(mem, r, kids[r]);
    if i < |kids[r]| { RemoveAt(kids[r], i); }
    assert Remove(kids[r], c) + [] == Remove(kids[r], c);
  }

  // ----- dom_node_set_attribute and dom_node_get_attribute -----

  function WithAttr(attrs: seq<Attr>, name: string, value: Option<string>): seq<Attr> {
    if attrs == [] then [Attr(name, value)]
    else if attrs[0].name == name then [Attr(name, value)] + attrs[1..]
    else [attrs[0]] + WithAttr(attrs[1..], name, value)
  }

  function ValueOf(attrs: seq<Attr>, name: string): Option<string> {
    if attrs == [] then None else if attrs[0].name == name then attrs[0].value else ValueOf(attrs[1..], name)
  }

  predicate Has(attrs: seq<Attr>, name: string) {
    attrs != [] && (attrs[0].name == name || Has(attrs[1..], name))
  }

  lemma {:induction false} HasIs(attrs: seq<Attr>, name: string)
    ensures Has(attrs, name) <==> exists k :: 0 <= k < |attrs| && attrs[k].name == name
  {
    if attrs != [] {
      HasIs(attrs[1..], name);
      assert forall k :: 0 < k < |attrs| ==> attrs[k] == attrs[1..][k - 1];
    }
  }

  predicate DistinctNames(attrs: seq<Attr>) {
    attrs == [] || (!Has(attrs[1..], attrs[0].name) && DistinctNames(attrs[1..]))
  }

  // Setting one name changes what is read for that name and no other, and keeps names distinct.
  lemma {:induction false} SetThenGet(attrs: seq<Attr>, name: string, value: Option<string>, other: string)
    ensures ValueOf(WithAttr(attrs, name, value), other) == if other == name then value else ValueOf(attrs, other)
    ensures Has(WithAttr(attrs, name, value), other) <==> other == name || Has(attrs, other)
    ensures DistinctNames(attrs) ==> DistinctNames(WithAttr(attrs, name, value))
  {
    if attrs != [] && attrs[0].name != name {
      SetThenGet(attrs[1..], name, value, other);
      SetThenGet(attrs[1..], name, value, attrs[0].name);
    }
  }

  // The value read is that of the first attribute of the name.
  lemma {:induction false} ValueAt(attrs: seq<Attr>, name: string, i: nat)
    requires i <= |attrs| && forall k :: 0 <= k < i ==> attrs[k].name != name
    ensures i < |attrs| && attrs[i].name == name ==> ValueOf(attrs, name) == attrs[i].value
    ensures i == |attrs| ==> ValueOf(attrs, name) == None
  {
    if i > 0 { ValueAt(attrs[1..], name, i - 1); }
  }

  // Setting changes the first attribute of the name, or adds one at the end.
  lemma {:induction false} SetAt(attrs: seq<Attr>, name: string, value: Option<string>, i: nat)
    requires i <= |attrs| && forall k :: 0 <= k < i ==> attrs[k].name != name
    ensures i < |attrs| && attrs[i].name == name ==> WithAttr(attrs, name, value) == attrs[i := Attr(name, value)]
    ensures i == |attrs| ==> WithAttr(attrs, name, value) == attrs + [Attr(name, value)]
  {
    if i > 0 {
      SetAt(attrs[1..], name, value, i - 1);
      assert i < |attrs| ==> attrs[i := Attr(name, value)] == [attrs[0]] + attrs[1..][i - 1 := Attr(name, value)];
    }
  }

  function WithContent(mem: Nodes, n: nat, content: Content): Nodes
    requires n in mem
  {
    mem[n := mem[n].(content := content)]
  }

  lemma ContentLinks(mem: Nodes, kids: Kids, n: nat, content: Content)
    requires Links(mem, kids, {}) && n in mem
    ensures Links(WithContent(mem, n, content), kids, {})
  {
    var m := WithContent(mem, n, content);
    forall s | s in m ensures Children(m, s, kids[s]) { assert Children(mem, s, kids[s]); }
    forall x | x in m ensures Placed(m, kids, x) { assert Placed(mem, kids, x); }
  }

  // ----- Cycles -----

  // rank grows from parent to child; there is one exactly when no node is its own ancestor.
  ghost predicate Ranked(mem: Nodes, rank: map<nat, nat>) {
    mem.Keys <= rank.Keys && forall n :: n in mem && mem[n].parent in mem ==> rank[mem[n].parent] < rank[n]
  }

  ghost predicate Acyclic(mem: Nodes) { exists rank :: Ranked(mem, rank) }

  // n is c or has it as an ancestor.
  ghost predicate Under(mem: Nodes, rank: map<nat, nat>, n: nat, c: nat)
    requires Ranked(mem, rank)
    decreases if n in rank then rank[n] else 0
  {
    n == c || (n in mem && mem[n].parent in mem && Under(mem, rank, mem[n].parent, c))
  }

  // With p the parent of c, any ranking would put what is under c no higher than c.
  lemma {:induction false} RankedUnder(mem: Nodes, rank: map<nat, nat>, m: Nodes, p: nat, c: nat, r: map<nat, nat>,
                                       n: nat)
    requires Ranked(mem, rank) && c in mem && p in mem && Reparented(mem, m, p, c) && Ranked(m, r)
    requires n in mem && Under(mem, rank, n, c)
    ensures r[c] <= r[n]
    decreases rank[n]
  {
    if n != c { RankedUnder(mem, rank, m, p, c, r, mem[n].parent); }
  }

  // Appending leaves no cycle exactly when the child is not the new parent or an ancestor of it.
  lemma AppendAcyclic(mem: Nodes, rank: map<nat, nat>, m: Nodes, p: nat, c: nat)
    requires Ranked(mem, rank) && c in mem && p in mem && Reparented(mem, m, p, c)
    ensures Acyclic(m) <==> !Under(mem, rank, p, c)
  {
    if Under(mem, rank, p, c) {
      forall r ensures !Ranked(m, r) {
        if Ranked(m, r) { RankedUnder(mem, rank, m, p, c, r, p); }
      }
    } else {
      var r := map n | n in mem :: if Under(mem, rank, n, c) then rank[n] + rank[p] + 1 else rank[n];
      assert Ranked(m, r);
    }
  }

  // Taking a child out leaves no cycle where none was.
  lemma RemoveAcyclic(mem: Nodes, kids: Kids, rank: map<nat, nat>, p: nat, c: nat, m: Nodes)
    requires Links(mem, kids, {}) && c in mem && p in kids && mem[c].parent == p && m == Cleared(Bypassed(mem, p, c), c)
    requires Ranked(mem, rank)
    ensures Ranked(m, rank)
  {
    RemovedIsWithout(mem, kids, p, c, m);
  }

  // ----- The nodes under a node -----

  datatype Ids = Ids(id: nat, kids: seq<Ids>)

  // t is the tree of the nodes under t.id.
  ghost predicate TreeAt(kids: Kids, t: Ids)
    decreases t
  {
    && t.id in kids && |kids[t.id]| == |t.kids|
    && forall i :: 0 <= i < |t.kids| ==> t.kids[i].id == kids[t.id][i] && TreeAt(kids, t.kids[i])
  }

  // Children before their parent, in order.
  function PostOrder(t: Ids): seq<nat>
    decreases t, 1
  {
    PostAll(t.kids) + [t.id]
  }

  function PostAll(ts: seq<Ids>): seq<nat>
    decreases ts, 0
  {
    if ts == [] then [] else PostAll(ts[..|ts| - 1]) + PostOrder(ts[|ts| - 1])
  }

  // The subtrees come one after the other in the order of the list, and then the node.
  lemma PostIs(t: Ids, i: nat, j: nat) returns (a: seq<nat>, b: seq<nat>, c: seq<nat>)
    requires i < j < |t.kids|
    ensures PostOrder(t) == a + PostOrder(t.kids[i]) + b + PostOrder(t.kids[j]) + c + [t.id]
  {
    var before: seq<nat>;
    before, c := PostItem(t.kids, j);
    a, b := PostItem(t.kids[..j], i);
    assert t.kids[..j][i] == t.kids[i];
  }

  lemma {:induction false} PostItem(ts: seq<Ids>, i: nat) returns (a: seq<nat>, b: seq<nat>)
    requires i < |ts|
    ensures a == PostAll(ts[..i]) && PostAll(ts) == a + PostOrder(ts[i]) + b
  {
    var front, last := ts[..|ts| - 1], PostOrder(ts[|ts| - 1]);
    if i == |ts| - 1 {
      a, b := PostAll(front), [];
      assert a + PostOrder(ts[i]) + b == a + PostOrder(ts[i]);
    } else {
      a, b := PostItem(front, i);
      assert front[..i] == ts[..i];
      assert a + PostOrder(ts[i]) + b + last == a + PostOrder(ts[i]) + (b + last);
      b := b + last;
    }
  }

  // It names the nodes of the tree and no other.
  lemma {:induction false} PostHas(t: Ids, x: nat)
    ensures x in PostOrder(t) <==> InTree(t, x)
    decreases t, 1
  {
    PostAllHas(t.kids, x);
  }

  lemma {:induction false} PostAllHas(ts: seq<Ids>, x: nat)
    ensures x in PostAll(ts) <==> InSome(ts, x)
    decreases ts, 0
  {
    if ts != [] {
      PostAllHas(ts[..|ts| - 1], x);
      PostHas(ts[|ts| - 1], x);
      InOneMore(ts, x);
    }
  }

  ghost predicate InSome(ts: seq<Ids>, x: nat) { exists i :: 0 <= i < |ts| && InTree(ts[i], x) }

  lemma InOneMore(ts: seq<Ids>, x: nat)
    requires ts != []
    ensures InSome(ts, x) <==> InSome(ts[..|ts| - 1], x) || InTree(ts[|ts| - 1], x)
  {
    var front := ts[..|ts| - 1];
    if InSome(front, x) {
      var i :| 0 <= i < |front| && InTree(front[i], x);
      assert InTree(ts[i], x);
    }
    forall i | 0 <= i < |front| && InTree(ts[i], x) ensures InSome(front, x) {
      assert InTree(front[i], x);
    }
  }

  ghost predicate InTree(t: Ids, x: nat)
    decreases t
  {
    t.id == x || exists i :: 0 <= i < |t.kids| && InTree(t.kids[i], x)
  }

  // Every child is a node, and node is nobody's child.
  ghost predicate Closed(kids: Kids, node: nat) {
    forall p, c :: p in kids && c in kids[p] ==> c in kids && c != node
  }

  // A tree is the same after the list of a node that is nobody's child has changed.
  lemma {:induction false} TreeSame(kids: Kids, k: Kids, t: Ids, node: nat)
    requires TreeAt(kids, t) && t.id in k && t.id != node && Closed(k, node)
    requires forall p :: p in k && p != node ==> p in kids && k[p] == kids[p]
    ensures TreeAt(k, t)
    decreases t
  {
    forall i | 0 <= i < |t.kids| ensures TreeAt(k, t.kids[i]) {
      assert k[t.id][i] in k[t.id];
      TreeSame(kids, k, t.kids[i], node);
    }
  }

  // A tree is the same after lists outside it have changed.
  lemma {:induction false} TreeFrame(kids: Kids, k: Kids, t: Ids)
    requires TreeAt(kids, t) && forall p :: InTree(t, p) ==> p in k && p in kids && k[p] == kids[p]
    ensures TreeAt(k, t)
    decreases t
  {
    assert InTree(t, t.id);
    forall i | 0 <= i < |t.kids| ensures TreeAt(k, t.kids[i]) {
      forall p | InTree(t.kids[i], p) ensures InTree(t, p) {
      }
      TreeFrame(kids, k, t.kids[i]);
    }
  }

  lemma {:induction false} OneTree(kids: Kids, t: Ids, u: Ids)
    requires TreeAt(kids, t) && TreeAt(kids, u) && t.id == u.id
    ensures t == u
    decreases t
  {
    forall i | 0 <= i < |t.kids| ensures t.kids[i] == u.kids[i] {
      OneTree(kids, t.kids[i], u.kids[i]);
    }
    assert t.kids == u.kids;
  }

  ghost function Size(t: Ids): nat
    decreases t, 1
  {
    1 + SizeAll(t.kids)
  }

  ghost function SizeAll(ts: seq<Ids>): nat
    decreases ts, 0
  {
    if ts == [] then 0 else Size(ts[0]) + SizeAll(ts[1..])
  }

  lemma {:induction false} SizeItem(ts: seq<Ids>, i: nat)
    requires i < |ts|
    ensures Size(ts[i]) <= SizeAll(ts)
  {
    if i > 0 { SizeItem(ts[1..], i - 1); }
  }

  // A node with node among its children is not in the tree of node.
  lemma ParentOutside(kids: Kids, t: Ids, p: nat)
    requires TreeAt(kids, t) && p in kids && t.id in kids[p]
    ensures !InTree(t, p)
  {
    if InTree(t, p) {
      var s := Subtree(kids, t, p);
      var i :| 0 <= i < |kids[p]| && kids[p][i] == t.id;
      OneTree(kids, s.kids[i], t);
      SizeItem(s.kids, i);
    }
  }

  lemma {:induction false} Subtree(kids: Kids, t: Ids, x: nat) returns (s: Ids)
    requires TreeAt(kids, t) && InTree(t, x)
    ensures TreeAt(kids, s) && s.id == x && Size(s) <= Size(t)
    decreases t
  {
    if t.id == x {
      s := t;
    } else {
      var i :| 0 <= i < |t.kids| && InTree(t.kids[i], x);
      s := Subtree(kids, t.kids[i], x);
      SizeItem(t.kids, i);
    }
  }

  // Without cycles there is a tree under every node.
  lemma {:induction false} AcyclicTree(mem: Nodes, kids: Kids, rank: map<nat, nat>, top: nat, n: nat) returns (t: Ids)
    requires Links(mem, kids, {}) && Ranked(mem, rank) && n in mem && forall x :: x in mem ==> rank[x] <= top
    ensures t.id == n && TreeAt(kids, t)
    decreases top - rank[n]
  {
    var ts := AcyclicTrees(mem, kids, rank, top, n, kids[n]);
    t := Ids(n, ts);
  }

  lemma {:induction false} AcyclicTrees(mem: Nodes, kids: Kids, rank: map<nat, nat>, top: nat, n: nat,
                                        q: seq<nat>) returns (ts: seq<Ids>)
    requires Links(mem, kids, {}) && Ranked(mem, rank) && n in mem && forall x :: x in mem ==> rank[x] <= top
    requires forall c :: c in q ==> c in kids[n]
    ensures |ts| == |q| && forall i :: 0 <= i < |q| ==> ts[i].id == q[i] && TreeAt(kids, ts[i])
    decreases top - rank[n], |q|
  {
    if q == [] {
      ts := [];
    } else {
      assert q[0] in kids[n];
      OneParent(mem, kids, {}, n, q[0]);
      var t := AcyclicTree(mem, kids, rank, top, q[0]);
      var rest := AcyclicTrees(mem, kids, rank, top, n, q[1..]);
      ts := [t] + rest;
    }
  }

  // What dom_node_destroy leaves: all nodes but those gone, each of which was there and is gone once; node is
  // out of every list and no list has changed otherwise.
  ghost predicate Destroyed(mem: Nodes, kids: Kids, m: Nodes, k: Kids, node: nat, gone: seq<nat>) {
    && NoDup(gone) && (forall x :: x in gone ==> x in mem)
    && (forall x :: x in m <==> x in mem && x !in gone)
    && (forall x :: x in m ==> m[x].parent == mem[x].parent && m[x].content == mem[x].content)
    && (forall p :: p in k ==> p in kids && k[p] == Remove(kids[p], node))
  }

  // Taking node out of its list leaves the trees under it alone.
  lemma TreesBelow(mem: Nodes, kids: Kids, dying: set<nat>, t: Ids, k: Kids)
    requires Links(mem, kids, dying) && TreeAt(kids, t) && t.id !in dying && k == Without(kids, t.id)
    ensures t.id in k && k[t.id] == kids[t.id] && forall j :: 0 <= j < |t.kids| ==> TreeAt(k, t.kids[j])
  {
    forall p | InTree(t, p) ensures p in kids && p in k && k[p] == kids[p] {
      var s := Subtree(kids, t, p);
      if t.id in kids[p] { ParentOutside(kids, t, p); }
    }
    assert InTree(t, t.id);
    TreeFrame(kids, k, t);
  }

  // ts are the trees of the nodes in q.
  ghost predicate Trees(kids: Kids, q: seq<nat>, ts: seq<Ids>) {
    |ts| == |q| && forall i :: 0 <= i < |ts| ==> ts[i].id == q[i] && TreeAt(kids, ts[i])
  }

  // The trees of the later children survive the destruction of the first.
  lemma TreesAfter(mem: Nodes, kids: Kids, dying: set<nat>, was: Kids, ts: seq<Ids>, node: nat, c: nat)
    requires Links(mem, kids, dying) && node in dying && node in kids && node in was
    requires was[node] != [] && c == was[node][0]
    requires forall p :: p in kids ==> p in was && kids[p] == Remove(was[p], c)
    requires forall p :: p in was && p != node ==> c !in was[p]
    requires Trees(was, was[node], ts)
    ensures Trees(kids, kids[node], ts[1..])
  {
    forall p, x | p in kids && x in kids[p] ensures x in kids && x != node {
      OneParent(mem, kids, dying, p, x);
    }
    assert kids[node] == was[node][1..];
    forall i | 0 <= i < |ts| - 1 ensures ts[1..][i].id == kids[node][i] && TreeAt(kids, ts[1..][i]) {
      assert ts[1..][i] == ts[i + 1] && kids[node][i] in kids[node];
      OneParent(mem, kids, dying, node, ts[i + 1].id);
      TreeSame(was, kids, ts[i + 1], node);
    }
  }

  lemma FreedLinks(mem: Nodes, kids: Kids, dying: set<nat>, node: nat)
    requires Links(mem, kids, dying + {node}) && node in mem && kids[node] == [] && node !in dying
    ensures Links(mem - {node}, kids - {node}, dying)
  {
    var m, k := mem - {node}, kids - {node};
    forall s | s in m ensures Children(m, s, k[s]) {
      assert Children(mem, s, kids[s]);
      assert node !in kids[s];
    }
    forall x | x in m && x !in dying ensures Placed(m, k, x) {
      assert Placed(mem, kids, x);
    }
  }

  // Some children of node are destroyed, with the nodes under them: those in gone.
  ghost predicate Progress(mem: Nodes, kids: Kids, node: nat, m: Nodes, k: Kids, gone: seq<nat>) {
    && NoDup(gone) && (forall x :: x in gone ==> x in mem)
    && (forall x :: x in m <==> x in mem && x !in gone)
    && (forall x :: x in m ==> m[x].parent == mem[x].parent && m[x].content == mem[x].content)
    && (forall p :: p in k && p != node ==> p in kids && k[p] == kids[p])
  }

  // Nodes that wait to be freed are still there.
  ghost predicate Stay(dying: set<nat>, mem: Nodes, m: Nodes) { forall d :: d in dying && d in mem ==> d in m }

  lemma NoneGone(mem: Nodes, kids: Kids, node: nat)
    ensures Progress(mem, kids, node, mem, kids, [])
  {
  }

  lemma FirstGone(mem: Nodes, kids: Kids, node: nat, m: Nodes, k: Kids, c: nat, gone: seq<nat>)
    requires Destroyed(mem, kids, m, k, c, gone) && forall p :: p in kids && p != node ==> c !in kids[p]
    ensures Progress(mem, kids, node, m, k, gone)
  {
  }

  lemma ProgressMore(mem: Nodes, kids: Kids, node: nat, m1: Nodes, k1: Kids, gone: seq<nat>, m2: Nodes, k2: Kids,
                     more: seq<nat>)
    requires Progress(mem, kids, node, m1, k1, gone) && Progress(m1, k1, node, m2, k2, more)
    ensures Progress(mem, kids, node, m2, k2, gone + more)
  {
    ConcatNoDup(gone, more);
  }

  lemma ListEnds(mem: Nodes, kids: Kids, dying: set<nat>, p: nat)
    requires Links(mem, kids, dying) && p in mem && At(kids[p], 0) == 0
    ensures kids[p] == []
  {
    assert Children(mem, p, kids[p]);
  }

  lemma NextPost(ts: seq<Ids>, i: nat)
    requires i < |ts|
    ensures PostAll(ts[..i + 1]) == PostAll(ts[..i]) + PostOrder(ts[i]) && ts[i..] == [ts[i]] + ts[i + 1..]
  {
    assert ts[..i + 1][..i] == ts[..i];
  }

  // The whole of dom_node_destroy: out of the parent's list, every child, then node.
  lemma AllGone(mem: Nodes, kids: Kids, node: nat, m1: Nodes, k1: Kids, m2: Nodes, k2: Kids, gone: seq<nat>)
    requires m1.Keys == mem.Keys && k1 == Without(kids, node) && node in m2 && kids.Keys == mem.Keys
    requires forall x :: x in mem ==> m1[x].parent == mem[x].parent && m1[x].content == mem[x].content
    requires Progress(m1, k1, node, m2, k2, gone)
    ensures Destroyed(mem, kids, m2 - {node}, k2 - {node}, node, gone + [node])
  {
  }

  // ----- The memory of nodes -----

  class Arena {
    var nodes: Nodes
    // Everything free() has been called on, in order.
    var freed: seq<nat>
    ghost var kids: Kids

    ghost predicate Valid()
      reads this
    {
      Links(nodes, kids, {})
    }

    constructor ()
      ensures Valid() && nodes == map[] && freed == []
    {
      nodes, freed, kids := map[], [], map[];
    }

    // dom_node_create and its kin: calloc'ed memory at an address that is not in use.
    method Create(content: Content, node: nat)
      requires Valid() && node != 0 && node !in nodes
      modifies this`nodes, this`kids
      ensures Valid() && kids == old(kids)[node := []]
      ensures nodes == old(nodes)[node := Node(content, 0, 0, 0, 0, 0)]
    {
      ghost var m, k := nodes[node := Node(content, 0, 0, 0, 0, 0)], kids[node := []];
      forall s | s in m ensures Children(m, s, k[s]) {
        if s != node { assert Children(nodes, s, kids[s]); }
      }
      forall x | x in m ensures Placed(m, k, x) {
        if x != node { assert Placed(nodes, kids, x); }
      }
      nodes := nodes[node := Node(content, 0, 0, 0, 0, 0)];
      kids := k;
    }

    // The stores that dom_node_remove_child and dom_node_destroy share.
    method Bypass(parent: nat, child: nat)
      requires parent in nodes && child in nodes && 0 !in nodes
      requires nodes[child].prev != 0 ==> nodes[child].prev in nodes && nodes[child].prev != child
      requires nodes[child].next != 0 ==> nodes[child].next in nodes && nodes[child].next != child
      modifies this`nodes
      ensures nodes == Bypassed(old(nodes), parent, child)
    {
      if nodes[parent].first == child {
        nodes := nodes[parent := nodes[parent].(first := nodes[child].next)];
      }
      if nodes[parent].last == child {
        nodes := nodes[parent := nodes[parent].(last := nodes[child].prev)];
      }
      if nodes[child].prev != 0 {
        nodes := nodes[nodes[child].prev := nodes[nodes[child].prev].(next := nodes[child].next)];
      }
      if nodes[child].next != 0 {
        nodes := nodes[nodes[child].next := nodes[nodes[child].next].(prev := nodes[child].prev)];
      }
    }

    // The stores that clear a removed child's own links.
    method Clear(child: nat)
      requires child in nodes
      modifies this`nodes
      ensures nodes == Cleared(old(nodes), child)
    {
      nodes := nodes[child := nodes[child].(parent := 0)];
      nodes := nodes[child := nodes[child].(prev := 0)];
      nodes := nodes[child := nodes[child].(next := 0)];
    }

    // dom_node_remove_child
    method RemoveChild(parent: nat, child: nat)
      requires Valid() && (parent != 0 ==> parent in nodes) && (child != 0 ==> child in nodes)
      modifies this`nodes, this`kids
      ensures Valid()
      ensures parent == 0 || child == 0 || old(nodes)[child].parent != parent ==> kids == old(kids) && nodes == old(nodes)
      ensures parent != 0 && child != 0 && old(nodes)[child].parent == parent ==>
        kids == Without(old(kids), child) && Reparented(old(nodes), nodes, 0, child)
    {
      if parent == 0 || child == 0 || nodes[child].parent != parent {
        return;
      }
      ghost var m := Cleared(Bypassed(nodes, parent, child), child);
      RemovedIsWithout(nodes, kids, parent, child, m);
      Siblings(nodes, kids, {}, parent, child);
      Bypass(parent, child);
      Clear(child);
      kids := Without(kids, child);
    }

    // The stores of dom_node_append_child after the removal.
    method Link(parent: nat, child: nat)
      requires parent in nodes && child in nodes && 0 !in nodes
      requires nodes[parent].first != 0 ==> nodes[parent].last in nodes
      modifies this`nodes
      ensures nodes == Linked(old(nodes), parent, child)
    {
      nodes := nodes[child := nodes[child].(parent := parent)];
      if nodes[parent].first == 0 {
        nodes := nodes[parent := nodes[parent].(first := child)];
        nodes := nodes[parent := nodes[parent].(last := child)];
      } else {
        nodes := nodes[nodes[parent].last := nodes[nodes[parent].last].(next := child)];
        nodes := nodes[child := nodes[child].(prev := nodes[parent].last)];
        nodes := nodes[parent := nodes[parent].(last := child)];
      }
    }

    // dom_node_append_child
    method AppendChild(parent: nat, child: nat)
      requires Valid() && (parent != 0 ==> parent in nodes) && (child != 0 ==> child in nodes)
      modifies this`nodes, this`kids
      ensures Valid()
      ensures parent == 0 || child == 0 ==> kids == old(kids) && nodes == old(nodes)
      ensures parent != 0 && child != 0 ==>
        kids == Appended(old(kids), parent, child) && Reparented(old(nodes), nodes, parent, child)
    {
      if parent == 0 || child == 0 {
        return;
      }
      AppendedIs(nodes, kids, parent, child, Without(kids, child));
      if nodes[child].parent != 0 {
        assert Placed(nodes, kids, child);
        RemoveChild(nodes[child].parent, child);
      } else {
        WithoutOrphan(nodes, kids, child);
      }
      ghost var mid := nodes;
      LinkedIsAppended(nodes, kids, parent, child, Linked(nodes, parent, child), kids[parent := kids[parent] + [child]]);
      Link(parent, child);
      ReparentedTwice(old(nodes), mid, nodes, child, 0, parent);
      kids := kids[parent := kids[parent] + [child]];
    }

    // The part of dom_node_destroy that takes the node out of its parent's list.
    method Unlink(node: nat, ghost t: Ids, ghost dying: set<nat>)
      requires Links(nodes, kids, dying) && node in nodes && node !in dying && t.id == node && TreeAt(kids, t)
      modifies this`nodes, this`kids
      ensures Links(nodes, kids, dying + {node}) && kids == Without(old(kids), node)
      ensures nodes.Keys == old(nodes).Keys && node in kids && kids[node] == old(kids)[node]
      ensures forall x :: x in old(nodes) ==> nodes[x].parent == old(nodes)[x].parent && nodes[x].content == old(nodes)[x].content
      ensures forall j :: 0 <= j < |t.kids| ==> TreeAt(kids, t.kids[j])
    {
      TreesBelow(nodes, kids, dying, t, Without(kids, node));
      var parent := nodes[node].parent;
      assert Placed(nodes, kids, node);
      if parent != 0 {
        Siblings(nodes, kids, dying, parent, node);
        BypassedIsWithout(nodes, kids, dying, parent, node, Bypassed(nodes, parent, node), Without(kids, node));
        Bypass(parent, node);
      } else {
        RootIsDying(nodes, kids, dying, node);
      }
      kids := Without(kids, node);
    }

    // free(node)
    method Free(node: nat, ghost dying: set<nat>)
      requires Links(nodes, kids, dying + {node}) && node in nodes && kids[node] == [] && node !in dying
      modifies this`nodes, this`kids, this`freed
      ensures Links(nodes, kids, dying) && nodes == old(nodes) - {node} && kids == old(kids) - {node}
      ensures freed == old(freed) + [node]
    {
      FreedLinks(nodes, kids, dying, node);
      nodes := nodes - {node};
      kids := kids - {node};
      freed := freed + [node];
    }

    // The recursion of dom_node_destroy, on a node whose descendants form the finite tree t.
    method DestroyTree(node: nat, ghost t: Ids, ghost dying: set<nat>)
      requires Links(nodes, kids, dying) && node in nodes && node !in dying && t.id == node && TreeAt(kids, t)
      modifies this`nodes, this`kids, this`freed
      ensures Links(nodes, kids, dying)
      ensures freed == old(freed) + PostOrder(t)
      ensures Destroyed(old(nodes), old(kids), nodes, kids, node, PostOrder(t))
      ensures Stay(dying, old(nodes), nodes)
      decreases t, 0
    {
      Unlink(node, t, dying);
      ghost var m1, k1, gone, log := nodes, kids, PostAll(t.kids), freed;
      DestroyChildren(node, t.kids, dying + {node});
      AllGone(old(nodes), old(kids), node, m1, k1, nodes, kids, gone);
      Free(node, dying);
      Regroup(log, gone, [node]);
    }

    // One turn of the loop: the first child goes, next is the one after it.
    method DestroyFirst(node: nat, child: nat, ghost t: Ids, ghost rest: seq<Ids>,
                        ghost dying: set<nat>) returns (next: nat)
      requires Links(nodes, kids, dying) && node in nodes && node in dying && kids[node] != [] && child == kids[node][0]
      requires Trees(kids, kids[node], [t] + rest)
      modifies this`nodes, this`kids, this`freed
      ensures Links(nodes, kids, dying) && node in nodes && Trees(kids, kids[node], rest) && next == At(kids[node], 0)
      ensures freed == old(freed) + PostOrder(t)
      ensures Progress(old(nodes), old(kids), node, nodes, kids, PostOrder(t))
      ensures Stay(dying, old(nodes), nodes)
      decreases t, 1
    {
      ghost var k := kids;
      SecondIs(nodes, kids, dying, node);
      assert ([t] + rest)[0] == t && ([t] + rest)[1..] == rest;
      next := nodes[child].next;
      DestroyTree(child, t, dying);
      FirstGone(old(nodes), old(kids), node, nodes, kids, child, PostOrder(t));
      TreesAfter(nodes, kids, dying, k, [t] + rest, node, child);
    }

    // Where the loop of dom_node_destroy stands before child: the first i subtrees are gone.
    ghost predicate Standing(mem: Nodes, k: Kids, log: seq<nat>, node: nat, ts: seq<Ids>, i: nat, dying: set<nat>,
                             child: nat)
      reads this
    {
      && i <= |ts| && node in nodes && Links(nodes, kids, dying) && node in kids
      && child == At(kids[node], 0) && Trees(kids, kids[node], ts[i..])
      && freed == log + PostAll(ts[..i]) && Progress(mem, k, node, nodes, kids, PostAll(ts[..i]))
      && Stay(dying, mem, nodes)
    }

    method DestroyNext(node: nat, child: nat, ghost ts: seq<Ids>, ghost i: nat, ghost dying: set<nat>,
                       ghost mem: Nodes, ghost k: Kids, ghost log: seq<nat>) returns (next: nat)
      requires Standing(mem, k, log, node, ts, i, dying, child) && child != 0 && i < |ts| && node in dying
      modifies this`nodes, this`kids, this`freed
      ensures Standing(mem, k, log, node, ts, i + 1, dying, next)
      decreases ts[i], 2
    {
      ghost var m2, k2 := nodes, kids;
      NextPost(ts, i);
      next := DestroyFirst(node, child, ts[i], ts[i + 1..], dying);
      ProgressMore(mem, k, node, m2, k2, PostAll(ts[..i]), nodes, kids, PostOrder(ts[i]));
      Regroup(log, PostAll(ts[..i]), PostOrder(ts[i]));
    }

    // The loop of dom_node_destroy.
    method DestroyChildren(node: nat, ghost ts: seq<Ids>, ghost dying: set<nat>)
      requires Links(nodes, kids, dying) && node in nodes && node in dying && Trees(kids, kids[node], ts)
      modifies this`nodes, this`kids, this`freed
      ensures Links(nodes, kids, dying) && node in nodes && kids[node] == []
      ensures freed == old(freed) + PostAll(ts)
      ensures Progress(old(nodes), old(kids), node, nodes, kids, PostAll(ts))
      ensures Stay(dying, old(nodes), nodes)
      decreases ts, 0
    {
      HeadIs(nodes, kids, dying, node);
      var child := nodes[node].first;
      ghost var i := 0;
      NoneGone(nodes, kids, node);
      while child != 0
        invariant Standing(old(nodes), old(kids), old(freed), node, ts, i, dying, child)
        decreases |ts| - i
      {
        child := DestroyNext(node, child, ts, i, dying, old(nodes), old(kids), old(freed));
        i := i + 1;
      }
      ListEnds(nodes, kids, dying, node);
      assert ts[..i] == ts;
    }

    // dom_node_destroy. Nothing is touched after it was freed, since freed nodes leave the map.
    method Destroy(node: nat, ghost t: Ids)
      requires Valid() && (node != 0 ==> node in nodes && t.id == node && TreeAt(kids, t))
      modifies this`nodes, this`kids, this`freed
      ensures Valid()
      ensures node == 0 ==> nodes == old(nodes) && freed == old(freed)
      ensures node != 0 ==> freed == old(freed) + PostOrder(t)
      ensures node != 0 ==> Destroyed(old(nodes), old(kids), nodes, kids, node, PostOrder(t))
    {
      if node == 0 {
        return;
      }
      DestroyTree(node, t, {});
    }

    // dom_node_set_attribute
    method SetAttribute(node: nat, name: string, value: Option<string>)
      requires Valid() && node in nodes && nodes[node].content.Element?
      modifies this`nodes
      ensures Valid() && nodes == WithContent(old(nodes), node, Element(old(nodes)[node].content.tag,
        WithAttr(old(nodes)[node].content.attrs, name, value)))
    {
      var tag, attrs := nodes[node].content.tag, nodes[node].content.attrs;
      var i := 0;
      while i < |attrs|
        invariant 0 <= i <= |attrs| && nodes == old(nodes) && forall k :: 0 <= k < i ==> attrs[k].name != name
      {
        if attrs[i].name == name {
          SetAt(attrs, name, value, i);
          ContentLinks(nodes, kids, node, Element(tag, attrs[i := Attr(name, value)]));
          nodes := nodes[node := nodes[node].(content := Element(tag, attrs[i := Attr(name, value)]))];
          return;
        }
        i := i + 1;
      }
      SetAt(attrs, name, value, i);
      ContentLinks(nodes, kids, node, Element(tag, attrs + [Attr(name, value)]));
      nodes := nodes[node := nodes[node].(content := Element(tag, attrs + [Attr(name, value)]))];
    }

    // dom_node_get_attribute
    method GetAttribute(node: nat, name: string) returns (value: Option<string>)
      requires node in nodes && nodes[node].content.Element?
      ensures value == ValueOf(nodes[node].content.attrs, name)
    {
      var attrs := nodes[node].content.attrs;
      var i := 0;
      while i < |attrs|
        invariant 0 <= i <= |attrs| && ValueOf(attrs, name) == ValueOf(attrs[i..], name)
      {
        if attrs[i].name == name {
          return attrs[i].value;
        }
        i := i + 1;
      }
      return None;
    }
  }

  // The siblings of a child are nodes other than itself.
  lemma Siblings(mem: Nodes, kids: Kids, dying: set<nat>, p: nat, c: nat)
    requires Links(mem, kids, dying) && p in kids && c in kids[p]
    ensures c in mem
    ensures mem[c].prev != 0 ==> mem[c].prev in mem && mem[c].prev != c
    ensures mem[c].next != 0 ==> mem[c].next in mem && mem[c].next != c
  {
    assert Children(mem, p, kids[p]);
    var i :| 0 <= i < |kids[p]| && kids[p][i] == c;
    assert mem[kids[p][i]].prev == At(kids[p], i - 1) && mem[kids[p][i]].next == At(kids[p], i + 1);
    if i > 0 { assert kids[p][i - 1] in mem; }
    if i + 1 < |kids[p]| { assert kids[p][i + 1] in mem; }
  }

  lemma WithoutOrphan(mem: Nodes, kids: Kids, c: nat)
    requires Links(mem, kids, {}) && c in mem && mem[c].parent == 0
    ensures Without(kids, c) == kids
  {
    Orphan(mem, kids, c);
  }

  lemma RootIsDying(mem: Nodes, kids: Kids, dying: set<nat>, c: nat)
    requires Links(mem, kids, dying) && c in mem && mem[c].parent == 0
    ensures Without(kids, c) == kids && Links(mem, kids, dying + {c})
  {
    forall r | r in kids ensures c !in kids[r] {
      if c in kids[r] { OneParent(mem, kids, dying, r, c); }
    }
  }

  lemma HeadIs(mem: Nodes, kids: Kids, dying: set<nat>, p: nat)
    requires Links(mem, kids, dying) && p in mem
    ensures mem[p].first == At(kids[p], 0)
  {
    assert Children(mem, p, kids[p]);
  }

  // The first child is a node with this parent only, and is followed by the second.
  lemma SecondIs(mem: Nodes, kids: Kids, dying: set<nat>, p: nat)
    requires Links(mem, kids, dying) && p in mem && kids[p] != []
    ensures var c := kids[p][0];
      && c in mem && c !in dying && c != 0 && mem[c].next == At(kids[p], 1)
      && Remove(kids[p], c) == kids[p][1..] && At(kids[p], 1) == At(kids[p][1..], 0)
      && forall r :: r in kids && r != p ==> c !in kids[r]
  {
    assert Children(mem, p, kids[p]);
    assert kids[p][0] in kids[p];
    OneParent(mem, kids, dying, p, kids[p][0]);
  }
}

/** The tree builder of html/src/html/html_parser.c on linked nodes: after every token the nodes below the
    document spell out the tree that HtmlTree specifies. */
module HtmlBuilder {
  import opened Lists
  import opened Dom
  import opened HtmlTree
  import opened HtmlLexer
  import opened HtmlParser
  import opened HtmlRoundTrip

  // ----- Nodes that spell out a tree -----

  // The node n and what is below it is the tree t, without any node of open.
  ghost predicate Represents(mem: Nodes, kids: Kids, n: nat, t: Tree, open: seq<nat>)
    decreases t, 1
  {
    && n in mem && n in kids && n !in open && mem[n].content == t.content
    && RepresentsAll(mem, kids, kids[n], t.kids, open)
  }

  ghost predicate RepresentsAll(mem: Nodes, kids: Kids, q: seq<nat>, ts: seq<Tree>, open: seq<nat>)
    decreases ts, 0
  {
    |q| == |ts| && forall i :: 0 <= i < |ts| ==> Represents(mem, kids, q[i], ts[i], open)
  }

  // Content and children of all nodes outside open stay; node is in no list and may join open.
  ghost predicate Unmoved(mem: Nodes, kids: Kids, m: Nodes, k: Kids, open: seq<nat>, open': seq<nat>, node: nat) {
    && (forall x :: x in mem && x in kids && x !in open ==> x in m && x in k && m[x].content == mem[x].content && k[x] == kids[x])
    && (forall x :: x in open' ==> x in open || x == node)
    && (forall p :: p in kids ==> node !in kids[p])
  }

  lemma {:induction false} RepresentsFrame(mem: Nodes, kids: Kids, m: Nodes, k: Kids, n: nat, t: Tree,
                                           open: seq<nat>, open': seq<nat>, node: nat)
    requires Represents(mem, kids, n, t, open) && Unmoved(mem, kids, m, k, open, open', node) && n != node
    ensures Represents(m, k, n, t, open')
    decreases t, 1
  {
    RepresentsAllFrame(mem, kids, m, k, kids[n], t.kids, open, open', node);
  }

  lemma {:induction false} RepresentsAllFrame(mem: Nodes, kids: Kids, m: Nodes, k: Kids, q: seq<nat>,
                                              ts: seq<Tree>, open: seq<nat>, open': seq<nat>, node: nat)
    requires RepresentsAll(mem, kids, q, ts, open) && Unmoved(mem, kids, m, k, open, open', node) && node !in q
    ensures RepresentsAll(m, k, q, ts, open')
    decreases ts, 0
  {
    forall i | 0 <= i < |ts| ensures Represents(m, k, q[i], ts[i], open') {
      assert q[i] in q;
      RepresentsFrame(mem, kids, m, k, q[i], ts[i], open, open', node);
    }
  }

  // The open node path[i]: its finished children, then the next open node.
  ghost predicate OpenOk(mem: Nodes, kids: Kids, path: seq<nat>, z: seq<Frame>, i: nat)
    requires i < |path| && |path| == |z|
  {
    var n, done := path[i], |z[i].kids|;
    && n in mem && n in kids && mem[n].content == z[i].content
    && |kids[n]| == done + (if i + 1 < |path| then 1 else 0)
    && (i + 1 < |path| ==> kids[n][done] == path[i + 1])
    && RepresentsAll(mem, kids, kids[n][..done], z[i].kids, path)
  }

  // path leads from the document down last children to the current node, as the stack says.
  ghost predicate Stacked(mem: Nodes, kids: Kids, path: seq<nat>, z: seq<Frame>) {
    && |path| == |z| && path != [] && NoDup(path)
    && forall i {:trigger OpenOk(mem, kids, path, z, i)} :: 0 <= i < |path| ==> OpenOk(mem, kids, path, z, i)
  }

  // A new node changes nothing while it is in no list.
  lemma StackedFrame(mem: Nodes, kids: Kids, m: Nodes, k: Kids, path: seq<nat>, z: seq<Frame>, node: nat)
    requires Stacked(mem, kids, path, z) && node !in kids && forall p :: p in kids ==> node !in kids[p]
    requires forall x :: x in mem && x in kids ==> x in m && x in k && m[x].content == mem[x].content && k[x] == kids[x]
    ensures Stacked(m, k, path, z)
  {
    forall i | 0 <= i < |path| ensures OpenOk(m, k, path, z, i) {
      assert OpenOk(mem, kids, path, z, i);
      var q := kids[path[i]][..|z[i].kids|];
      assert node !in q by { assert forall x :: x in q ==> x in kids[path[i]]; }
      RepresentsAllFrame(mem, kids, m, k, q, z[i].kids, path, path, node);
    }
  }

  // node, so far in no list and without children, is now the last child of the current node.
  ghost predicate Hung(mem: Nodes, kids: Kids, m: Nodes, k: Kids, cur: nat, node: nat, content: Content) {
    && cur in kids && node in mem && node in kids && kids[node] == [] && node != cur && mem[node].content == content
    && (forall p :: p in kids ==> node !in kids[p])
    && m.Keys == mem.Keys && (forall x :: x in mem ==> m[x].content == mem[x].content)
    && k == kids[cur := kids[cur] + [node]]
  }

  // An open node above the current one does not notice.
  lemma HungAbove(mem: Nodes, kids: Kids, m: Nodes, k: Kids, path: seq<nat>, z: seq<Frame>, path': seq<nat>,
                  z': seq<Frame>, node: nat, content: Content, i: nat)
    requires Stacked(mem, kids, path, z) && node !in path && i < |path| - 1
    requires Hung(mem, kids, m, k, path[|path| - 1], node, content)
    requires |path'| == |z'| && |path| <= |path'| && path'[..|path|] == path && z'[..|path| - 1] == z[..|path| - 1]
    requires forall x :: x in path' ==> x in path || x == node
    ensures OpenOk(m, k, path', z', i)
  {
    assert OpenOk(mem, kids, path, z, i);
    var q := kids[path[i]][..|z[i].kids|];
    assert node !in q by { assert forall x :: x in q ==> x in kids[path[i]]; }
    RepresentsAllFrame(mem, kids, m, k, q, z[i].kids, path, path', node);
    assert path'[i] == path[i] && path'[i + 1] == path[i + 1] && z'[i] == z[i];
  }

  lemma HangLeaf(mem: Nodes, kids: Kids, m: Nodes, k: Kids, path: seq<nat>, z: seq<Frame>, node: nat, content: Content)
    requires Stacked(mem, kids, path, z) && node !in path && Hung(mem, kids, m, k, path[|path| - 1], node, content)
    ensures Stacked(m, k, path, Add(z, Tree(content, [])))
  {
    var top, z' := |path| - 1, Add(z, Tree(content, []));
    forall i | 0 <= i < |path| ensures OpenOk(m, k, path, z', i) {
      if i < top {
        HungAbove(mem, kids, m, k, path, z, path, z', node, content, i);
      } else {
        assert OpenOk(mem, kids, path, z, top);
        var q := kids[path[top]];
        assert q[..|z[top].kids|] == q;
        RepresentsAllFrame(mem, kids, m, k, q, z[top].kids, path, path, node);
        assert (q + [node])[..|q| + 1] == q + [node];
        assert Represents(m, k, node, Tree(content, []), path);
      }
    }
  }

  lemma HangOpen(mem: Nodes, kids: Kids, m: Nodes, k: Kids, path: seq<nat>, z: seq<Frame>, node: nat, content: Content)
    requires Stacked(mem, kids, path, z) && node !in path && Hung(mem, kids, m, k, path[|path| - 1], node, content)
    ensures Stacked(m, k, path + [node], z + [Frame(content, [])])
  {
    var top, path', z' := |path| - 1, path + [node], z + [Frame(content, [])];
    ConcatNoDup(path, [node]);
    forall i | 0 <= i < |path'| ensures OpenOk(m, k, path', z', i) {
      if i < top {
        HungAbove(mem, kids, m, k, path, z, path', z', node, content, i);
      } else if i == top {
        assert OpenOk(mem, kids, path, z, top);
        var q := kids[path[top]];
        assert q[..|z[top].kids|] == q;
        RepresentsAllFrame(mem, kids, m, k, q, z[top].kids, path, path', node);
        assert (q + [node])[..|q|] == q;
      } else {
        assert k[node][..0] == [];
      }
    }
  }

  // Folding the stack does not touch the nodes.
  lemma FoldStacked(mem: Nodes, kids: Kids, path: seq<nat>, z: seq<Frame>)
    requires Stacked(mem, kids, path, z) && |z| > 1 && 0 !in kids && forall p :: p in kids ==> 0 !in kids[p]
    ensures Stacked(mem, kids, path[..|path| - 1], Fold(z))
  {
    var top, path', z' := |path| - 1, path[..|path| - 1], Fold(z);
    forall i | 0 <= i < |path'| ensures OpenOk(mem, kids, path', z', i) {
      assert OpenOk(mem, kids, path, z, i) && OpenOk(mem, kids, path, z, top);
      var q := kids[path[i]][..|z[i].kids|];
      RepresentsAllFrame(mem, kids, mem, kids, q, z[i].kids, path, path', 0);
      if i == top - 1 {
        var w := kids[path[top]];
        assert w[..|z[top].kids|] == w;
        RepresentsAllFrame(mem, kids, mem, kids, w, z[top].kids, path, path', 0);
        assert path[top] !in path';
        assert Represents(mem, kids, path[top], Tree(z[top].content, z[top].kids), path');
        assert kids[path[i]][..|q| + 1] == q + [path[top]];
      }
    }
  }

  lemma {:induction false} FoldToStacked(mem: Nodes, kids: Kids, path: seq<nat>, z: seq<Frame>, n: nat)
    requires Stacked(mem, kids, path, z) && 0 < n <= |z| && 0 !in kids && forall p :: p in kids ==> 0 !in kids[p]
    ensures Stacked(mem, kids, path[..n], FoldTo(z, n))
    decreases |z|
  {
    if |z| > n {
      FoldStacked(mem, kids, path, z);
      FoldToStacked(mem, kids, path[..|path| - 1], Fold(z), n);
      assert path[..|path| - 1][..n] == path[..n];
    } else {
      assert path[..n] == path;
    }
  }

  // At any moment the document spells out the whole tree.
  lemma {:induction false} WholeStacked(mem: Nodes, kids: Kids, path: seq<nat>, z: seq<Frame>)
    requires Stacked(mem, kids, path, z) && 0 !in kids && forall p :: p in kids ==> 0 !in kids[p]
    ensures Represents(mem, kids, path[0], Whole(z), [])
    decreases |z|
  {
    if |z| > 1 {
      FoldStacked(mem, kids, path, z);
      WholeStacked(mem, kids, path[..|path| - 1], Fold(z));
    } else {
      assert OpenOk(mem, kids, path, z, 0);
      var q := kids[path[0]];
      assert q[..|z[0].kids|] == q;
      RepresentsAllFrame(mem, kids, mem, kids, q, z[0].kids, path, [], 0);
    }
  }

  // What spells out a tree is a finite tree of nodes, as dom_node_destroy needs it.
  lemma {:induction false} RepresentedIsTree(mem: Nodes, kids: Kids, n: nat, t: Tree, open: seq<nat>) returns (ids: Ids)
    requires Represents(mem, kids, n, t, open)
    ensures ids.id == n && TreeAt(kids, ids)
    decreases t, 1
  {
    var all := RepresentedAreTrees(mem, kids, kids[n], t.kids, open);
    ids := Ids(n, all);
  }

  lemma {:induction false} RepresentedAreTrees(mem: Nodes, kids: Kids, q: seq<nat>, ts: seq<Tree>,
                                               open: seq<nat>) returns (all: seq<Ids>)
    requires RepresentsAll(mem, kids, q, ts, open)
    ensures Trees(kids, q, all)
    decreases ts, 0
  {
    all := [];
    if ts != [] {
      assert Represents(mem, kids, q[0], ts[0], open);
      forall i | 0 <= i < |ts| - 1 ensures Represents(mem, kids, q[1..][i], ts[1..][i], open) {
        assert Represents(mem, kids, q[i + 1], ts[i + 1], open);
      }
      var first := RepresentedIsTree(mem, kids, q[0], ts[0], open);
      var rest := RepresentedAreTrees(mem, kids, q[1..], ts[1..], open);
      all := [first] + rest;
    }
  }

  // What is not a node is in no list.
  lemma NotListed(mem: Nodes, kids: Kids, x: nat)
    requires Links(mem, kids, {}) && x !in mem
    ensures forall p :: p in kids ==> x !in kids[p]
  {
    forall p | p in kids ensures x !in kids[p] {
      if x in kids[p] { OneParent(mem, kids, {}, p, x); }
    }
  }

  // Appending a parentless, childless node hangs it below the current node.
  lemma AppendHangs(mem: Nodes, kids: Kids, m: Nodes, k: Kids, cur: nat, node: nat)
    requires Links(mem, kids, {}) && cur in mem && node in mem && cur != node && mem[node].parent == 0
    requires kids[node] == []
    requires k == Appended(kids, cur, node) && Reparented(mem, m, cur, node)
    ensures Hung(mem, kids, m, k, cur, node, mem[node].content)
  {
    Orphan(mem, kids, node);
    WithoutOrphan(mem, kids, node);
    AppendedIs(mem, kids, cur, node, kids);
  }

  // The parent of an open node is the open node above it.
  lemma OpenParent(mem: Nodes, kids: Kids, path: seq<nat>, z: seq<Frame>, i: nat)
    requires Links(mem, kids, {}) && Stacked(mem, kids, path, z) && 0 < i < |path|
    ensures path[i] in mem && mem[path[i]].parent == path[i - 1] && path[i - 1] != 0 && mem[path[i]].content == z[i].content
  {
    assert OpenOk(mem, kids, path, z, i - 1) && OpenOk(mem, kids, path, z, i);
    assert path[i] in kids[path[i - 1]];
    OneParent(mem, kids, {}, path[i - 1], path[i]);
  }

  // The open nodes, down to the current one, are each the last child of the one before.
  lemma LastChildSpine(mem: Nodes, kids: Kids, path: seq<nat>, z: seq<Frame>, i: nat)
    requires Links(mem, kids, {}) && Stacked(mem, kids, path, z) && 0 < i < |path|
    ensures path[i - 1] in mem && mem[path[i - 1]].last == path[i]
  {
    assert OpenOk(mem, kids, path, z, i - 1);
    assert Children(mem, path[i - 1], kids[path[i - 1]]);
  }

  lemma MatchingStep(z: seq<Frame>, name: string, i: nat)
    requires 0 < i < |z|
    ensures Matching(z[..i + 1], name) ==
      if z[i].content.Element? && SameName(z[i].content.tag, name) then i else Matching(z[..i], name)
  {
    assert z[..i + 1][..i] == z[..i];
  }

  class Builder {
    const dom: Arena
    var document: nat
    var currentNode: nat
    // malloc hands out addresses that no node has; a counter stands for it.
    var nextAddress: nat
    ghost var path: seq<nat>
    ghost var stack: seq<Frame>

    ghost predicate Valid()
      reads this, dom
    {
      && dom.Valid() && Stacked(dom.nodes, dom.kids, path, stack)
      && path != [] && document == path[0] && currentNode == path[|path| - 1]
      && nextAddress > 0 && forall n :: n in dom.nodes ==> n < nextAddress
    }

    // html_build_dom_tree up to its loop: an empty document.
    constructor ()
      ensures Valid() && fresh(dom) && stack == EMPTY && currentNode == document
    {
      dom := new Arena();
      document, currentNode, nextAddress := 1, 1, 2;
      path, stack := [1], EMPTY;
      new;
      dom.Create(Document, 1);
      assert dom.kids[1][..0] == [];
      assert OpenOk(dom.nodes, dom.kids, path, stack, 0);
    }

    // dom_element_create or dom_text_create: a new node, not yet in the tree.
    method CreateNode(content: Content) returns (node: nat)
      requires Valid()
      modifies this`nextAddress, dom
      ensures Valid() && node in dom.nodes && node !in path && IsNew(node, content)
    {
      node := nextAddress;
      nextAddress := nextAddress + 1;
      NotListed(dom.nodes, dom.kids, node);
      StackedFrame(dom.nodes, dom.kids, dom.nodes[node := Node(content, 0, 0, 0, 0, 0)], dom.kids[node := []], path, stack, node);
      NotOpen(dom.nodes, dom.kids, path, stack, node);
      dom.Create(content, node);
    }

    // A node without parent and children.
    ghost predicate IsNew(node: nat, content: Content)
      reads dom
    {
      && node in dom.nodes && dom.nodes[node].content == content && dom.nodes[node].parent == 0
      && node in dom.kids && dom.kids[node] == []
    }

    // dom_node_append_child to the current node, of a node that stays closed.
    method AppendLeaf(node: nat, ghost content: Content)
      requires Valid() && node !in path && IsNew(node, content)
      modifies this`stack, dom
      ensures Valid() && stack == Add(old(stack), Tree(content, []))
    {
      CurrentIsNode(dom.nodes, dom.kids, path, stack);
      ghost var mem, kids := dom.nodes, dom.kids;
      dom.AppendChild(currentNode, node);
      AppendHangs(mem, kids, dom.nodes, dom.kids, currentNode, node);
      HangLeaf(mem, kids, dom.nodes, dom.kids, path, stack, node, content);
      stack := Add(stack, Tree(content, []));
    }

    // The same of a node that becomes the current one.
    method AppendOpen(node: nat, ghost content: Content)
      requires Valid() && node !in path && IsNew(node, content)
      modifies this`stack, this`path, this`currentNode, dom
      ensures Valid() && stack == old(stack) + [Frame(content, [])]
    {
      CurrentIsNode(dom.nodes, dom.kids, path, stack);
      ghost var mem, kids := dom.nodes, dom.kids;
      dom.AppendChild(currentNode, node);
      AppendHangs(mem, kids, dom.nodes, dom.kids, currentNode, node);
      HangOpen(mem, kids, dom.nodes, dom.kids, path, stack, node, content);
      currentNode := node;
      path, stack := path + [node], stack + [Frame(content, [])];
    }

    // dom_element_create and the loop that sets the attributes.
    method CreateElement(name: string, attrs: seq<Attr>) returns (node: nat)
      requires Valid()
      modifies this`nextAddress, dom
      ensures Valid() && node !in path && IsNew(node, Element(name, SetAll(attrs)))
    {
      node := CreateNode(Element(name, []));
      var i := 0;
      while i < |attrs|
        invariant 0 <= i <= |attrs| && Valid() && node !in path && IsNew(node, Element(name, SetAll(attrs[..i])))
      {
        SetAllStep(attrs, i);
        ghost var mem := dom.nodes;
        dom.SetAttribute(node, attrs[i].name, attrs[i].value);
        ContentFrame(mem, dom.kids, dom.nodes, path, stack, node);
        i := i + 1;
      }
      assert attrs[..i] == attrs;
    }

    // html_handle_start_tag
    method HandleStartTag(name: string, attrs: seq<Attr>, selfClosing: bool)
      requires Valid()
      modifies this, dom
      ensures Valid() && stack == Step(old(stack), StartTag(name, attrs, selfClosing))
    {
      var element := CreateElement(name, attrs);
      if !selfClosing && !IsVoid(name) {
        AppendOpen(element, Element(name, SetAll(attrs)));
      } else {
        AppendLeaf(element, Element(name, SetAll(attrs)));
      }
    }

    // html_handle_text
    method HandleText(data: string)
      requires Valid()
      modifies this, dom
      ensures Valid() && stack == Step(old(stack), TextRun(data))
    {
      if data == "" {
        return;
      }
      var text := CreateNode(Text(data));
      AppendLeaf(text, Text(data));
    }

    // html_handle_end_tag: up from the current node to an element of that name, whose parent is then current.
    method HandleEndTag(name: string, attrs: seq<Attr>, selfClosing: bool)
      requires Valid()
      modifies this`currentNode, this`path, this`stack
      ensures Valid() && stack == Step(old(stack), EndTag(name, attrs, selfClosing))
    {
      var current := currentNode;
      ghost var i: nat := |path| - 1;
      assert stack[..i + 1] == stack;
      while current != 0 && current != document
        invariant Valid() && stack == old(stack) && i < |path| && current == path[i]
        invariant Matching(stack, name) == Matching(stack[..i + 1], name)
        decreases i
      {
        OpenParent(dom.nodes, dom.kids, path, stack, i);
        MatchingStep(stack, name, i);
        if dom.nodes[current].content.Element? && SameName(dom.nodes[current].content.tag, name) {
          FoldTwice(dom.nodes, dom.kids, path, stack, i);
          if dom.nodes[current].parent != 0 {
            currentNode := dom.nodes[current].parent;
          }
          path, stack := path[..i], FoldTo(stack, i);
          return;
        }
        current := dom.nodes[current].parent;
        i := i - 1;
      }
      NotZero(dom.nodes, dom.kids, path, stack, i);
      assert i == 0;
    }

    // The switch of html_build_dom_tree.
    method HandleToken(token: Token)
      requires Valid()
      modifies this, dom
      ensures Valid() && stack == Step(old(stack), token)
    {
      match token {
        case StartTag(name, attrs, selfClosing) => HandleStartTag(name, attrs, selfClosing);
        case EndTag(name, attrs, selfClosing) => HandleEndTag(name, attrs, selfClosing);
        case TextRun(data) => HandleText(data);
        case Comment(_) =>
        case Doctype =>
      }
    }

    // The loop of html_build_dom_tree.
    method HandleTokens(tokenizer: Tokenizer)
      requires Valid() && tokenizer.Valid()
      modifies this, dom, tokenizer
      ensures Valid() && stack == Build(old(stack), Tokens(old(tokenizer.Rest())))
    {
      ghost var whole, s := Build(stack, Tokens(tokenizer.Rest())), tokenizer.Rest();
      while true
        invariant Valid() && tokenizer.Valid() && s == tokenizer.Rest() && whole == Build(stack, Tokens(s))
        decreases |s|
      {
        var token := tokenizer.Next();
        if token.None? {
          break;
        }
        OneToken(stack, s, token.value, tokenizer.Rest());
        s := tokenizer.Rest();
        HandleToken(token.value);
      }
    }

    // html_build_dom_tree: in the end the nodes spell out the tree of all tokens.
    method BuildTree(tokenizer: Tokenizer)
      requires Valid() && tokenizer.Valid()
      modifies this, dom, tokenizer
      ensures Valid() && stack == Build(old(stack), Tokens(old(tokenizer.Rest())))
      ensures Represents(dom.nodes, dom.kids, document, Whole(stack), [])
      ensures |stack| == 1 ==> currentNode == document
    {
      HandleTokens(tokenizer);
      NotListed(dom.nodes, dom.kids, 0);
      WholeStacked(dom.nodes, dom.kids, path, stack);
    }
  }

  // html_parser_parse: the document node it returns spells out the parse of the input.
  method ParseHtml(input: string) returns (builder: Builder)
    ensures fresh(builder) && builder.Valid()
    ensures Represents(builder.dom.nodes, builder.dom.kids, builder.document, Parse(input), [])
    ensures |Build(EMPTY, Tokens(input))| == 1 ==> builder.currentNode == builder.document
  {
    var tokenizer := new Tokenizer(input);
    builder := new Builder();
    builder.BuildTree(tokenizer);
  }

  lemma OneToken(z: seq<Frame>, s: string, token: Token, rest: string)
    requires z != [] && NextToken(s) == Some((token, rest))
    ensures |rest| < |s| && Build(z, Tokens(s)) == Build(Step(z, token), Tokens(rest))
  {
    var tokens := Tokens(rest);
    assert Tokens(s) == [token] + tokens && ([token] + tokens)[1..] == tokens;
  }

  lemma NotOpen(mem: Nodes, kids: Kids, path: seq<nat>, z: seq<Frame>, x: nat)
    requires Stacked(mem, kids, path, z) && x !in mem
    ensures x !in path
  {
    forall i | 0 <= i < |path| ensures path[i] in mem {
      assert OpenOk(mem, kids, path, z, i);
    }
  }

  lemma NotZero(mem: Nodes, kids: Kids, path: seq<nat>, z: seq<Frame>, i: nat)
    requires Links(mem, kids, {}) && Stacked(mem, kids, path, z) && i < |path|
    ensures path[i] != 0
    ensures path[i] == path[0] ==> i == 0
  {
    assert OpenOk(mem, kids, path, z, i);
  }

  lemma CurrentIsNode(mem: Nodes, kids: Kids, path: seq<nat>, z: seq<Frame>)
    requires Links(mem, kids, {}) && Stacked(mem, kids, path, z)
    ensures path[|path| - 1] in mem && path[|path| - 1] != 0
  {
    assert OpenOk(mem, kids, path, z, |path| - 1);
  }

  lemma FoldTwice(mem: Nodes, kids: Kids, path: seq<nat>, z: seq<Frame>, n: nat)
    requires Links(mem, kids, {}) && Stacked(mem, kids, path, z) && 0 < n < |z|
    ensures Stacked(mem, kids, path[..n], FoldTo(z, n))
  {
    NotListed(mem, kids, 0);
    FoldToStacked(mem, kids, path, z, n);
  }

  lemma SetAllStep(attrs: seq<Attr>, i: nat)
    requires i < |attrs|
    ensures SetAll(attrs[..i + 1]) == WithAttr(SetAll(attrs[..i]), attrs[i].name, attrs[i].value)
  {
    assert attrs[..i + 1][..i] == attrs[..i];
  }

  // A new node's content is nobody else's concern.
  lemma ContentFrame(mem: Nodes, kids: Kids, m: Nodes, path: seq<nat>, z: seq<Frame>, node: nat)
    requires Links(mem, kids, {}) && Stacked(mem, kids, path, z) && node !in path
    requires node in mem && mem[node].parent == 0
    requires m.Keys == mem.Keys && forall x :: x in mem && x != node ==> m[x] == mem[x]
    ensures Stacked(m, kids, path, z)
  {
    Orphan(mem, kids, node);
    forall i | 0 <= i < |path| ensures OpenOk(m, kids, path, z, i) {
      assert OpenOk(mem, kids, path, z, i);
      var q := kids[path[i]][..|z[i].kids|];
      assert node !in q by { assert forall x :: x in q ==> x in kids[path[i]]; }
      ApartFrame(mem, kids, m, q, z[i].kids, path, node);
    }
  }

  lemma {:induction false} ApartFrame(mem: Nodes, kids: Kids, m: Nodes, q: seq<nat>, ts: seq<Tree>, open: seq<nat>,
                                      node: nat)
    requires RepresentsAll(mem, kids, q, ts, open) && node !in q && forall p :: p in kids ==> node !in kids[p]
    requires m.Keys == mem.Keys && forall x :: x in mem && x != node ==> m[x] == mem[x]
    ensures RepresentsAll(m, kids, q, ts, open)
    decreases ts
  {
    forall i | 0 <= i < |ts| ensures Represents(m, kids, q[i], ts[i], open) {
      assert Represents(mem, kids, q[i], ts[i], open) && q[i] in q;
      ApartFrame(mem, kids, m, kids[q[i]], ts[i].kids, open, node);
    }
  }
}

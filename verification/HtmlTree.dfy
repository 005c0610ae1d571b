/** The tree that html_build_dom_tree makes of a token stream, on values: the open elements are a stack of
    frames, the last of them current_node. */
module HtmlTree {
  import opened Lists
  import opened Dom

  datatype Token =
    | StartTag(name: string, attrs: seq<Attr>, selfClosing: bool)
    | EndTag(name: string, attrs: seq<Attr>, selfClosing: bool)
    | TextRun(data: string)
    | Comment(data: string)
    | Doctype

  datatype Tree = Tree(content: Content, kids: seq<Tree>)

  // An open node with the children it has apart from the next open one.
  datatype Frame = Frame(content: Content, kids: seq<Tree>)

  // ----- Names -----

  // tolower in the C locale.
  function Lower(c: char): char { if 'A' <= c <= 'Z' then c + ' ' else c }

  // strcasecmp(a, b) == 0
  predicate SameName(a: string, b: string) {
    |a| == |b| && forall i :: 0 <= i < |a| ==> Lower(a[i]) == Lower(b[i])
  }

  const VOID_ELEMENTS: seq<string> := [
    "area", "base", "br", "col", "embed", "hr", "img", "input",
    "keygen", "link", "meta", "param", "source", "track", "wbr"]

  // html_is_void_element
  predicate IsVoid(name: string) {
    exists i :: 0 <= i < |VOID_ELEMENTS| && SameName(name, VOID_ELEMENTS[i])
  }

  // The attributes of an element whose tag carries attrs: each is set in turn.
  function SetAll(attrs: seq<Attr>): seq<Attr> {
    if attrs == [] then []
    else WithAttr(SetAll(attrs[..|attrs| - 1]), attrs[|attrs| - 1].name, attrs[|attrs| - 1].value)
  }

  // ----- Building -----

  // A finished node goes to the end of the current node's children.
  function Add(z: seq<Frame>, t: Tree): seq<Frame>
    requires z != []
  {
    z[|z| - 1 := z[|z| - 1].(kids := z[|z| - 1].kids + [t])]
  }

  // The current node is finished; its parent becomes current.
  function Fold(z: seq<Frame>): seq<Frame>
    requires |z| > 1
  {
    Add(z[..|z| - 1], Tree(z[|z| - 1].content, z[|z| - 1].kids))
  }

  function FoldTo(z: seq<Frame>, n: nat): (r: seq<Frame>)
    requires 0 < n <= |z|
    ensures |r| == n
    decreases |z|
  {
    if |z| == n then z else FoldTo(Fold(z), n)
  }

  // The innermost open element of that name, 0 if there is none: the document is never matched.
  function Matching(z: seq<Frame>, name: string): (n: nat)
    requires z != []
    ensures n < |z|
  {
    if |z| == 1 then 0
    else if z[|z| - 1].content.Element? && SameName(z[|z| - 1].content.tag, name) then |z| - 1
    else Matching(z[..|z| - 1], name)
  }

  function Step(z: seq<Frame>, token: Token): (r: seq<Frame>)
    requires z != []
    ensures r != []
  {
    match token
    case StartTag(name, attrs, selfClosing) =>
      if selfClosing || IsVoid(name) then Add(z, Tree(Element(name, SetAll(attrs)), []))
      else z + [Frame(Element(name, SetAll(attrs)), [])]
    case EndTag(name, _, _) => var n := Matching(z, name); if n == 0 then z else FoldTo(z, n)
    case TextRun(data) => if data == "" then z else Add(z, Tree(Text(data), []))
    case _ => z
  }

  function Build(z: seq<Frame>, tokens: seq<Token>): (r: seq<Frame>)
    requires z != []
    ensures r != []
    decreases |tokens|
  {
    if tokens == [] then z else Build(Step(z, tokens[0]), tokens[1..])
  }

  const EMPTY: seq<Frame> := [Frame(Document, [])]

  // The tree as it stands: every open node holds the next one as its last child.
  function Whole(z: seq<Frame>): Tree
    requires z != []
    decreases |z|
  {
    if |z| == 1 then Tree(z[0].content, z[0].kids) else Whole(Fold(z))
  }

  // ----- Document order -----

  function PreOrder(t: Tree): seq<Content>
    decreases t, 1
  {
    [t.content] + PreOrderAll(t.kids)
  }

  function PreOrderAll(ts: seq<Tree>): seq<Content>
    decreases ts, 0
  {
    if ts == [] then [] else PreOrderAll(ts[..|ts| - 1]) + PreOrder(ts[|ts| - 1])
  }

  // The nodes that a token puts into the document.
  function Shown(token: Token): seq<Content> {
    match token
    case StartTag(name, attrs, _) => [Element(name, SetAll(attrs))]
    case TextRun(data) => if data == "" then [] else [Text(data)]
    case _ => []
  }

  function ShownAll(tokens: seq<Token>): seq<Content> {
    if tokens == [] then [] else Shown(tokens[0]) + ShownAll(tokens[1..])
  }

  // Frame by frame, from the document down to the current node.
  function StackOrder(z: seq<Frame>): seq<Content> {
    if z == [] then [] else StackOrder(z[..|z| - 1]) + ([z[|z| - 1].content] + PreOrderAll(z[|z| - 1].kids))
  }

  lemma AddOrder(z: seq<Frame>, t: Tree)
    requires z != []
    ensures StackOrder(Add(z, t)) == StackOrder(z) + PreOrder(t)
  {
  }

  lemma FoldOrder(z: seq<Frame>)
    requires |z| > 1
    ensures StackOrder(Fold(z)) == StackOrder(z)
  {
    AddOrder(z[..|z| - 1], Tree(z[|z| - 1].content, z[|z| - 1].kids));
  }

  lemma {:induction false} FoldToOrder(z: seq<Frame>, n: nat)
    requires 0 < n <= |z|
    ensures StackOrder(FoldTo(z, n)) == StackOrder(z)
    decreases |z|
  {
    if |z| > n {
      FoldOrder(z);
      FoldToOrder(Fold(z), n);
    }
  }

  lemma {:induction false} WholeOrder(z: seq<Frame>)
    requires z != []
    ensures PreOrder(Whole(z)) == StackOrder(z)
    decreases |z|
  {
    if |z| > 1 {
      FoldOrder(z);
      WholeOrder(Fold(z));
    } else {
      assert StackOrder(z[..0]) == [];
    }
  }

  lemma StepOrder(z: seq<Frame>, token: Token)
    requires z != []
    ensures StackOrder(Step(z, token)) == StackOrder(z) + Shown(token)
  {
    match token {
      case StartTag(name, attrs, selfClosing) =>
        var content := Element(name, SetAll(attrs));
        if selfClosing || IsVoid(name) {
          AddOrder(z, Tree(content, []));
        } else {
          assert (z + [Frame(content, [])])[..|z|] == z;
        }
      case EndTag(name, _, _) =>
        var n := Matching(z, name);
        if n > 0 { FoldToOrder(z, n); }
      case TextRun(data) => if data != "" { AddOrder(z, Tree(Text(data), [])); }
      case _ =>
    }
  }

  lemma {:induction false} BuildOrder(z: seq<Frame>, tokens: seq<Token>)
    requires z != []
    ensures StackOrder(Build(z, tokens)) == StackOrder(z) + ShownAll(tokens)
    decreases |tokens|
  {
    if tokens != [] {
      StepOrder(z, tokens[0]);
      BuildOrder(Step(z, tokens[0]), tokens[1..]);
      Regroup(StackOrder(z), Shown(tokens[0]), ShownAll(tokens[1..]));
    }
  }

  // For every token stream, balanced or not, the document in preorder is the start tags and texts in the
  // order they came in.
  lemma DocumentOrder(tokens: seq<Token>)
    ensures PreOrder(Whole(Build(EMPTY, tokens))) == [Document] + ShownAll(tokens)
  {
    WholeOrder(Build(EMPTY, tokens));
    BuildOrder(EMPTY, tokens);
    assert StackOrder(EMPTY) == [Document] by { assert EMPTY[..0] == []; assert StackOrder(EMPTY[..0]) == []; }
  }

  // ----- Trees that their own tokens give back -----

  // How a tree is written: short says which childless elements are written as self-closing.
  type Style = Tree -> bool

  predicate Alone(t: Tree, short: Style)
    requires t.content.Element?
  {
    t.kids == [] && (IsVoid(t.content.tag) || short(t))
  }

  function TokensOf(t: Tree, short: Style): seq<Token>
    requires Shaped(t)
    decreases t, 1
  {
    if t.content.Text? then [TextRun(t.content.data)]
    else if Alone(t, short) then [StartTag(t.content.tag, t.content.attrs, short(t))]
    else
      [StartTag(t.content.tag, t.content.attrs, false)] + TokensOfAll(t.kids, short) + [EndTag(t.content.tag, [], false)]
  }

  function TokensOfAll(ts: seq<Tree>, short: Style): seq<Token>
    requires ShapedAll(ts)
    decreases ts, 0
  {
    if ts == [] then [] else TokensOf(ts[0], short) + TokensOfAll(ts[1..], short)
  }

  // Texts are not empty, texts and void elements are leaves, attribute names are distinct, and the document is
  // only at the root.
  predicate Shaped(t: Tree)
    decreases t, 1
  {
    match t.content
    case Document => false
    case Element(tag, attrs) => DistinctNames(attrs) && (IsVoid(tag) ==> t.kids == []) && ShapedAll(t.kids)
    case Text(data) => data != "" && t.kids == []
  }

  predicate ShapedAll(ts: seq<Tree>)
    decreases ts, 0
  {
    ts == [] || (Shaped(ts[0]) && ShapedAll(ts[1..]))
  }

  lemma {:induction false} SetAllSame(attrs: seq<Attr>)
    requires DistinctNames(attrs)
    ensures SetAll(attrs) == attrs
  {
    if attrs != [] {
      var n := |attrs| - 1;
      DistinctPrefix(attrs, n);
      SetAllSame(attrs[..n]);
      assert attrs[..n][..n] == attrs[..n];
      HasIs(attrs[..n], attrs[n].name);
      SetAt(attrs[..n], attrs[n].name, attrs[n].value, n);
      assert attrs[..n] + [Attr(attrs[n].name, attrs[n].value)] == attrs;
    }
  }

  lemma {:induction false} DistinctPrefix(attrs: seq<Attr>, n: nat)
    requires DistinctNames(attrs) && n < |attrs|
    ensures DistinctNames(attrs[..n]) && !Has(attrs[..n], attrs[n].name)
  {
    if n > 0 {
      DistinctPrefix(attrs[1..], n - 1);
      assert attrs[..n][1..] == attrs[1..][..n - 1];
      HasFewer(attrs[1..], attrs[0].name, n - 1);
    }
  }

  lemma {:induction false} HasFewer(attrs: seq<Attr>, name: string, n: nat)
    requires n < |attrs| && !Has(attrs, name)
    ensures !Has(attrs[..n], name) && attrs[n].name != name
  {
    if n > 0 {
      HasFewer(attrs[1..], name, n - 1);
      assert attrs[..n][1..] == attrs[1..][..n - 1];
    }
  }

  function AddAll(z: seq<Frame>, ts: seq<Tree>): seq<Frame>
    requires z != []
  {
    z[|z| - 1 := z[|z| - 1].(kids := z[|z| - 1].kids + ts)]
  }

  lemma AddThen(z: seq<Frame>, t: Tree, ts: seq<Tree>)
    requires z != []
    ensures AddAll(Add(z, t), ts) == AddAll(z, [t] + ts)
  {
    Regroup(z[|z| - 1].kids, [t], ts);
  }

  lemma {:induction false} BuildSplit(z: seq<Frame>, a: seq<Token>, b: seq<Token>)
    requires z != []
    ensures Build(z, a + b) == Build(Build(z, a), b)
    decreases |a|
  {
    if a == [] {
      assert a + b == b;
    } else {
      assert (a + b)[1..] == a[1..] + b;
      BuildSplit(Step(z, a[0]), a[1..], b);
    }
  }

  // The end tag of the current element makes its parent current again.
  lemma CloseCurrent(z: seq<Frame>, content: Content, kids: seq<Tree>, close: Token)
    requires z != [] && content.Element? && close == EndTag(content.tag, [], false)
    ensures Step(z + [Frame(content, kids)], close) == Add(z, Tree(content, kids))
  {
    var y := z + [Frame(content, kids)];
    assert Matching(y, content.tag) == |z|;
    assert y[..|z|] == z;
    assert FoldTo(Fold(y), |z|) == Fold(y);
  }

  // Start tag, what adds the children, end tag.
  lemma BuildElement(z: seq<Frame>, tag: string, attrs: seq<Attr>, kids: seq<Tree>, body: seq<Token>)
    requires z != [] && DistinctNames(attrs) && !IsVoid(tag)
    requires Build(z + [Frame(Element(tag, attrs), [])], body) == z + [Frame(Element(tag, attrs), kids)]
    ensures Build(z, [StartTag(tag, attrs, false)] + body + [EndTag(tag, [], false)]) == Add(z, Tree(Element(tag, attrs), kids))
  {
    var open, close := StartTag(tag, attrs, false), EndTag(tag, [], false);
    SetAllSame(attrs);
    BuildSplit(z, [open] + body, [close]);
    BuildSplit(z, [open], body);
    BuildOne(z, open);
    BuildOne(z + [Frame(Element(tag, attrs), kids)], close);
    CloseCurrent(z, Element(tag, attrs), kids, close);
  }

  // The tokens of a tree add that tree to the current node, which stays current.
  lemma {:induction false} BuildTree(z: seq<Frame>, t: Tree, short: Style)
    requires z != [] && Shaped(t)
    ensures Build(z, TokensOf(t, short)) == Add(z, t)
    decreases t, 1
  {
    if t.content.Element? && !Alone(t, short) {
      var y := z + [Frame(t.content, [])];
      BuildForest(y, t.kids, short);
      assert AddAll(y, t.kids) == z + [Frame(t.content, t.kids)] by { assert [] + t.kids == t.kids; }
      BuildElement(z, t.content.tag, t.content.attrs, t.kids, TokensOfAll(t.kids, short));
    } else {
      if t.content.Element? { SetAllSame(t.content.attrs); }
      BuildOne(z, TokensOf(t, short)[0]);
    }
  }

  lemma BuildOne(z: seq<Frame>, token: Token)
    requires z != []
    ensures Build(z, [token]) == Step(z, token)
  {
  }

  lemma {:induction false} BuildForest(z: seq<Frame>, ts: seq<Tree>, short: Style)
    requires z != [] && ShapedAll(ts)
    ensures Build(z, TokensOfAll(ts, short)) == AddAll(z, ts)
    decreases ts, 0
  {
    if ts == [] {
      assert z[|z| - 1].kids + [] == z[|z| - 1].kids;
    } else {
      BuildTree(z, ts[0], short);
      BuildSplit(z, TokensOf(ts[0], short), TokensOfAll(ts[1..], short));
      BuildForest(Add(z, ts[0]), ts[1..], short);
      AddThen(z, ts[0], ts[1..]);
      assert [ts[0]] + ts[1..] == ts;
    }
  }

  // ----- What each token does, without the functions above -----

  // A stack of open nodes, finished from the inside out: each holds the next as its last child.
  function Finished(frames: seq<Frame>): Tree
    requires frames != []
  {
    if |frames| == 1 then Tree(frames[0].content, frames[0].kids)
    else Tree(frames[0].content, frames[0].kids + [Finished(frames[1..])])
  }

  lemma {:induction false} FinishedFold(frames: seq<Frame>)
    requires |frames| > 1
    ensures Finished(Fold(frames)) == Finished(frames)
  {
    if |frames| > 2 {
      assert frames[..|frames| - 1][1..] == frames[1..][..|frames| - 2];
      assert Fold(frames)[1..] == Fold(frames[1..]) && Fold(frames)[0] == frames[0];
      FinishedFold(frames[1..]);
    }
  }

  lemma FoldOuter(z: seq<Frame>, frames: seq<Frame>)
    requires |frames| > 1
    ensures Fold(z + frames) == z + Fold(frames)
  {
    assert (z + frames)[..|z + frames| - 1] == z + frames[..|frames| - 1];
  }

  lemma {:induction false} FoldToFinished(z: seq<Frame>, frames: seq<Frame>)
    requires z != [] && frames != []
    ensures FoldTo(z + frames, |z|) == Add(z, Finished(frames))
    decreases |frames|
  {
    if |frames| == 1 {
      assert (z + frames)[..|z|] == z;
      assert FoldTo(Fold(z + frames), |z|) == Fold(z + frames);
    } else {
      FoldOuter(z, frames);
      FinishedFold(frames);
      FoldToFinished(z, Fold(frames));
    }
  }

  ghost predicate Named(f: Frame, name: string) { f.content.Element? && SameName(f.content.tag, name) }

  lemma {:induction false} MatchingIs(z: seq<Frame>, f: Frame, inner: seq<Frame>, name: string)
    requires z != [] && Named(f, name) && forall i :: 0 <= i < |inner| ==> !Named(inner[i], name)
    ensures Matching(z + ([f] + inner), name) == |z|
    decreases |inner|
  {
    var y := z + ([f] + inner);
    if inner == [] {
      assert y[|y| - 1] == f;
    } else {
      var n := |inner| - 1;
      assert y[|y| - 1] == inner[n] && !Named(inner[n], name);
      assert y[..|y| - 1] == z + ([f] + inner[..n]);
      MatchingIs(z, f, inner[..n], name);
    }
  }

  lemma {:induction false} NoneMatching(z: seq<Frame>, name: string)
    requires z != [] && forall i :: 0 < i < |z| ==> !Named(z[i], name)
    ensures Matching(z, name) == 0
    decreases |z|
  {
    if |z| > 1 {
      assert !Named(z[|z| - 1], name);
      NoneMatching(z[..|z| - 1], name);
    }
  }

  // The end tag of an open element finishes it and everything open inside it: it becomes the last child of the node
  // around it, which is current again. Elements of that name further out stay open.
  lemma CloseOuter(z: seq<Frame>, f: Frame, inner: seq<Frame>, name: string, attrs: seq<Attr>, selfClosing: bool)
    requires z != [] && Named(f, name) && forall i :: 0 <= i < |inner| ==> !Named(inner[i], name)
    ensures var n := |z| - 1;
      Step(z + ([f] + inner), EndTag(name, attrs, selfClosing)) ==
        z[..n] + [Frame(z[n].content, z[n].kids + [Finished([f] + inner)])]
  {
    ClosesTo(z, f, inner, name, attrs, selfClosing, z + ([f] + inner), Finished([f] + inner));
    AddIs(z, Finished([f] + inner));
  }

  lemma ClosesTo(z: seq<Frame>, f: Frame, inner: seq<Frame>, name: string, attrs: seq<Attr>, selfClosing: bool,
                 y: seq<Frame>, t: Tree)
    requires z != [] && Named(f, name) && forall i :: 0 <= i < |inner| ==> !Named(inner[i], name)
    requires y == z + ([f] + inner) && t == Finished([f] + inner)
    ensures Step(y, EndTag(name, attrs, selfClosing)) == Add(z, t)
  {
    MatchingIs(z, f, inner, name);
    FoldToFinished(z, [f] + inner);
    StepClose(y, name, attrs, selfClosing, |z|);
  }

  lemma AddIs(z: seq<Frame>, t: Tree)
    requires z != []
    ensures var n := |z| - 1; Add(z, t) == z[..n] + [Frame(z[n].content, z[n].kids + [t])]
  {
  }

  lemma StepClose(y: seq<Frame>, name: string, attrs: seq<Attr>, selfClosing: bool, n: nat)
    requires y != [] && Matching(y, name) == n > 0
    ensures Step(y, EndTag(name, attrs, selfClosing)) == FoldTo(y, n)
  {
  }

  // Without an open element of that name an end tag does nothing; the document at the bottom does not count.
  lemma CloseNothing(z: seq<Frame>, name: string, attrs: seq<Attr>, selfClosing: bool)
    requires z != [] && forall i :: 0 < i < |z| ==> !Named(z[i], name)
    ensures Step(z, EndTag(name, attrs, selfClosing)) == z
  {
    NoneMatching(z, name);
  }

  // A start tag opens an element with its attributes; one that is void or written as self-closing is a leaf.
  lemma OpenTag(z: seq<Frame>, name: string, attrs: seq<Attr>, selfClosing: bool)
    requires z != [] && DistinctNames(attrs)
    ensures var n, e := |z| - 1, Element(name, attrs);
      Step(z, StartTag(name, attrs, selfClosing)) ==
        if selfClosing || exists v :: v in VoidNames() && SameName(name, v)
        then z[..n] + [Frame(z[n].content, z[n].kids + [Tree(e, [])])] else z + [Frame(e, [])]
  {
    SetAllSame(attrs);
    VoidIs(name);
  }

  function VoidNames(): set<string> {
    {"area", "base", "br", "col", "embed", "hr", "img", "input", "keygen", "link", "meta", "param", "source", "track",
     "wbr"}
  }

  lemma VoidIs(name: string)
    ensures IsVoid(name) <==> exists v :: v in VoidNames() && SameName(name, v)
  {
    assert forall i :: 0 <= i < |VOID_ELEMENTS| ==> VOID_ELEMENTS[i] in VoidNames();
    if v :| v in VoidNames() && SameName(name, v) {
      assert v in VOID_ELEMENTS;
      var i :| 0 <= i < |VOID_ELEMENTS| && VOID_ELEMENTS[i] == v;
    }
  }

  // A text that is not empty becomes the last child of the current node.
  lemma AddText(z: seq<Frame>, data: string)
    requires z != []
    ensures var n := |z| - 1;
      Step(z, TextRun(data)) ==
        if data == "" then z else z[..n] + [Frame(z[n].content, z[n].kids + [Tree(Text(data), [])])]
  {
  }

  // Comments and DOCTYPE leave the tree and the current node alone.
  lemma IgnoreOthers(z: seq<Frame>, token: Token)
    requires z != [] && (token.Comment? || token.Doctype?)
    ensures Step(z, token) == z
  {
  }

  // strcasecmp: letters match in either case, everything else only itself.
  lemma SameNameIs(a: string, b: string)
    ensures SameName(a, b) <==> |a| == |b| && forall i :: 0 <= i < |a| ==>
      a[i] == b[i] || ('A' <= a[i] <= 'Z' && b[i] == a[i] + ' ') || ('A' <= b[i] <= 'Z' && a[i] == b[i] + ' ')
  {
  }

  // Of attributes with one name the last value counts.
  lemma {:induction false} LastValueCounts(attrs: seq<Attr>, i: nat)
    requires i < |attrs| && forall j :: i < j < |attrs| ==> attrs[j].name != attrs[i].name
    ensures ValueOf(SetAll(attrs), attrs[i].name) == attrs[i].value && DistinctNames(SetAll(attrs))
    decreases |attrs|
  {
    var n := |attrs| - 1;
    SetAllDistinct(attrs[..n]);
    SetThenGet(SetAll(attrs[..n]), attrs[n].name, attrs[n].value, attrs[i].name);
    if i < n {
      LastValueCounts(attrs[..n], i);
    }
  }

  lemma {:induction false} SetAllDistinct(attrs: seq<Attr>)
    ensures DistinctNames(SetAll(attrs))
    decreases |attrs|
  {
    if attrs != [] {
      var n := |attrs| - 1;
      SetAllDistinct(attrs[..n]);
      SetThenGet(SetAll(attrs[..n]), attrs[n].name, attrs[n].value, attrs[n].name);
    }
  }

  // The tree at any moment is the stack with all its nodes finished.
  lemma {:induction false} WholeFinished(z: seq<Frame>)
    requires z != []
    ensures Whole(z) == Finished(z)
    decreases |z|
  {
    if |z| > 1 {
      FinishedFold(z);
      WholeFinished(Fold(z));
    }
  }
}

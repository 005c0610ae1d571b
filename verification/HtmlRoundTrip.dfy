/** Parsing the markup of a tree gives the tree back (html/src/html/html_parser.c). */
module HtmlRoundTrip {
  import opened Dom
  import opened HtmlTree
  import opened HtmlLexer

  // The tree html_parser_parse makes of its input, and whether it ends at the document.
  function Parse(input: string): Tree { Whole(Build(EMPTY, Tokens(input))) }

  // Normal form: names and values that can be written, texts that are not empty, have no '<' and do not begin
  // with a blank, distinct attribute names, void elements as leaves, no two texts side by side.
  ghost predicate Normal(t: Tree): (b: bool)
    ensures b ==> Shaped(t)
    decreases t, 1
  {
    match t.content
    case Document => false
    case Element(tag, attrs) =>
      NameOk(tag) && AttrsOk(attrs) && DistinctNames(attrs) && (IsVoid(tag) ==> t.kids == []) && NormalAll(t.kids)
    case Text(data) => TextOk(data) && t.kids == []
  }

  ghost predicate NormalAll(ts: seq<Tree>): (b: bool)
    ensures b ==> ShapedAll(ts)
    decreases ts, 0
  {
    ts == [] || (Normal(ts[0]) && NormalAll(ts[1..]) && !(|ts| > 1 && ts[0].content.Text? && ts[1].content.Text?))
  }

  lemma WritableConcat(a: seq<Token>, b: seq<Token>)
    requires WritableAll(a) && WritableAll(b) && !(a != [] && b != [] && a[|a| - 1].TextRun? && b[0].TextRun?)
    ensures WritableAll(a + b)
  {
  }

  // The tokens of a tree can be written; only a text begins or ends with one.
  lemma {:induction false} TreeWritable(t: Tree, short: Style, tokens: seq<Token>)
    requires Normal(t) && tokens == TokensOf(t, short)
    ensures WritableAll(tokens) && tokens != []
    ensures (tokens[0].TextRun? <==> t.content.Text?) && (tokens[|tokens| - 1].TextRun? <==> t.content.Text?)
    decreases t, 1
  {
    if t.content.Element? && !Alone(t, short) {
      var open, close := StartTag(t.content.tag, t.content.attrs, false), EndTag(t.content.tag, [], false);
      var body := TokensOfAll(t.kids, short);
      ForestWritable(t.kids, short, body);
      WritableConcat([open], body);
      WritableConcat([open] + body, [close]);
    }
  }

  lemma {:induction false} ForestWritable(ts: seq<Tree>, short: Style, tokens: seq<Token>)
    requires NormalAll(ts) && tokens == TokensOfAll(ts, short)
    ensures WritableAll(tokens)
    ensures ts != [] ==> tokens != [] && (tokens[0].TextRun? <==> ts[0].content.Text?)
    decreases ts, 0
  {
    if ts != [] {
      TreeWritable(ts[0], short, TokensOf(ts[0], short));
      ForestWritable(ts[1..], short, TokensOfAll(ts[1..], short));
      if |ts| == 1 { assert TokensOfAll(ts[1..], short) == []; }
      WritableConcat(TokensOf(ts[0], short), TokensOfAll(ts[1..], short));
    }
  }

  // Every forest in normal form, however its childless elements are written, comes back from its markup, and
  // the parser is then at the document again.
  lemma RoundTrip(ts: seq<Tree>, short: Style)
    requires NormalAll(ts)
    ensures Build(EMPTY, Tokens(MarkupAll(TokensOfAll(ts, short)))) == [Frame(Document, ts)]
    ensures Parse(MarkupAll(TokensOfAll(ts, short))) == Tree(Document, ts)
  {
    ForestWritable(ts, short, TokensOfAll(ts, short));
    ReadMarkup(TokensOfAll(ts, short));
    BuildForest(EMPTY, ts, short);
    assert [] + ts == ts;
  }
}

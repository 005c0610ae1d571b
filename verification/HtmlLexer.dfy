/** The tokenizer of html/src/html/html_parser.c on the characters that remain, and markup that it reads back. */
module HtmlLexer {
  import opened Characters
  import opened Lists
  import opened Dom
  import opened HtmlTree

  // ----- The scanning loops -----

  // What a loop runs over.
  datatype Class = Space | NameChar | AttrChar | BareChar | NotChar(c: char)

  predicate In(cl: Class, c: char) {
    match cl
    case Space => IsSpace(c)
    case NameChar => IsAlpha(c) || IsDigit(c) || c == '-' || c == '_'
    case AttrChar => !IsSpace(c) && c != '=' && c != '>' && c != '/'
    case BareChar => !IsSpace(c) && c != '>' && c != '/'
    case NotChar(d) => c != d
  }

  // Length of the longest prefix in the class.
  function Span(cl: Class, s: string): (n: nat)
    ensures n <= |s|
    ensures n < |s| ==> !In(cl, s[n])
  {
    if s == "" || !In(cl, s[0]) then 0 else 1 + Span(cl, s[1..])
  }

  function After(cl: Class, s: string): (r: string)
    ensures |r| <= |s|
    ensures r != "" ==> !In(cl, r[0])
  {
    s[Span(cl, s)..]
  }

  ghost predicate AllIn(cl: Class, s: string) { forall i :: 0 <= i < |s| ==> In(cl, s[i]) }

  ghost predicate Stops(cl: Class, s: string) { s == "" || !In(cl, s[0]) }

  lemma {:induction false} SpanConcat(cl: Class, a: string, b: string)
    requires AllIn(cl, a) && Stops(cl, b)
    ensures Span(cl, a + b) == |a| && After(cl, a + b) == b && (a + b)[..|a|] == a
  {
    if a == "" {
      assert a + b == b;
    } else {
      assert (a + b)[1..] == a[1..] + b;
      SpanConcat(cl, a[1..], b);
    }
  }

  lemma SpanStep(cl: Class, s: string, i: nat)
    requires i < |s| && In(cl, s[i])
    ensures Span(cl, s[i..]) == 1 + Span(cl, s[i + 1..])
  {
  }

  // ----- Tokens -----

  function TagName(s: string): (Option<string>, string) {
    (if Span(NameChar, s) == 0 then None else Some(s[..Span(NameChar, s)]), After(NameChar, s))
  }

  // From the opening quote on; an unterminated value takes the rest of the input.
  function QuotedPart(t: string): (r: (Option<string>, string))
    requires t != ""
    ensures |r.1| <= |t|
  {
    var u := After(NotChar(t[0]), t[1..]);
    if u == "" then (None, u) else (Some(t[1..][..Span(NotChar(t[0]), t[1..])]), u[1..])
  }

  // What follows the equals sign of an attribute.
  function AttrValue(s: string): (r: (Option<string>, string))
    ensures |r.1| <= |s|
  {
    var t := After(Space, s);
    if t == "" then (None, t)
    else if t[0] == '"' || t[0] == '\'' then QuotedPart(t)
    else (Some(t[..Span(BareChar, t)]), After(BareChar, t))
  }

  function AttrTail(s: string): (r: (Option<string>, string))
    ensures |r.1| <= |s|
  {
    var t := After(Space, s);
    if t != "" && t[0] == '=' then AttrValue(t[1..]) else (None, t)
  }

  function Attributes(s: string): (r: (seq<Attr>, string))
    ensures |r.1| <= |s|
    decreases |s|
  {
    var t := After(Space, s);
    var n := Span(AttrChar, t);
    if t == "" || n == 0 then ([], t)
    else
      var (value, u) := AttrTail(t[n..]);
      var (rest, v) := Attributes(u);
      ([Attr(t[..n], value)] + rest, v)
  }

  // The optional slash and the '>' of a tag.
  function TagEnd(closing: bool, name: string, attrs: seq<Attr>, u: string): (r: Option<(Token, string)>)
    ensures r.Some? ==> |r.value.1| < |u|
  {
    var slash := u != "" && u[0] == '/';
    var v := if slash then u[1..] else u;
    if v == "" || v[0] != '>' then None
    else Some((if closing then EndTag(name, attrs, slash) else StartTag(name, attrs, slash), v[1..]))
  }

  // From the '<' on. None is the malformed tag, on which tokenizing ends.
  function Tag(s: string): (r: Option<(Token, string)>)
    requires s != ""
    ensures r.Some? ==> |r.value.1| < |s|
  {
    var closing := |s| > 1 && s[1] == '/';
    var (name, t) := TagName(if closing then s[2..] else s[1..]);
    if name.None? then None
    else
      var (attrs, u) := Attributes(t);
      TagEnd(closing, name.value, attrs, u)
  }

  predicate ClosesAt(s: string, i: nat) { i + 2 < |s| && s[i] == '-' && s[i + 1] == '-' && s[i + 2] == '>' }

  // Where "-->" first starts in s at or after i, |s| - 2 when it does not.
  function CommentEnd(s: string, i: nat): (e: nat)
    requires 2 <= |s|
    ensures i <= |s| - 2 ==> i <= e <= |s| - 2
    decreases |s| - i
  {
    if i >= |s| - 2 then |s| - 2
    else if ClosesAt(s, i) then i
    else CommentEnd(s, i + 1)
  }

  function CommentToken(s: string): (r: Option<(Token, string)>)
    requires |s| >= 4
    ensures r.Some? ==> |r.value.1| < |s|
  {
    var e := CommentEnd(s, 4);
    if e >= |s| - 2 || 4 >= |s| - 2 then None else Some((Comment(s[4..e]), s[e + 3..]))
  }

  function DoctypeToken(s: string): (r: (Token, string))
    requires s != "" && s[0] == '<'
    ensures |r.1| < |s|
  {
    var t := After(NotChar('>'), s);
    (Doctype, if t != "" then t[1..] else t)
  }

  function TextToken(s: string): (r: (Token, string))
    requires s != "" && s[0] != '<'
    ensures |r.1| < |s|
  {
    (TextRun(s[..Span(NotChar('<'), s)]), After(NotChar('<'), s))
  }

  predicate StartsComment(s: string) { |s| > 3 && s[1] == '!' && s[2] == '-' && s[3] == '-' }

  predicate StartsDoctype(s: string) { |s| > 8 && SameName(s[..9], "<!DOCTYPE") }

  // html_parser_next_token: the token and the characters after it.
  function NextToken(s: string): (r: Option<(Token, string)>)
    ensures r.Some? ==> |r.value.1| < |s|
  {
    var t := After(Space, s);
    if t == "" then None
    else if t[0] != '<' then Some(TextToken(t))
    else if StartsComment(t) then CommentToken(t)
    else if StartsDoctype(t) then Some(DoctypeToken(t))
    else Tag(t)
  }

  function Tokens(s: string): seq<Token>
    decreases |s|
  {
    var next := NextToken(s);
    if next.None? then [] else [next.value.0] + Tokens(next.value.1)
  }

  // ----- Markup, with what follows it -----

  function ValueMarkup(value: Option<string>, post: string): string {
    if value.None? then post
    else
      var quote := if '"' in value.value then "'" else "\"";
      "=" + (quote + (value.value + (quote + post)))
  }

  function AttrsMarkup(attrs: seq<Attr>, post: string): string {
    if attrs == [] then post
    else " " + (attrs[0].name + ValueMarkup(attrs[0].value, AttrsMarkup(attrs[1..], post)))
  }

  function Markup(token: Token, post: string): string {
    match token
    case StartTag(name, attrs, selfClosing) =>
      "<" + (name + AttrsMarkup(attrs, if selfClosing then "/" + (">" + post) else ">" + post))
    case EndTag(name, _, _) => "<" + ("/" + (name + (">" + post)))
    case TextRun(data) => data + post
    case Comment(data) => "<!--" + (data + ("-->" + post))
    case Doctype => "<!DOCTYPE" + (">" + post)
  }

  function MarkupAll(tokens: seq<Token>): string {
    if tokens == [] then "" else Markup(tokens[0], MarkupAll(tokens[1..]))
  }

  // ----- Reading markup back -----

  ghost predicate NameOk(name: string) { name != "" && AllIn(NameChar, name) }

  // A name without blanks, =, > and /; a value without one of the two quotes.
  ghost predicate AttrOk(a: Attr) {
    a.name != "" && AllIn(AttrChar, a.name) && (a.value.Some? ==> '"' !in a.value.value || '\'' !in a.value.value)
  }

  ghost predicate AttrsOk(attrs: seq<Attr>) { forall i :: 0 <= i < |attrs| ==> AttrOk(attrs[i]) }

  ghost predicate TextOk(data: string) { data != "" && '<' !in data && !IsSpace(data[0]) }

  // No "-->" begins inside the comment.
  ghost predicate CommentOk(data: string) { forall i :: 0 <= i < |data| ==> !ClosesAt(data + "-->", i) }

  ghost predicate Writable(token: Token) {
    match token
    case StartTag(name, attrs, _) => NameOk(name) && AttrsOk(attrs)
    case EndTag(name, attrs, selfClosing) => NameOk(name) && attrs == [] && !selfClosing
    case TextRun(data) => TextOk(data)
    case Comment(data) => CommentOk(data)
    case Doctype => true
  }

  ghost predicate WritableAll(tokens: seq<Token>) {
    && (forall i :: 0 <= i < |tokens| ==> Writable(tokens[i]))
    && (forall i :: 0 <= i < |tokens| - 1 ==> !(tokens[i].TextRun? && tokens[i + 1].TextRun?))
  }

  lemma SpaceTwice(s: string)
    ensures After(Space, After(Space, s)) == After(Space, s)
  {
  }

  lemma AttributesSkip(s: string)
    ensures Attributes(After(Space, s)) == Attributes(s)
  {
  }

  // A character at the front is where it should be.
  lemma Front(c: string, s: string)
    requires |c| == 1
    ensures c + s != "" && (c + s)[0] == c[0] && (c + s)[1..] == s
  {
  }

  lemma NoSpan(cl: Class, s: string)
    requires Stops(cl, s)
    ensures Span(cl, s) == 0 && After(cl, s) == s
  {
  }

  lemma QuotedValue(quote: string, value: string, post: string)
    requires (quote == "\"" || quote == "'") && quote[0] !in value
    ensures AttrValue(quote + (value + (quote + post))) == (Some(value), post)
  {
    var s := quote + (value + (quote + post));
    Front(quote, value + (quote + post));
    NoSpan(Space, s);
    Front(quote, post);
    SpanConcat(NotChar(quote[0]), value, quote + post);
  }

  lemma ReadValue(value: Option<string>, post: string)
    requires value.Some? ==> '"' !in value.value || '\'' !in value.value
    requires post != "" && After(Space, post) != "" && After(Space, post)[0] != '='
    ensures AttrTail(ValueMarkup(value, post)).0 == value
    ensures After(Space, AttrTail(ValueMarkup(value, post)).1) == After(Space, post)
  {
    if value.None? {
      SpaceTwice(post);
    } else {
      var quote := if '"' in value.value then "'" else "\"";
      var s := quote + (value.value + (quote + post));
      Front("=", s);
      NoSpan(Space, "=" + s);
      QuotedValue(quote, value.value, post);
    }
  }

  ghost predicate EndsTag(s: string) { s != "" && (s[0] == '>' || s[0] == '/') }

  // What follows a name in a tag: the next attribute, or the end.
  lemma AttrsMarkupStart(attrs: seq<Attr>, post: string)
    requires AttrsOk(attrs) && EndsTag(post)
    ensures var s := AttrsMarkup(attrs, post);
      s != "" && Stops(AttrChar, s) && Stops(NameChar, s) && After(Space, s) != "" && After(Space, s)[0] != '='
  {
    if attrs == [] {
      NoSpan(Space, post);
    } else {
      var s := attrs[0].name + ValueMarkup(attrs[0].value, AttrsMarkup(attrs[1..], post));
      assert s[0] == attrs[0].name[0] && AttrOk(attrs[0]);
      Front(" ", s);
      SpanConcat(Space, " ", s);
    }
  }

  lemma ValueMarkupStops(value: Option<string>, post: string)
    requires Stops(AttrChar, post)
    ensures Stops(AttrChar, ValueMarkup(value, post))
  {
  }

  lemma AttributesCons(a: Attr, v: string, rest: (seq<Attr>, string))
    requires AttrOk(a) && Stops(AttrChar, v) && AttrTail(v).0 == a.value && Attributes(AttrTail(v).1) == rest
    ensures Attributes(" " + (a.name + v)) == ([a] + rest.0, rest.1)
  {
    assert (a.name + v)[0] == a.name[0];
    SpanConcat(Space, " ", a.name + v);
    SpanConcat(AttrChar, a.name, v);
  }

  lemma ReadAttribute(a: Attr, more: string, rest: (seq<Attr>, string))
    requires AttrOk(a) && more != "" && Stops(AttrChar, more) && After(Space, more) != ""
    requires After(Space, more)[0] != '='
    requires Attributes(more) == rest
    ensures Attributes(" " + (a.name + ValueMarkup(a.value, more))) == ([a] + rest.0, rest.1)
  {
    var v := ValueMarkup(a.value, more);
    ReadValue(a.value, more);
    AttributesSkip(AttrTail(v).1);
    AttributesSkip(more);
    ValueMarkupStops(a.value, more);
    AttributesCons(a, v, rest);
  }

  lemma ReadNone(post: string)
    requires EndsTag(post)
    ensures Attributes(post) == ([], post)
  {
  }

  lemma Cons<T>(q: seq<T>)
    requires q != []
    ensures [q[0]] + q[1..] == q
  {
  }

  lemma {:induction false} ReadAttributes(attrs: seq<Attr>, post: string, s: string)
    requires AttrsOk(attrs) && EndsTag(post) && s == AttrsMarkup(attrs, post)
    ensures Attributes(s) == (attrs, post)
  {
    if attrs == [] {
      ReadNone(post);
    } else {
      var a, rest, more := attrs[0], attrs[1..], AttrsMarkup(attrs[1..], post);
      ReadAttributes(rest, post, more);
      AttrsMarkupStart(rest, post);
      assert AttrOk(a);
      ReadAttribute(a, more, (rest, post));
      Cons(attrs);
    }
  }

  lemma ReadName(name: string, post: string)
    requires NameOk(name) && Stops(NameChar, post)
    ensures TagName(name + post) == (Some(name), post)
  {
    SpanConcat(NameChar, name, post);
  }

  function EndMarkup(slash: bool, post: string): string { if slash then "/" + (">" + post) else ">" + post }

  lemma ReadTagEnd(closing: bool, name: string, attrs: seq<Attr>, slash: bool, post: string)
    ensures TagEnd(closing, name, attrs, EndMarkup(slash, post)) ==
      Some((if closing then EndTag(name, attrs, slash) else StartTag(name, attrs, slash), post))
  {
  }

  // Reading a tag, given how its name and attributes read.
  lemma ReadTag(s: string, closing: bool, name: string, attrs: seq<Attr>, slash: bool, rest: string, post: string)
    requires s != "" && (|s| > 1 && s[1] == '/' <==> closing)
    requires TagName(if closing then s[2..] else s[1..]) == (Some(name), rest)
    requires Attributes(rest) == (attrs, EndMarkup(slash, post))
    ensures Tag(s) == TagEnd(closing, name, attrs, EndMarkup(slash, post))
  {
  }

  lemma ReadStartTag(name: string, attrs: seq<Attr>, selfClosing: bool, post: string)
    requires NameOk(name) && AttrsOk(attrs)
    ensures NextToken(Markup(StartTag(name, attrs, selfClosing), post)) == Some((StartTag(name, attrs, selfClosing), post))
  {
    var s, end := Markup(StartTag(name, attrs, selfClosing), post), EndMarkup(selfClosing, post);
    var rest := AttrsMarkup(attrs, end);
    assert In(NameChar, (name + rest)[0]);
    Front("<", name + rest);
    AttrsMarkupStart(attrs, end);
    ReadName(name, rest);
    ReadAttributes(attrs, end, rest);
    ReadTag(s, false, name, attrs, selfClosing, rest, post);
    ReadTagEnd(false, name, attrs, selfClosing, post);
    NotSpecial(s);
    NoSpan(Space, s);
  }

  lemma ReadEndTag(name: string, post: string)
    requires NameOk(name)
    ensures NextToken(Markup(EndTag(name, [], false), post)) == Some((EndTag(name, [], false), post))
  {
    var s, end := Markup(EndTag(name, [], false), post), ">" + post;
    Front("<", "/" + (name + end));
    Front("/", name + end);
    assert s[2..] == s[1..][1..];
    Front(">", post);
    ReadName(name, end);
    NoSpan(Space, end);
    ReadTag(s, true, name, [], false, end, post);
    ReadTagEnd(true, name, [], false, post);
    NotSpecial(s);
    NoSpan(Space, s);
  }

  // A tag whose second character is not '!' is neither a comment nor a DOCTYPE.
  lemma NotSpecial(s: string)
    requires |s| > 1 && s[1] != '!'
    ensures !StartsComment(s) && !StartsDoctype(s)
  {
  }

  lemma ReadText(data: string, post: string)
    requires TextOk(data) && (post == "" || post[0] == '<')
    ensures NextToken(data + post) == Some((TextRun(data), post))
  {
    var s := data + post;
    assert s[0] == data[0] && data[0] in data;
    NoSpan(Space, s);
    SpanConcat(NotChar('<'), data, post);
  }

  lemma {:induction false} CommentEndIs(s: string, i: nat, e: nat)
    requires i <= e && ClosesAt(s, e) && forall j :: i <= j < e ==> !ClosesAt(s, j)
    ensures CommentEnd(s, i) == e
    decreases e - i
  {
    if i < e {
      assert !ClosesAt(s, i);
      CommentEndIs(s, i + 1, e);
    }
  }

  lemma ReadComment(data: string, post: string)
    requires CommentOk(data)
    ensures NextToken(Markup(Comment(data), post)) == Some((Comment(data), post))
  {
    var s, e := Markup(Comment(data), post), 4 + |data|;
    assert s[e] == '-' && s[e + 1] == '-' && s[e + 2] == '>';
    forall j | 4 <= j < e ensures !ClosesAt(s, j) {
      assert !ClosesAt(data + "-->", j - 4);
      assert forall k :: 0 <= k < |data| + 3 ==> (data + "-->")[k] == s[k + 4];
    }
    CommentEndIs(s, 4, e);
    Inside("<!--", data, "-->", post, s);
    NoSpan(Space, s);
  }

  lemma Inside(open: string, data: string, close: string, post: string, s: string)
    requires s == open + (data + (close + post))
    ensures s[|open|..|open| + |data|] == data && s[|open| + |data| + |close|..] == post
  {
    assert s[|open|..] == data + (close + post);
  }

  lemma ReadDoctype(post: string)
    ensures NextToken(Markup(Doctype, post)) == Some((Doctype, post))
  {
    var s := Markup(Doctype, post);
    assert s[..9] == "<!DOCTYPE";
    NoSpan(Space, s);
    SpanConcat(NotChar('>'), "<!DOCTYPE", ">" + post);
    Front(">", post);
  }

  // A value without quotes ends at a blank, '>' or '/'.
  lemma ReadBareValue(value: string, post: string)
    requires AllIn(BareChar, value) && Stops(BareChar, post) && value != "" && value[0] != '"' && value[0] != '\''
    ensures AttrValue(value + post) == (Some(value), post)
  {
    assert (value + post)[0] == value[0];
    NoSpan(Space, value + post);
    SpanConcat(BareChar, value, post);
  }

  lemma MarkupStarts(tokens: seq<Token>)
    requires tokens != [] && Writable(tokens[0]) && !tokens[0].TextRun?
    ensures MarkupAll(tokens) != "" && MarkupAll(tokens)[0] == '<'
  {
  }

  // The tokenizer reads the markup of tokens back as those tokens.
  lemma {:induction false} ReadMarkup(tokens: seq<Token>)
    requires WritableAll(tokens)
    ensures Tokens(MarkupAll(tokens)) == tokens
  {
    if tokens != [] {
      var rest := MarkupAll(tokens[1..]);
      assert Writable(tokens[0]);
      forall i | 0 <= i < |tokens[1..]| - 1 ensures !(tokens[1..][i].TextRun? && tokens[1..][i + 1].TextRun?) {
        assert tokens[1..][i] == tokens[i + 1] && tokens[1..][i + 1] == tokens[i + 2];
      }
      ReadMarkup(tokens[1..]);
      match tokens[0] {
        case StartTag(name, attrs, selfClosing) => ReadStartTag(name, attrs, selfClosing, rest);
        case EndTag(name, _, _) => ReadEndTag(name, rest);
        case TextRun(data) =>
          if |tokens| > 1 { assert tokens[0 + 1] == tokens[1..][0]; MarkupStarts(tokens[1..]); }
          ReadText(data, rest);
        case Comment(data) => ReadComment(data, rest);
        case Doctype => ReadDoctype(rest);
      }
      assert [tokens[0]] + tokens[1..] == tokens;
    }
  }

  // ----- Other inputs -----

  // The characters each loop runs over.
  lemma ClassesAre(c: char)
    ensures In(Space, c) <==> c as int in {9, 10, 11, 12, 13, 32}
    ensures In(NameChar, c) <==> 'a' <= c <= 'z' || 'A' <= c <= 'Z' || '0' <= c <= '9' || c == '-' || c == '_'
    ensures In(AttrChar, c) <==> c as int !in {9, 10, 11, 12, 13, 32} && c !in "=>/"
    ensures In(BareChar, c) <==> c as int !in {9, 10, 11, 12, 13, 32} && c !in ">/"
  {
  }

  // Blanks before a token do not matter, and with nothing but blanks left the input ends.
  lemma SkipBlanks(blanks: string, s: string)
    requires AllIn(Space, blanks)
    ensures NextToken(blanks + s) == NextToken(s) && NextToken(blanks) == None
  {
    BlanksThen(blanks, s);
    BlanksThen(blanks, "");
    assert blanks + "" == blanks;
  }

  lemma {:induction false} BlanksThen(blanks: string, s: string)
    requires AllIn(Space, blanks)
    ensures After(Space, blanks + s) == After(Space, s)
  {
    if blanks == "" {
      assert blanks + s == s;
    } else {
      assert (blanks + s)[1..] == blanks[1..] + s;
      BlanksThen(blanks[1..], s);
    }
  }

  // A comment without "-->" ends the input.
  lemma OpenComment(s: string)
    requires |s| >= 4 && s[..4] == "<!--" && forall i ::
      4 <= i < |s| - 2 ==> !(s[i] == '-' && s[i + 1] == '-' && s[i + 2] == '>')
    ensures NextToken(s) == None
  {
    assert s[0] == s[..4][0] && s[1] == s[..4][1] && s[2] == s[..4][2] && s[3] == s[..4][3];
    NoSpan(Space, s);
    NeverCloses(s, 4);
  }

  lemma {:induction false} NeverCloses(s: string, i: nat)
    requires 4 <= i && |s| >= 4 && forall k ::
      4 <= k < |s| - 2 ==> !(s[k] == '-' && s[k + 1] == '-' && s[k + 2] == '>')
    ensures CommentEnd(s, i) == |s| - 2
    decreases |s| - i
  {
    if i < |s| - 2 {
      NeverCloses(s, i + 1);
    }
  }

  // A '<' that no name follows ends the input.
  lemma NoName(c: char, s: string)
    requires !In(NameChar, c) && c != '/' && c != '!'
    ensures NextToken("<" + ([c] + s)) == None && NextToken("<") == None && NextToken("</" + ([c] + s)) == None
  {
    var t := "<" + ([c] + s);
    NoSpan(Space, t);
    assert t[1] == c && t[1..] == [c] + s;
    NoSpan(NameChar, [c] + s);
    NotSpecial(t);
    NoSpan(Space, "<");
    NoSpan(NameChar, "");
    var u := "</" + ([c] + s);
    assert u[1] == '/' && u[2..] == [c] + s;
    NoSpan(Space, u);
    NotSpecial(u);
  }

  // A tag that neither '>' nor "/>" ends, after its name and attributes, ends the input.
  lemma NoTagEnd(name: string, attrs: seq<Attr>, c: char, post: string)
    requires NameOk(name) && AttrsOk(attrs) && c != '>'
    ensures NextToken("<" + (name + AttrsMarkup(attrs, "/" + ([c] + post)))) == None
    ensures NextToken("<" + (name + AttrsMarkup(attrs, "/"))) == None
  {
    NoTagEndAt(name, attrs, "/" + ([c] + post));
    NoTagEndAt(name, attrs, "/");
  }

  lemma NoTagEndAt(name: string, attrs: seq<Attr>, end: string)
    requires NameOk(name) && AttrsOk(attrs) && end != "" && end[0] == '/' && (|end| > 1 ==> end[1] != '>')
    ensures NextToken("<" + (name + AttrsMarkup(attrs, end))) == None
  {
    var rest := AttrsMarkup(attrs, end);
    var s := "<" + (name + rest);
    assert In(NameChar, (name + rest)[0]);
    Front("<", name + rest);
    AttrsMarkupStart(attrs, end);
    ReadName(name, rest);
    ReadAttributes(attrs, end, rest);
    NotSpecial(s);
    NoSpan(Space, s);
    assert TagEnd(false, name, attrs, end) == None;
  }

  // A DOCTYPE, in any case of its letters, runs to the first '>' or to the end of the input.
  lemma SkipDoctypeText(s: string, d: string, post: string)
    requires |d| > 8 && SameName(d[..9], "<!DOCTYPE") && '>' !in d && d[2] != '-'
    ensures NextToken(d + (">" + post)) == Some((Doctype, post)) && NextToken(d) == Some((Doctype, ""))
  {
    DoctypeRuns(d, ">" + post);
    Front(">", post);
    DoctypeRuns(d, "");
    assert d + "" == d;
  }

  lemma DoctypeRuns(d: string, post: string)
    requires |d| > 8 && SameName(d[..9], "<!DOCTYPE") && '>' !in d && d[2] != '-' && (post == "" || post[0] == '>')
    ensures NextToken(d + post) == Some((Doctype, if post == "" then "" else post[1..]))
  {
    var s := d + post;
    assert s[..9] == d[..9];
    SameStart(d[..9]);
    assert s[0] == d[..9][0] == '<' && s[2] == d[2];
    NoSpan(Space, s);
    SpanConcat(NotChar('>'), d, post);
  }

  lemma SameStart(a: string)
    requires SameName(a, "<!DOCTYPE")
    ensures |a| == 9 && a[0] == '<'
  {
    assert Lower(a[0]) == Lower("<!DOCTYPE"[0]);
  }

  // Blanks between '=' and a value do not matter; a quote that is not closed takes the rest of the input.
  lemma ValueAfterBlanks(blanks: string, s: string)
    requires AllIn(Space, blanks)
    ensures AttrValue(blanks + s) == AttrValue(s)
  {
    BlanksThen(blanks, s);
  }

  lemma OpenQuote(quote: string, s: string)
    requires (quote == "\"" || quote == "'") && quote[0] !in s
    ensures AttrValue(quote + s) == (None, "")
  {
    Front(quote, s);
    NoSpan(Space, quote + s);
    SpanConcat(NotChar(quote[0]), s, "");
    assert s + "" == s;
  }
}

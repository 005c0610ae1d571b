/** The input half of html_parser_t (html/src/html/html_parser.c): the tokenizer's loops, each doing what its
    specification says. */
module HtmlParser {
  import opened Lists
  import opened Dom
  import opened HtmlTree
  import opened HtmlLexer

  // The input half of the parser: input, position, length.
  class Tokenizer {
    const input: string
    var position: nat

    constructor (input: string)
      ensures Valid() && Rest() == input && this.input == input
    {
      this.input, position := input, 0;
      new;
      assert input[0..] == input;
    }

    ghost predicate Valid()
      reads this
    {
      position <= |input|
    }

    ghost function Rest(): string
      requires Valid()
      reads this
    {
      input[position..]
    }

    // The scanning loops: while the character is of the class, move on.
    method Skip(cl: Class)
      requires Valid()
      modifies this
      ensures Valid() && position == old(position) + Span(cl, old(Rest())) && Rest() == After(cl, old(Rest()))
      ensures input[old(position)..position] == old(Rest())[..Span(cl, old(Rest()))]
    {
      while position < |input| && In(cl, input[position])
        invariant Valid() && old(position) <= position
        invariant Span(cl, old(Rest())) == position - old(position) + Span(cl, Rest())
        decreases |input| - position
      {
        SpanStep(cl, input, position);
        position := position + 1;
      }
    }

    method ParseTagName() returns (name: Option<string>)
      requires Valid()
      modifies this
      ensures Valid() && (name, Rest()) == TagName(old(Rest()))
    {
      var start := position;
      Skip(NameChar);
      if start == position {
        return None;
      }
      name := Some(input[start..position]);
    }

    method Advance()
      requires Valid() && position < |input|
      modifies this
      ensures Valid() && position == old(position) + 1 && Rest() == old(Rest())[1..]
    {
      position := position + 1;
    }

    method ParseQuotedValue(quote: char) returns (value: Option<string>)
      requires Valid() && (quote == '"' || quote == '\'') && Rest() != "" && Rest()[0] == quote
      modifies this
      ensures Valid() && (value, Rest()) == QuotedPart(old(Rest()))
    {
      Advance();
      var start := position;
      Skip(NotChar(quote));
      if position >= |input| {
        return None;
      }
      value := Some(input[start..position]);
      Advance();
    }

    method ParseAttributeValue() returns (value: Option<string>)
      requires Valid()
      modifies this
      ensures Valid() && (value, Rest()) == AttrValue(old(Rest())) && position >= old(position)
    {
      Skip(Space);
      if position >= |input| {
        return None;
      }
      var quote := input[position];
      if quote == '"' || quote == '\'' {
        value := ParseQuotedValue(quote);
      } else {
        var start := position;
        Skip(BareChar);
        value := Some(input[start..position]);
      }
    }

    // What follows an attribute name.
    method ParseAttributeTail() returns (value: Option<string>)
      requires Valid()
      modifies this
      ensures Valid() && (value, Rest()) == AttrTail(old(Rest())) && position >= old(position)
    {
      Skip(Space);
      value := None;
      if position < |input| && input[position] == '=' {
        Advance();
        value := ParseAttributeValue();
      }
    }

    // One turn of the loop of html_parse_attributes; None where it breaks.
    method ParseAttribute() returns (attr: Option<Attr>)
      requires Valid() && position < |input|
      modifies this
      ensures Valid() && (attr.Some? ==> position > old(position))
      ensures Attributes(old(Rest())) ==
        if attr.None? then ([], Rest()) else ([attr.value] + Attributes(Rest()).0, Attributes(Rest()).1)
    {
      ghost var s := Rest();
      AttributesSkip(s);
      Skip(Space);
      ghost var t := Rest();
      if position >= |input| || input[position] == '>' || input[position] == '/' {
        NoAttributes(t);
        return None;
      }
      var start := position;
      Skip(AttrChar);
      if start == position {
        NoAttributes(t);
        return None;
      }
      var name := input[start..position];
      var value := ParseAttributeTail();
      AttributesTurn(s, t, name, value, Rest());
      attr := Some(Attr(name, value));
    }

    method ParseAttributes() returns (attrs: seq<Attr>)
      requires Valid()
      modifies this
      ensures Valid() && (attrs, Rest()) == Attributes(old(Rest()))
    {
      attrs := [];
      ghost var s := Rest();
      ReadsStart(s);
      while position < |input|
        invariant Valid() && Reads(s, attrs, Rest())
        decreases |input| - position
      {
        ghost var t := Rest();
        var attr := ParseAttribute();
        if attr.None? {
          ReadsEnd(s, attrs, t, Rest());
          return;
        }
        ReadsTurn(s, attrs, t, attr.value, Rest());
        attrs := attrs + [attr.value];
      }
      NoAttributes(Rest());
      ReadsEnd(s, attrs, Rest(), Rest());
    }

    method ParseTag() returns (token: Option<Token>)
      requires Valid() && Rest() != ""
      modifies this
      ensures Valid()
      ensures Tag(old(Rest())) == if token.None? then None else Some((token.value, Rest()))
    {
      ghost var s := Rest();
      Advance();
      var closing := false;
      if position < |input| && input[position] == '/' {
        closing := true;
        Advance();
        assert s[1..][1..] == s[2..];
      }
      var name := ParseTagName();
      if name.None? {
        return None;
      }
      var attrs := ParseAttributes();
      token := ParseTagEnd(closing, name.value, attrs);
    }

    method ParseTagEnd(closing: bool, name: string, attrs: seq<Attr>) returns (token: Option<Token>)
      requires Valid()
      modifies this
      ensures Valid()
      ensures TagEnd(closing, name, attrs, old(Rest())) == if token.None? then None else Some((token.value, Rest()))
    {
      var slash := false;
      if position < |input| && input[position] == '/' {
        slash := true;
        Advance();
      }
      if position < |input| && input[position] == '>' {
        Advance();
      } else {
        return None;
      }
      token := Some(if closing then EndTag(name, attrs, slash) else StartTag(name, attrs, slash));
    }

    method ParseText() returns (token: Token)
      requires Valid() && Rest() != "" && Rest()[0] != '<'
      modifies this
      ensures Valid() && (token, Rest()) == TextToken(old(Rest()))
    {
      var start := position;
      Skip(NotChar('<'));
      token := TextRun(input[start..position]);
    }

    method ParseComment() returns (token: Option<Token>)
      requires Valid() && |Rest()| >= 4
      modifies this
      ensures Valid()
      ensures CommentToken(old(Rest())) == if token.None? then None else Some((token.value, Rest()))
    {
      ghost var s, p := Rest(), position;
      position := position + 4;
      var start := position;
      while position < |input| - 2
        invariant start <= position <= |input|
        invariant CommentEnd(s, 4) == CommentEnd(s, position - p)
        decreases |input| - position
      {
        ghost var i := position - p;
        assert s[i] == input[position] && s[i + 1] == input[position + 1] && s[i + 2] == input[position + 2];
        if input[position] == '-' && input[position + 1] == '-' && input[position + 2] == '>' {
          break;
        }
        position := position + 1;
      }
      if position >= |input| - 2 {
        return None;
      }
      assert s[4..position - p] == input[start..position];
      token := Some(Comment(input[start..position]));
      position := position + 3;
      assert Rest() == s[position - p..];
    }

    method SkipDoctype() returns (token: Token)
      requires Valid() && Rest() != "" && Rest()[0] == '<'
      modifies this
      ensures Valid() && (token, Rest()) == DoctypeToken(old(Rest()))
    {
      Skip(NotChar('>'));
      if position < |input| {
        ghost var t := Rest();
        position := position + 1;
        assert Rest() == t[1..];
      }
      token := Doctype;
    }

    // html_parser_next_token
    method Next() returns (token: Option<Token>)
      requires Valid()
      modifies this
      ensures Valid()
      ensures NextToken(old(Rest())) == if token.None? then None else Some((token.value, Rest()))
    {
      if position >= |input| {
        return None;
      }
      Skip(Space);
      if position >= |input| {
        return None;
      }
      ghost var t := Rest();
      if input[position] == '<' {
        if position + 3 < |input| && input[position + 1] == '!' && input[position + 2] == '-' && input[position + 3] == '-' {
          assert StartsComment(t);
          token := ParseComment();
          return;
        }
        assert !StartsComment(t);
        if position + 8 < |input| && SameName(input[position..position + 9], "<!DOCTYPE") {
          assert t[..9] == input[position..position + 9];
          var doctype := SkipDoctype();
          return Some(doctype);
        }
        assert !StartsDoctype(t) by { if |t| > 8 { assert t[..9] == input[position..position + 9]; } }
        token := ParseTag();
      } else {
        var text := ParseText();
        token := Some(text);
      }
    }
  }

  // Of the attributes of s, attrs are read and those of t are left.
  ghost predicate Reads(s: string, attrs: seq<Attr>, t: string) {
    Attributes(s).0 == attrs + Attributes(t).0 && Attributes(s).1 == Attributes(t).1
  }

  lemma ReadsStart(s: string)
    ensures Reads(s, [], s)
  {
  }

  lemma ReadsTurn(s: string, attrs: seq<Attr>, t: string, a: Attr, u: string)
    requires Reads(s, attrs, t) && Attributes(t) == ([a] + Attributes(u).0, Attributes(u).1)
    ensures Reads(s, attrs + [a], u)
  {
    Regroup(attrs, [a], Attributes(u).0);
  }

  lemma ReadsEnd(s: string, attrs: seq<Attr>, t: string, u: string)
    requires Reads(s, attrs, t) && Attributes(t) == ([], u)
    ensures Attributes(s) == (attrs, u)
  {
    assert attrs + [] == attrs;
  }

  lemma NoAttributes(t: string)
    requires After(Space, t) == t && (t == "" || Span(AttrChar, t) == 0)
    ensures Attributes(t) == ([], t)
  {
  }

  lemma AttributesTurn(s: string, t: string, name: string, value: Option<string>, v: string)
    requires t == After(Space, s) && name != "" && name == t[..Span(AttrChar, t)]
    requires AttrTail(After(AttrChar, t)) == (value, v)
    ensures Attributes(s) == ([Attr(name, value)] + Attributes(v).0, Attributes(v).1)
  {
  }
}

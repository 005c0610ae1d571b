/** strtok_r and the searches below it (libc/src/string/strlen.c): cutting a string in place at delimiters yields
    its maximal delimiter-free pieces. */
module Strtok {
  import opened Lists

  // ----- What the pieces are -----

  // Length of the longest prefix without delimiters.
  function Cspn(s: string, delim: string): (n: nat)
    ensures n <= |s| && (n < |s| ==> s[n] in delim) && forall i :: 0 <= i < n ==> s[i] !in delim
  {
    if s == "" || s[0] in delim then 0 else 1 + Cspn(s[1..], delim)
  }

  // The maximal non-empty delimiter-free pieces of s, in order.
  function Pieces(s: string, delim: string): seq<string>
    decreases |s|
  {
    if s == "" then []
    else if s[0] in delim then Pieces(s[1..], delim)
    else [s[..Cspn(s, delim)]] + Pieces(s[Cspn(s, delim)..], delim)
  }

  lemma {:induction false} CspnWhole(s: string, delim: string, more: string)
    requires forall i :: 0 <= i < |s| ==> s[i] !in delim
    requires more == "" || more[0] in delim
    ensures Cspn(s + more, delim) == |s|
  {
    if s == "" {
      assert s + more == more;
    } else {
      assert (s + more)[1..] == s[1..] + more;
      CspnWhole(s[1..], delim, more);
    }
  }

  // A piece, if there is one, then what follows it.
  lemma PiecesFirst(s: string, delim: string, more: string)
    requires s != "" && (forall i :: 0 <= i < |s| ==> s[i] !in delim) && (more == "" || more[0] in delim)
    ensures Pieces(s + more, delim) == [s] + Pieces(more, delim)
  {
    CspnWhole(s, delim, more);
    assert (s + more)[..|s|] == s && (s + more)[|s|..] == more;
  }

  // One delimiter separates: together with the two facts below this says what Pieces is.
  lemma {:induction false} PiecesConcat(a: string, d: char, b: string, delim: string)
    requires d in delim
    ensures Pieces(a + ([d] + b), delim) == Pieces(a, delim) + Pieces(b, delim)
    decreases |a|
  {
    if a == "" {
      assert a + ([d] + b) == [d] + b && ([d] + b)[1..] == b;
    } else if a[0] in delim {
      assert (a + ([d] + b))[1..] == a[1..] + ([d] + b);
      PiecesConcat(a[1..], d, b, delim);
    } else {
      var n := Cspn(a, delim);
      var p, q := a[..n], a[n..];
      Regroup(p, q, [d] + b);
      assert p + q == a;
      PiecesConcat(q, d, b, delim);
      PiecesFirst(p, delim, q + ([d] + b));
      Regroup([p], Pieces(q, delim), Pieces(b, delim));
    }
  }

  lemma PieceAlone(s: string, delim: string)
    requires forall i :: 0 <= i < |s| ==> s[i] !in delim
    ensures Pieces(s, delim) == if s == "" then [] else [s]
  {
    if s != "" {
      PiecesFirst(s, delim, "");
      assert s + "" == s;
    }
  }

  // No piece is empty or has a delimiter in it.
  lemma {:induction false} PiecesAreClean(s: string, delim: string, i: nat)
    requires i < |Pieces(s, delim)|
    ensures Pieces(s, delim)[i] != "" && forall k :: 0 <= k < |Pieces(s, delim)[i]| ==> Pieces(s, delim)[i][k] !in delim
    decreases |s|
  {
    if s[0] in delim {
      PiecesAreClean(s[1..], delim, i);
    } else if i > 0 {
      PiecesAreClean(s[Cspn(s, delim)..], delim, i - 1);
    }
  }

  // ----- Strings in memory -----

  // The C string at i is s.
  ghost predicate Holds(buf: seq<char>, i: nat, s: string) {
    i + |s| < |buf| && buf[i + |s|] == '\0' && forall k {:trigger s[k]} :: 0 <= k < |s| ==> buf[i + k] == s[k] && s[k] != '\0'
  }

  lemma HoldsAt(buf: seq<char>, i: nat, s: string, k: nat)
    requires Holds(buf, i, s) && k <= |s|
    ensures Holds(buf, i + k, s[k..]) && (buf[i + k] == '\0' <==> k == |s|) && (k < |s| ==> buf[i + k] == s[k])
  {
    if k < |s| { assert s[k] != '\0'; }
  }

  // strcspn on the string at i.
  method Strcspn(buf: array<char>, i: nat, reject: string, ghost s: string) returns (count: nat)
    requires Holds(buf[..], i, s)
    ensures count == Cspn(s, reject)
  {
    count := 0;
    HoldsAt(buf[..], i, s, 0);
    assert s[0..] == s;
    while buf[i + count] != '\0'
      invariant count <= |s| && i + count < buf.Length
      invariant buf[i + count] == '\0' <==> count == |s|
      invariant count < |s| ==> buf[i + count] == s[count]
      invariant Cspn(s, reject) == count + Cspn(s[count..], reject)
      decreases |s| - count
    {
      var r := 0;
      while r < |reject|
        invariant 0 <= r <= |reject| && buf[i + count] !in reject[..r]
      {
        if buf[i + count] == reject[r] {
          return;
        }
        r := r + 1;
      }
      assert reject[..r] == reject && s[count..][1..] == s[count + 1..];
      HoldsAt(buf[..], i, s, count + 1);
      count := count + 1;
    }
  }

  // The string being cut and the position kept between calls; -1 is the null pointer.
  class Cutter {
    const buf: array<char>
    var saveptr: int
    // What is left to cut.
    ghost var rest: string

    ghost predicate Valid()
      reads this, buf
    {
      if saveptr == -1 then rest == "" else saveptr >= 0 && Holds(buf[..], saveptr, rest)
    }

    // strtok with a string, before it looks for the first piece.
    constructor (buf: array<char>, ghost s: string)
      requires Holds(buf[..], 0, s)
      ensures Valid() && rest == s && this.buf == buf
    {
      this.buf, saveptr, rest := buf, 0, s;
    }

    // strtok with NULL. -1 when there is no piece left, else where it starts; it ends at a NUL.
    method Next(delim: string) returns (token: int, ghost piece: string)
      requires Valid() && '\0' !in delim
      modifies this, buf
      ensures Valid()
      ensures token == -1 <==> Pieces(old(rest), delim) == []
      ensures token == -1 ==> rest == ""
      ensures token != -1 ==> token >= 0 && Holds(buf[..], token, piece)
      ensures token != -1 ==> Pieces(old(rest), delim) == [piece] + Pieces(rest, delim)
    {
      token, piece := -1, "";
      if saveptr == -1 {
        return;
      }
      ghost var s := rest;
      HoldsAt(buf[..], saveptr, s, 0);
      assert s[0..] == s;
      if buf[saveptr] == '\0' {
        return;
      }
      token := SkipDelimiters(delim);
      if buf[token] == '\0' {
        token, saveptr, rest := -1, -1, "";
        return;
      }
      piece := Cut(token, delim);
    }

    // The leading delimiters: rest starts at its first piece afterwards.
    method SkipDelimiters(delim: string) returns (token: nat)
      requires Valid() && saveptr >= 0
      modifies this`saveptr, this`rest
      ensures token == saveptr && Valid() && Pieces(rest, delim) == Pieces(old(rest), delim)
      ensures buf[token] == '\0' <==> rest == ""
      ensures rest != "" ==> rest[0] !in delim
    {
      token := saveptr;
      HoldsAt(buf[..], token, rest, 0);
      assert rest[0..] == rest;
      var n := Strcspn(buf, token, delim, rest);
      while buf[token] != '\0' && n == 0
        invariant token < buf.Length && Holds(buf[..], token, rest) && n == Cspn(rest, delim)
        invariant buf[token] == '\0' <==> rest == ""
        invariant Pieces(rest, delim) == Pieces(old(rest), delim)
        decreases |rest|
      {
        HoldsAt(buf[..], token, rest, 1);
        rest := rest[1..];
        token := token + 1;
        HoldsAt(buf[..], token, rest, 0);
        n := Strcspn(buf, token, delim, rest);
      }
      saveptr := token;
    }

    // The end of the piece at token, where a NUL is put.
    method Cut(token: nat, delim: string) returns (ghost piece: string)
      requires Valid() && token == saveptr && rest != "" && rest[0] !in delim
      modifies this, buf
      ensures Valid() && Holds(buf[..], token, piece)
      ensures Pieces(old(rest), delim) == [piece] + Pieces(rest, delim)
    {
      ghost var s := rest;
      var n := Strcspn(buf, token, delim, s);
      piece := s[..n];
      HoldsAt(buf[..], token, s, n);
      PiecesCut(s, delim, n);
      var end := token + n;
      if buf[end] != '\0' {
        HoldsAt(buf[..], token, s, n + 1);
        ghost var was := buf[..];
        buf[end] := '\0';
        saveptr := end + 1;
        rest := s[n + 1..];
        CutHolds(was, token, s, n, buf[..]);
      } else {
        saveptr := -1;
        rest := "";
        assert piece == s;
      }
    }
  }

  lemma PiecesCut(s: string, delim: string, n: nat)
    requires s != "" && s[0] !in delim && n == Cspn(s, delim)
    ensures Pieces(s, delim) == [s[..n]] + if n < |s| then Pieces(s[n + 1..], delim) else []
  {
  }

  // After the NUL at the n-th character both halves are strings.
  lemma CutHolds(was: seq<char>, i: nat, s: string, n: nat, buf: seq<char>)
    requires Holds(was, i, s) && n < |s| && buf == was[i + n := '\0']
    ensures Holds(buf, i, s[..n]) && Holds(buf, i + n + 1, s[n + 1..])
  {
  }
}

/** Duplicate-free sequences, the abstract value of every linked list in the model. */
module Lists {
  datatype Option<T> = None | Some(value: T)

  ghost predicate NoDup<T>(q: seq<T>) {
    forall i, j :: 0 <= i < j < |q| ==> q[i] != q[j]
  }

  // Position i of a list of addresses, null past its ends.
  ghost function At(q: seq<nat>, i: int): nat { if 0 <= i < |q| then q[i] else 0 }

  function Remove<T(==)>(q: seq<T>, t: T): (r: seq<T>)
    ensures t !in q ==> r == q
  {
    if q == [] then [] else if q[0] == t then q[1..] else [q[0]] + Remove(q[1..], t)
  }

  lemma ConsNoDup<T>(t: T, q: seq<T>)
    requires NoDup(q) && t !in q
    ensures NoDup([t] + q) && forall u :: u in [t] + q <==> u == t || u in q
  {
  }

  lemma TailNoDup<T>(q: seq<T>)
    requires NoDup(q) && q != []
    ensures NoDup(q[1..]) && q[0] !in q[1..] && forall u :: u in q <==> u == q[0] || u in q[1..]
  {
  }

  lemma Regroup<T>(a: seq<T>, b: seq<T>, c: seq<T>)
    ensures (a + b) + c == a + (b + c)
  {
  }

  lemma ConcatNoDup<T>(q: seq<T>, r: seq<T>)
    requires NoDup(q) && NoDup(r) && forall u :: u in q ==> u !in r
    ensures NoDup(q + r) && forall u :: u in q + r <==> u in q || u in r
  {
    forall i, j | 0 <= i < j < |q + r| ensures (q + r)[i] != (q + r)[j] {
      if i < |q| <= j { assert q[i] in q && r[j - |q|] in r; }
    }
  }

  lemma {:induction false} RemoveIs<T>(q: seq<T>, t: T, r: seq<T>)
    requires NoDup(q) && r == Remove(q, t)
    ensures NoDup(r) && forall u :: u in r <==> u in q && u != t
  {
    if q != [] {
      TailNoDup(q);
      if q[0] != t {
        RemoveIs(q[1..], t, r[1..]);
        ConsNoDup(q[0], r[1..]);
      }
    }
  }

  lemma {:induction false} RemoveLength<T>(q: seq<T>, t: T)
    requires t in q
    ensures |Remove(q, t)| == |q| - 1
  {
    if q[0] != t { RemoveLength(q[1..], t); }
  }

  lemma {:induction false} RemoveAt<T>(q: seq<T>, i: nat)
    requires NoDup(q) && i < |q|
    ensures Remove(q, q[i]) == q[..i] + q[i + 1..]
  {
    if i > 0 {
      TailNoDup(q);
      RemoveAt(q[1..], i - 1);
      CutTail(q, i);
    }
  }

  lemma CutTail<T>(q: seq<T>, i: nat)
    requires 0 < i < |q|
    ensures q[1..][i - 1] == q[i] && q[..i] + q[i + 1..] == [q[0]] + (q[1..][..i - 1] + q[1..][i..])
  {
  }

  // No other position of a duplicate-free queue holds one of the threads around position i.
  lemma Apart(q: seq<nat>, i: nat)
    requires NoDup(q) && i < |q| && 0 !in q
    ensures forall j :: 0 <= j < |q| && j != i ==> q[j] != q[i]
    ensures forall j :: 0 <= j < |q| && j != i - 1 ==> q[j] != At(q, i - 1)
    ensures forall j :: 0 <= j < |q| && j != i + 1 ==> q[j] != At(q, i + 1)
  {
  }

  lemma NeighboursWithout(q: seq<nat>, i: nat, r: seq<nat>, k: nat, j: nat)
    requires i < |q| && r == q[..i] + q[i + 1..] && k < |r| && j == if k < i then k else k + 1
    ensures j < |q| && r[k] == q[j]
    ensures At(r, k + 1) == if j == i - 1 then At(q, i + 1) else At(q, j + 1)
    ensures At(r, k - 1) == if j == i + 1 then At(q, i - 1) else At(q, j - 1)
  {
  }
}

/** A text found at a position of a longer one, and texts joined into one. Parsers and readers are proved on a
    text at any position of any buffer: what stands there is split, and single elements are looked up, here. */
module Slices {

  predicate Has<T(==)>(buf: seq<T>, i: nat, t: seq<T>) {
    i + |t| <= |buf| && buf[i..i + |t|] == t
  }

  lemma HasSplit<T>(buf: seq<T>, i: nat, a: seq<T>, b: seq<T>)
    requires Has(buf, i, a + b)
    ensures Has(buf, i, a) && Has(buf, i + |a|, b)
  {
    assert buf[i..i + |a|] == (a + b)[..|a|];
    assert buf[i + |a|..i + |a| + |b|] == (a + b)[|a|..];
  }

  lemma HasAt<T>(buf: seq<T>, i: nat, t: seq<T>, k: nat)
    requires Has(buf, i, t) && k < |t|
    ensures i + k < |buf| && buf[i + k] == t[k]
  {
    assert buf[i..i + |t|][k] == t[k];
  }

  lemma HasNonempty<T>(buf: seq<T>, i: nat, t: seq<T>)
    requires Has(buf, i, t) && t != []
    ensures i < |buf|
  {
  }

  lemma HasEvery<T>(buf: seq<T>, i: nat, t: seq<T>)
    requires Has(buf, i, t)
    ensures i + |t| <= |buf| && forall k :: i <= k < i + |t| ==> buf[k] == t[k - i]
  {
    forall k | i <= k < i + |t|
      ensures buf[k] == t[k - i]
    {
      HasAt(buf, i, t, k - i);
    }
  }

  lemma HasNot<T>(buf: seq<T>, i: nat, t: seq<T>, u: seq<T>, k: nat)
    requires Has(buf, i, t) && k < |t| && k < |u| && t[k] != u[k]
    ensures !Has(buf, i, u)
  {
    HasAt(buf, i, t, k);
    if i + |u| <= |buf| {
      assert buf[i..i + |u|][k] == buf[i + k];
    }
  }

  // ---------------------------------------------------------------- one element in or out

  lemma WithAt<T>(c: seq<T>, k: nat, n: T)
    requires k <= |c|
    ensures var d := c[..k] + [n] + c[k..];
            && |d| == |c| + 1
            && forall i :: 0 <= i < |d| ==> d[i] == if i < k then c[i] else if i == k then n else c[i - 1]
  {
  }

  lemma CutAt<T>(c: seq<T>, k: nat)
    requires k < |c|
    ensures var d := c[..k] + c[k + 1..];
            |d| == |c| - 1 && forall i :: 0 <= i < |d| ==> d[i] == c[if i < k then i else i + 1]
  {
  }

  lemma AtEnd<T>(c: seq<T>, n: T)
    ensures c[..|c|] + [n] + c[|c|..] == c + [n]
  {
  }

  // ---------------------------------------------------------------- sequences joined

  function Flat<T>(ss: seq<seq<T>>): seq<T> {
    if ss == [] then [] else ss[0] + Flat(ss[1..])
  }

  lemma {:induction false} FlatAppend<T>(ss: seq<seq<T>>, s: seq<T>)
    ensures Flat(ss + [s]) == Flat(ss) + s
  {
    if ss == [] {
      assert [s][1..] == [] && [] + [s] == [s];
    } else {
      assert (ss + [s])[1..] == ss[1..] + [s];
      FlatAppend(ss[1..], s);
    }
  }
}

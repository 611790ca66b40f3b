/** The line ends of a loaded document, normalised in place. */
module XmlNewlines {
  import opened Bytes

  type Text = seq<Byte>

  const CR: Byte := 0x0d
  const LF: Byte := 0x0a

  /** The bytes before the first NUL. */
  function BeforeNul(s: Text): (r: Text)
    ensures |r| <= |s|
  {
    if s == [] || s[0] == 0 then [] else [s[0]] + BeforeNul(s[1..])
  }

  /** Section 2.11 of XML 1.0 in one pass: CR LF and CR alone both become LF. */
  function Normal(s: Text): (r: Text)
    ensures |r| <= |s|
    decreases |s|
  {
    if s == [] then []
    else if s[0] == CR then [LF] + Normal(if |s| > 1 && s[1] == LF then s[2..] else s[1..])
    else [s[0]] + Normal(s[1..])
  }

  /** Byte by byte: 13 10, and 13 alone, become 10; all else stays. */
  lemma NormalStep(c: Byte, t: Text)
    ensures c != 13 ==> Normal([c] + t) == [c] + Normal(t)
    ensures c == 13 && t != [] && t[0] == 10 ==> Normal([c] + t) == [10] + Normal(t[1..])
    ensures c == 13 && (t == [] || t[0] != 10) ==> Normal([c] + t) == [10] + Normal(t)
  {
    var s := [c] + t;
    assert s[1..] == t;
    if t != [] {
      assert s[2..] == t[1..] && s[1] == t[0];
    }
  }

  /** First every CR LF becomes LF ... */
  function PairsToLf(s: Text): Text
    decreases |s|
  {
    if s == [] then []
    else if |s| > 1 && s[0] == CR && s[1] == LF then [LF] + PairsToLf(s[2..])
    else [s[0]] + PairsToLf(s[1..])
  }

  /** ... then every CR that is left. */
  function CrToLf(s: Text): Text {
    seq(|s|, i requires 0 <= i < |s| => if s[i] == CR then LF else s[i])
  }

  lemma {:induction false} NormalIsTwoPasses(s: Text)
    ensures Normal(s) == CrToLf(PairsToLf(s))
    decreases |s|
  {
    if s != [] {
      if |s| > 1 && s[0] == CR && s[1] == LF {
        NormalIsTwoPasses(s[2..]);
      } else {
        NormalIsTwoPasses(s[1..]);
      }
    }
  }

  /** Exactly the texts without CR are left alone. */
  lemma {:induction false} FixedIffNoCr(s: Text)
    ensures Normal(s) == s <==> CR !in s
    decreases |s|
  {
    if s != [] {
      assert s == [s[0]] + s[1..];
      FixedIffNoCr(s[1..]);
      if s[0] != CR {
        assert Normal(s)[1..] == Normal(s[1..]);
      }
    }
  }

  /** The result has neither CR nor NUL, so that a second pass changes nothing. */
  lemma {:induction false} NormalClean(s: Text)
    requires 0 !in s
    ensures CR !in Normal(s) && 0 !in Normal(s) && Normal(Normal(s)) == Normal(s)
    decreases |s|
  {
    if s != [] {
      NormalClean(s[1..]);
      if |s| > 1 {
        NormalClean(s[2..]);
      }
    }
    FixedIffNoCr(Normal(s));
  }

  lemma {:induction false} BeforeNulNoNul(s: Text)
    ensures 0 !in BeforeNul(s)
  {
    if s != [] && s[0] != 0 {
      BeforeNulNoNul(s[1..]);
    }
  }

  lemma {:induction false} BeforeNulPrefix(s: Text, t: Text, u: Text)
    requires s == t + [0] + u && 0 !in t
    ensures BeforeNul(s) == t
    decreases |t|
  {
    if t != [] {
      assert s[1..] == t[1..] + [0] + u;
      BeforeNulPrefix(s[1..], t[1..], u);
    }
  }

  /** What is still to be written when the read head is at p. */
  ghost function Ahead(s: Text, p: nat): Text
    requires p <= |s|
  {
    Normal(BeforeNul(s[p..]))
  }

  /** The loop with a read head p and a write head q over a buffer whose last byte is set to NUL.
      The document left in the buffer is the normal form of the document read. */
  method NormalizeNewlines(buf: array<Byte>) returns (q: nat)
    requires buf.Length > 0
    modifies buf
    ensures q < buf.Length && buf[q] == 0
    ensures var text := BeforeNul(old(buf[..buf.Length - 1]));
            buf[..q] == Normal(text) && BeforeNul(buf[..]) == Normal(text) && CR !in buf[..q]
    ensures forall k :: q < k < buf.Length - 1 ==> buf[k] == old(buf[k])
  {
    hide BeforeNul, Normal, Ahead;
    var length := buf.Length - 1;
    ghost var s := buf[..length];
    var p := 0;
    q := 0;
    buf[length] := 0;
    AheadAll(s);
    while buf[p] != 0
      invariant q <= p <= length && buf[length] == 0
      invariant forall k :: q <= k < length ==> buf[k] == s[k]
      invariant buf[..q] + Ahead(s, p) == Normal(BeforeNul(s))
      decreases length - p
    {
      assert p < length && q <= length && q <= p;
      ghost var was, at, from := buf[..], q, p;
      HeadStep(s, p);
      if buf[p] == CR {
        buf[q] := LF;
        q := q + 1;
        p := p + 1;
        if buf[p] == LF {
          p := p + 1;
        }
      } else {
        buf[q] := buf[p];
        q := q + 1;
        p := p + 1;
      }
      assert buf[..] == was[at := buf[at]];
      Append(was, at, buf[at], Ahead(s, p), Ahead(s, from), Normal(BeforeNul(s)));
    }
    AtNul(s, p);
    assert q <= length;
    buf[q] := 0;
    DocumentEnd(s, buf[..], q);
  }

  /** The text left behind by the loop, once the NUL is written. */
  lemma DocumentEnd(s: Text, all: Text, q: nat)
    requires q < |all| && all[q] == 0 && all[..q] == Normal(BeforeNul(s))
    ensures BeforeNul(all) == Normal(BeforeNul(s)) && CR !in all[..q]
  {
    hide BeforeNul, Normal;
    BeforeNulNoNul(s);
    NormalClean(BeforeNul(s));
    assert all == all[..q] + [0] + all[q + 1..];
    BeforeNulPrefix(all, all[..q], all[q + 1..]);
  }

  lemma Append(a: Text, q: nat, c: Byte, b: Text, t: Text, all: Text)
    requires q < |a| && t == [c] + b && a[..q] + t == all
    ensures a[q := c][..q + 1] + b == all
  {
    assert a[q := c][..q + 1] == a[..q] + [c];
  }

  lemma AtNul(s: Text, p: nat)
    requires p <= |s| && (p < |s| ==> s[p] == 0)
    ensures Ahead(s, p) == []
  {
  }

  lemma AheadAll(s: Text)
    ensures Ahead(s, 0) == Normal(BeforeNul(s)) && [] + Ahead(s, 0) == Normal(BeforeNul(s))
  {
    assert s[0..] == s;
  }

  /** What the read head takes at p. */
  lemma HeadStep(s: Text, p: nat)
    requires p < |s| && s[p] != 0
    ensures if s[p] != CR then Ahead(s, p) == [s[p]] + Ahead(s, p + 1)
            else if p + 1 < |s| && s[p + 1] == LF then Ahead(s, p) == [LF] + Ahead(s, p + 2)
            else Ahead(s, p) == [LF] + Ahead(s, p + 1)
  {
    var t := BeforeNul(s[p..]);
    assert s[p..][1..] == s[p + 1..];
    assert t[1..] == BeforeNul(s[p + 1..]);
    if p + 1 < |s| && s[p + 1] == LF {
      assert s[p + 1..][1..] == s[p + 2..];
      assert t[2..] == BeforeNul(s[p + 2..]);
    }
  }
}

/** Messages in the bytes of a ring: a queue of messages is a stream of frames, and the stream lies in the cells
    from head on, around the end of the buffer. These lemmas say what writing behind it and reading it do. */
module NetQueueModel {
  import opened Bytes
  import opened Slices

  const LEN := 4

  /** Above this length the 32-bit sums of indices wrap. */
  const MAX_BUFFER := 0x8000_0000

  type Buffer = b: seq<Byte> | |b| <= MAX_BUFFER

  /** A message whose framed length still is a 32-bit number. */
  type Msg = m: seq<Byte> | |m| + LEN < TWO_TO_THE_32

  /** A message as it travels: its length in four bytes, then its bytes. */
  function Frame(m: Msg): (r: seq<Byte>)
    ensures |r| == |m| + LEN
  {
    Le32(|m|) + m
  }

  function Stream(ms: seq<Msg>): (r: seq<Byte>)
    ensures r == [] <==> ms == []
  {
    if ms == [] then [] else Frame(ms[0]) + Stream(ms[1..])
  }

  /** A frame starts with the length of the message, low-order byte first. */
  lemma FrameBytes(m: Msg)
    ensures Frame(m) ==
            [|m| % 0x100, |m| / 0x100 % 0x100, |m| / 0x1_0000 % 0x100, |m| / 0x100_0000] + m
  {
  }

  /** The queue takes four bytes more than each of its messages. */
  lemma {:induction false} StreamSum(ms: seq<Msg>, bytes: seq<seq<Byte>>)
    requires |bytes| == |ms| && forall i :: 0 <= i < |ms| ==> bytes[i] == ms[i]
    ensures |Stream(ms)| == 4 * |ms| + |Flat(bytes)|
  {
    if ms != [] {
      StreamSum(ms[1..], bytes[1..]);
    }
  }

  lemma {:induction false} StreamAppend(ms: seq<Msg>, m: Msg)
    ensures Stream(ms + [m]) == Stream(ms) + Frame(m)
  {
    if ms == [] {
      assert [m][1..] == [];
      assert [] + [m] == [m];
    } else {
      assert (ms + [m])[1..] == ms[1..] + [m] && (ms + [m])[0] == ms[0];
      StreamAppend(ms[1..], m);
    }
  }

  /** Position p of a ring of L cells, for p short of two rounds. */
  function Wrap(L: nat, p: nat): nat {
    if p < L then p else p - L
  }

  /** The byte i places after head, around the end of the buffer. */
  function Cell(buf: seq<Byte>, head: nat, i: nat): Byte
    requires head <= |buf| && i < |buf|
  {
    buf[Wrap(|buf|, head + i)]
  }

  /** The cells from head on hold the bytes s. */
  ghost predicate RingHas(buf: seq<Byte>, head: nat, s: seq<Byte>) {
    && head <= |buf| && |s| <= |buf|
    && forall i :: 0 <= i < |s| ==> Cell(buf, head, i) == s[i]
  }

  /** Buffer c is b with t written from tail on, around the end. */
  ghost predicate WrittenAt(b: seq<Byte>, c: seq<Byte>, tail: nat, t: seq<Byte>) {
    && |c| == |b| && tail < |b| && |t| <= |b|
    && forall k :: 0 <= k < |b| ==>
         c[k] == if tail <= k < tail + |t| then t[k - tail]
                 else if k + |b| < tail + |t| then t[k + |b| - tail]
                 else b[k]
  }

  lemma RingCell(buf: seq<Byte>, head: nat, s: seq<Byte>, i: nat)
    requires RingHas(buf, head, s) && i < |s|
    ensures Cell(buf, head, i) == s[i]
  {
  }

  /** Cell i from head on is a cell from tail on, counted from behind. */
  lemma CellFromTail(buf: seq<Byte>, head: nat, n: nat, i: nat)
    requires head < |buf| && i < n < |buf|
    ensures Cell(buf, head, i) == Cell(buf, Wrap(|buf|, head + n), |buf| - n + i)
  {
  }

  /** Writing t behind s, and nothing else, leaves s followed by t. */
  lemma RingAppend(buf: seq<Byte>, buf': seq<Byte>, head: nat, tail: nat, s: seq<Byte>, t: seq<Byte>)
    requires |buf'| == |buf| && head < |buf| && RingHas(buf, head, s) && |s| + |t| < |buf|
    requires tail == Wrap(|buf|, head + |s|) && WrittenAt(buf, buf', tail, t)
    ensures RingHas(buf', head, s + t)
  {
    forall i | 0 <= i < |s + t|
      ensures Cell(buf', head, i) == (s + t)[i]
    {
      if i >= |s| {
        assert Cell(buf', tail, i - |s|) == t[i - |s|];
      } else {
        CellFromTail(buf, head, |s|, i);
        CellFromTail(buf', head, |s|, i);
        assert Cell(buf, head, i) == s[i];
      }
    }
  }

  lemma RingDrop(buf: seq<Byte>, head: nat, s: seq<Byte>, k: nat)
    requires head < |buf| && RingHas(buf, head, s) && k <= |s|
    ensures RingHas(buf, Wrap(|buf|, head + k), s[k..])
  {
    forall i | 0 <= i < |s| - k
      ensures Cell(buf, Wrap(|buf|, head + k), i) == s[k..][i]
    {
      assert Cell(buf, head, k + i) == s[k + i];
    }
  }

  /** A run of ring cells is one slice of the buffer, or two. */
  lemma RingSlice(buf: seq<Byte>, head: nat, s: seq<Byte>)
    requires head < |buf| && RingHas(buf, head, s)
    ensures head + |s| <= |buf| ==> buf[head..head + |s|] == s
    ensures forall k :: 0 <= k <= |s| && head + k == |buf| ==> buf[head..] == s[..k] && buf[..|s| - k] == s[k..]
  {
    forall i | 0 <= i < |s|
      ensures s[i] == buf[Wrap(|buf|, head + i)]
    {
      assert Cell(buf, head, i) == s[i];
    }
  }

  lemma RingTake(buf: seq<Byte>, head: nat, s: seq<Byte>, k: nat)
    requires RingHas(buf, head, s) && k <= |s|
    ensures RingHas(buf, head, s[..k])
  {
    forall i | 0 <= i < k
      ensures Cell(buf, head, i) == s[..k][i]
    {
      assert Cell(buf, head, i) == s[i];
    }
  }

  /** The front of a ring of messages: the length in the first four cells, then the message. */
  lemma RingFront(buf: seq<Byte>, head: nat, ms: seq<Msg>)
    requires ms != [] && head < |buf| && RingHas(buf, head, Stream(ms))
    ensures |Stream(ms)| == LEN + |ms[0]| + |Stream(ms[1..])|
    ensures RingHas(buf, head, Le32(|ms[0]|))
    ensures RingHas(buf, Wrap(|buf|, head + LEN), ms[0])
    ensures RingHas(buf, Wrap(|buf|, head + LEN + |ms[0]|), Stream(ms[1..]))
  {
    hide RingHas, Le32, Wrap;
    var s, m, n := Stream(ms), ms[0], LEN + |ms[0]|;
    assert s == Frame(m) + Stream(ms[1..]);
    RingTake(buf, head, s, LEN);
    assert s[..LEN] == Le32(|m|);
    RingTake(buf, head, s, n);
    assert s[..n] == Frame(m);
    RingDrop(buf, head, Frame(m), LEN);
    assert Frame(m)[LEN..] == m;
    RingDrop(buf, head, s, n);
    assert s[n..] == Stream(ms[1..]);
  }

  lemma RingJoin(buf: seq<Byte>, head: nat, s: seq<Byte>, t: seq<Byte>)
    requires head < |buf| && RingHas(buf, head, s) && |s| + |t| < |buf|
    requires RingHas(buf, Wrap(|buf|, head + |s|), t)
    ensures RingHas(buf, head, s + t)
  {
    forall i | 0 <= i < |s + t|
      ensures Cell(buf, head, i) == (s + t)[i]
    {
      if i >= |s| {
        assert Cell(buf, Wrap(|buf|, head + |s|), i - |s|) == t[i - |s|];
      }
    }
  }

  /** Writing one cell behind a run of ring cells leaves the run alone. */
  lemma RingWriteBehind(buf: seq<Byte>, head: nat, s: seq<Byte>, j: nat, b: Byte)
    requires head < |buf| && RingHas(buf, head, s) && |s| <= j < |buf|
    ensures RingHas(buf[Wrap(|buf|, head + j) := b], head, s)
  {
    var buf' := buf[Wrap(|buf|, head + j) := b];
    forall i | 0 <= i < |s|
      ensures Cell(buf', head, i) == s[i]
    {
      assert Cell(buf, head, i) == s[i];
    }
  }

  lemma RingWriteNext(buf: seq<Byte>, head: nat, s: seq<Byte>, b: Byte)
    requires head < |buf| && RingHas(buf, head, s) && |s| < |buf|
    ensures RingHas(buf[Wrap(|buf|, head + |s|) := b], head, s + [b])
  {
    RingWriteBehind(buf, head, s, |s|, b);
  }
}

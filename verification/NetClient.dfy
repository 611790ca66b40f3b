/** Cutting a received byte stream into frames. */
module NetClient {
  import opened Bytes
  import opened NetQueueModel
  import opened Slices
  import NetQueue

  const PKT_MAX_LEN := 0x200_0000

  /** ntohl of the first four bytes. */
  function Be32(s: seq<Byte>): nat
    requires |s| >= 4
  {
    var b0: int, b1: int, b2: int, b3: int := s[0], s[1], s[2], s[3];
    16777216 * b0 + 65536 * b1 + 256 * b2 + b3
  }

  /** net_complete_longconn: the length of the frame at the start of the data, 0 while it is
      incomplete, -1 when it is too long. */
  function CompleteLongconn(data: seq<Byte>): int {
    if |data| < 4 then 0
    else
      var total_len := Be32(data);
      if total_len > PKT_MAX_LEN then -1
      else if |data| < total_len then 0
      else total_len
  }

  /** The complete frames a stream starts with. */
  function Frames(s: seq<Byte>): seq<seq<Byte>>
    decreases |s|
  {
    var n := CompleteLongconn(s);
    if n <= 0 then [] else [s[..n]] + Frames(s[n..])
  }

  /** The frames fs were cut off one after the other, with rest left over. */
  ghost predicate Cuts(fs: seq<seq<Byte>>, rest: seq<Byte>) {
    fs == [] || (CompleteLongconn(Flat(fs) + rest) == |fs[0]| > 0 && Cuts(fs[1..], rest))
  }

  lemma CompleteBound(s: seq<Byte>)
    ensures CompleteLongconn(s) <= |s| && -1 <= CompleteLongconn(s) <= PKT_MAX_LEN
  {
  }

  /** More input does not move a frame boundary. */
  lemma CompleteStable(s: seq<Byte>, t: seq<Byte>)
    requires CompleteLongconn(s) > 0
    ensures CompleteLongconn(s + t) == CompleteLongconn(s)
  {
    assert (s + t)[0] == s[0] && (s + t)[1] == s[1] && (s + t)[2] == s[2] && (s + t)[3] == s[3];
  }

  lemma {:induction false} CutsMore(fs: seq<seq<Byte>>, rest: seq<Byte>, t: seq<Byte>)
    requires Cuts(fs, rest)
    ensures Cuts(fs, rest + t)
  {
    if fs != [] {
      CompleteStable(Flat(fs) + rest, t);
      assert Flat(fs) + rest + t == Flat(fs) + (rest + t);
      CutsMore(fs[1..], rest, t);
    }
  }

  lemma {:induction false} CutsAppend(fs: seq<seq<Byte>>, f: seq<Byte>, rest: seq<Byte>)
    requires Cuts(fs, f + rest) && CompleteLongconn(f + rest) == |f| > 0
    ensures Cuts(fs + [f], rest)
  {
    FlatAppend(fs, f);
    assert Flat(fs) + f + rest == Flat(fs) + (f + rest);
    if fs == [] {
      assert fs + [f] == [f] && [f][1..] == [] && Flat([f]) == f;
    } else {
      assert (fs + [f])[1..] == fs[1..] + [f];
      CutsAppend(fs[1..], f, rest);
    }
  }

  lemma ConcatAssoc<T>(a: seq<T>, b: seq<T>, c: seq<T>)
    ensures a + (b + c) == a + b + c
  {
  }

  lemma ConsAppend<T>(a: seq<T>, b: seq<T>)
    requires a != []
    ensures [a[0]] + (a[1..] + b) == a + b
  {
    assert a == [a[0]] + a[1..];
  }

  /** The frames cut off so far, and then those of the rest, are the frames of the stream. */
  lemma {:induction false} CutsFrames(fs: seq<seq<Byte>>, rest: seq<Byte>)
    requires Cuts(fs, rest)
    ensures Frames(Flat(fs) + rest) == fs + Frames(rest)
  {
    hide CompleteLongconn;
    if fs == [] {
      assert Flat(fs) + rest == rest;
      assert fs + Frames(rest) == Frames(rest);
    } else {
      var s := Flat(fs) + rest;
      assert s[..|fs[0]|] == fs[0];
      assert s[|fs[0]|..] == Flat(fs[1..]) + rest;
      CutsFrames(fs[1..], rest);
      ConsAppend(fs, Frames(rest));
    }
  }

  /** However a stream is split into reads, the frames cut off are a prefix of one fixed sequence:
      of two runs over the same stream, one has cut off a prefix of what the other has. */
  lemma PrefixComparable(fs: seq<seq<Byte>>, rest: seq<Byte>, gs: seq<seq<Byte>>, rest': seq<Byte>)
    requires Cuts(fs, rest) && Cuts(gs, rest')
    requires Flat(fs) + rest == Flat(gs) + rest'
    ensures fs <= gs || gs <= fs
  {
    CutsFrames(fs, rest);
    CutsFrames(gs, rest');
    var all := Frames(Flat(fs) + rest);
    assert fs == all[..|fs|] && gs == all[..|gs|];
  }

  // ---------------------------------------------------------------- runs of reads

  /** What is in the buffer after a sequence of reads, each of which cuts off at most one frame. */
  function Left(chunks: seq<seq<Byte>>): seq<Byte>
    decreases |chunks|
  {
    if chunks == [] then []
    else
      var p := Left(chunks[..|chunks| - 1]) + chunks[|chunks| - 1];
      if CompleteLongconn(p) > 0 then p[CompleteLongconn(p)..] else p
  }

  /** The frames those reads cut off. */
  function CutBy(chunks: seq<seq<Byte>>): seq<seq<Byte>>
    decreases |chunks|
  {
    if chunks == [] then []
    else
      var init := chunks[..|chunks| - 1];
      var p := Left(init) + chunks[|chunks| - 1];
      if CompleteLongconn(p) > 0 then CutBy(init) + [p[..CompleteLongconn(p)]] else CutBy(init)
  }

  lemma LeftSnoc(chunks: seq<seq<Byte>>, chunk: seq<Byte>)
    ensures var p := Left(chunks) + chunk;
            var n := CompleteLongconn(p);
            && Left(chunks + [chunk]) == (if n > 0 then p[n..] else p)
            && CutBy(chunks + [chunk]) == (if n > 0 then CutBy(chunks) + [p[..n]] else CutBy(chunks))
  {
    assert (chunks + [chunk])[..|chunks|] == chunks;
  }

  /** What was read is what was cut off followed by what is left. */
  lemma {:induction false} CutByCuts(chunks: seq<seq<Byte>>)
    ensures Cuts(CutBy(chunks), Left(chunks)) && Flat(chunks) == Flat(CutBy(chunks)) + Left(chunks)
    decreases |chunks|
  {
    if chunks != [] {
      hide CompleteLongconn, Cuts, Flat;
      var init, c := chunks[..|chunks| - 1], chunks[|chunks| - 1];
      assert chunks == init + [c];
      CutByCuts(init);
      FlatAppend(init, c);
      var fs, p := CutBy(init), Left(init) + c;
      CutsMore(fs, Left(init), c);
      ConcatAssoc(Flat(fs), Left(init), c);
      var n := CompleteLongconn(p);
      if n > 0 {
        CompleteBound(p);
        assert p == p[..n] + p[n..];
        CutsAppend(fs, p[..n], p[n..]);
        FlatAppend(fs, p[..n]);
        ConcatAssoc(Flat(fs), p[..n], p[n..]);
      }
    }
  }

  /** Complete frames read so far. */
  function Complete(chunks: seq<seq<Byte>>): nat {
    |Frames(Flat(chunks))|
  }

  lemma CompleteCount(chunks: seq<seq<Byte>>)
    ensures Frames(Flat(chunks)) == CutBy(chunks) + Frames(Left(chunks))
    ensures Complete(chunks) == |CutBy(chunks)| + |Frames(Left(chunks))|
  {
    hide Frames, CutBy, Left;
    CutByCuts(chunks);
    CutsFrames(CutBy(chunks), Left(chunks));
  }

  /** One read cuts off one frame, unless none is complete after it. */
  lemma CutStep(chunks: seq<seq<Byte>>)
    requires chunks != []
    ensures var n, m := |CutBy(chunks)|, |CutBy(chunks[..|chunks| - 1])|;
            n <= m + 1 && (Frames(Left(chunks)) != [] ==> n == m + 1)
  {
    hide CompleteLongconn;
  }

  /** The reads behind the first j cut off at most one frame each. */
  lemma {:induction false} CutSince(chunks: seq<seq<Byte>>, j: nat)
    requires j <= |chunks|
    ensures |CutBy(chunks)| <= |CutBy(chunks[..j])| + |chunks| - j
    decreases |chunks|
  {
    if j < |chunks| {
      var init := chunks[..|chunks| - 1];
      assert init[..j] == chunks[..j];
      CutSince(init, j);
      CutStep(chunks);
    } else {
      assert chunks[..j] == chunks;
    }
  }

  lemma LeftNone()
    ensures Frames(Left([])) == []
  {
  }

  /** With a complete frame left over, there is a point from which on more frames were completed than reads done. */
  lemma {:induction false} Busy(chunks: seq<seq<Byte>>) returns (j: nat)
    requires Frames(Left(chunks)) != []
    ensures j < |chunks| && Frames(Left(chunks[..j])) == []
    ensures |CutBy(chunks)| == |CutBy(chunks[..j])| + |chunks| - j
    decreases |chunks|
  {
    LeftNone();
    hide Frames, CutBy, Left;
    var init := chunks[..|chunks| - 1];
    CutStep(chunks);
    if Frames(Left(init)) == [] {
      j := |init|;
    } else {
      j := Busy(init);
      assert init[..j] == chunks[..j];
    }
  }

  /** All complete frames have been cut off exactly when no last reads, however many, completed more frames
      than there were reads. Otherwise a complete frame waits in the buffer for more bytes to arrive. */
  lemma AllCut(chunks: seq<seq<Byte>>)
    ensures CutBy(chunks) == Frames(Flat(chunks)) <==> Frames(Left(chunks)) == []
    ensures Frames(Left(chunks)) == [] <==>
            forall j :: 0 <= j <= |chunks| ==> Complete(chunks) - Complete(chunks[..j]) <= |chunks| - j
  {
    hide Frames, CutBy, Left, Complete;
    CompleteCount(chunks);
    forall j | 0 <= j <= |chunks|
      ensures Complete(chunks) - Complete(chunks[..j]) <= |chunks| - j + |Frames(Left(chunks))|
    {
      CompleteCount(chunks[..j]);
      CutSince(chunks, j);
    }
    if Frames(Left(chunks)) != [] {
      var j := Busy(chunks);
      CompleteCount(chunks[..j]);
      assert Complete(chunks) - Complete(chunks[..j]) > |chunks| - j;
    }
  }

  // ---------------------------------------------------------------- frames from lengths and bodies

  /** A length in network byte order. */
  function Header(n: nat): seq<Byte>
    requires n < 0x1_0000_0000
  {
    [n / 0x100_0000, n / 0x1_0000 % 0x100, n / 0x100 % 0x100, n % 0x100]
  }

  /** A buffer that starts with the length n, its own four bytes included, holds a frame of n bytes once it has
      so many; a length above 32 MB is an error. */
  lemma FrameLength(s: seq<Byte>, n: nat)
    requires n < 0x1_0000_0000 && Has(s, 0, Header(n))
    ensures CompleteLongconn(s) == if n > 33554432 then -1 else if |s| < n then 0 else n
  {
    HasEvery(s, 0, Header(n));
    hide Has;
    HeaderNumber(n);
  }

  lemma HeaderNumber(n: nat)
    requires n < 0x1_0000_0000
    ensures 16777216 * (n / 0x100_0000) + 65536 * (n / 0x1_0000 % 0x100) + 256 * (n / 0x100 % 0x100) + n % 0x100 == n
  {
    assert n / 0x100 / 0x100 == n / 0x1_0000 && n / 0x1_0000 / 0x100 == n / 0x100_0000;
  }

  /** Bodies that fit a frame. */
  predicate Bodies(bs: seq<seq<Byte>>) {
    forall i :: 0 <= i < |bs| ==> |bs[i]| + 4 <= 33554432
  }

  function Framed(bs: seq<seq<Byte>>): (fs: seq<seq<Byte>>)
    requires Bodies(bs)
    ensures |fs| == |bs|
  {
    if bs == [] then [] else [Header(|bs[0]| + 4) + bs[0]] + Framed(bs[1..])
  }

  /** The beginning of a frame that is not all there. */
  predicate Unfinished(s: seq<Byte>) {
    |s| < 4 || exists n: nat :: 4 <= n <= 33554432 && |s| < n && Has(s, 0, Header(n))
  }

  lemma UnfinishedNone(s: seq<Byte>)
    requires Unfinished(s)
    ensures Frames(s) == []
  {
    if |s| >= 4 {
      var n: nat :| 4 <= n <= 33554432 && |s| < n && Has(s, 0, Header(n));
      FrameLength(s, n);
    }
  }

  lemma FrameFirst(body: seq<Byte>, rest: seq<Byte>)
    requires |body| + 4 <= 33554432
    ensures var f := Header(|body| + 4) + body;
            CompleteLongconn(f + rest) == |f| && Frames(f + rest) == [f] + Frames(rest)
  {
    var f := Header(|body| + 4) + body;
    assert (f + rest)[0..0 + 4] == Header(|body| + 4);
    FrameLength(f + rest, |body| + 4);
    hide CompleteLongconn, Header;
    assert (f + rest)[..|f|] == f && (f + rest)[|f|..] == rest;
  }

  /** A stream of frames, the last one perhaps not all there, is cut into those frames. */
  lemma {:induction false} FramesOfStream(bs: seq<seq<Byte>>, rest: seq<Byte>)
    requires Bodies(bs) && Unfinished(rest)
    ensures Frames(Flat(Framed(bs)) + rest) == Framed(bs)
  {
    hide Frames, Unfinished, Header;
    if bs == [] {
      UnfinishedNone(rest);
      assert Flat(Framed(bs)) + rest == rest;
    } else {
      var f, fs := Header(|bs[0]| + 4) + bs[0], Framed(bs[1..]);
      FramesOfStream(bs[1..], rest);
      FrameFirst(bs[0], Flat(fs) + rest);
      assert Framed(bs) == [f] + fs;
      hide Framed;
      FlatFirst(f, fs);
      assert Flat(Framed(bs)) + rest == f + (Flat(fs) + rest);
    }
  }

  lemma FlatFirst(f: seq<Byte>, fs: seq<seq<Byte>>)
    ensures Flat([f] + fs) == f + Flat(fs)
  {
    assert ([f] + fs)[1..] == fs;
  }

  /** However such a stream is split into reads, its frames are cut off in order, the first ones of them so far,
      and all of them exactly when no last reads completed more frames than there were reads. */
  lemma StreamCut(chunks: seq<seq<Byte>>, bs: seq<seq<Byte>>, rest: seq<Byte>)
    requires Bodies(bs) && Unfinished(rest) && Flat(chunks) == Flat(Framed(bs)) + rest
    ensures CutBy(chunks) <= Framed(bs)
    ensures CutBy(chunks) == Framed(bs) <==>
            forall j :: 0 <= j <= |chunks| ==> Complete(chunks) - Complete(chunks[..j]) <= |chunks| - j
  {
    hide Frames, Left, CutBy, Framed, Unfinished, Complete;
    FramesOfStream(bs, rest);
    CompleteCount(chunks);
    AllCut(chunks);
  }

  /** Read one by one, all frames are cut off. */
  lemma {:induction false} OneByOne(bs: seq<seq<Byte>>)
    requires Bodies(bs)
    ensures CutBy(Framed(bs)) == Framed(bs) && Left(Framed(bs)) == []
    decreases |bs|
  {
    if bs != [] {
      var init, b := bs[..|bs| - 1], bs[|bs| - 1];
      OneByOne(init);
      FramedSnoc(init, b);
      assert bs == init + [b];
      var f := Header(|b| + 4) + b;
      FrameFirst(b, []);
      hide CompleteLongconn, Header, Framed, Left, CutBy;
      LeftSnoc(Framed(init), f);
      assert f + [] == f && [] + f == f && f[..|f|] == f && f[|f|..] == [];
    }
  }

  lemma {:induction false} FramedSnoc(bs: seq<seq<Byte>>, b: seq<Byte>)
    requires Bodies(bs) && |b| + 4 <= 33554432
    ensures Bodies(bs + [b]) && Framed(bs + [b]) == Framed(bs) + [Header(|b| + 4) + b]
  {
    hide Header;
    if bs == [] {
      assert bs + [b] == [b] && [b][1..] == [];
    } else {
      FramedSnoc(bs[1..], b);
      assert (bs + [b])[1..] == bs[1..] + [b];
    }
  }

  /** One connection of the long-connection protocol. */
  class Connection {
    const recv_buf: array<Byte>
    const recv_queue: NetQueue.Queue
    var recv_len: nat
    var closed: bool
    var recv_num: nat

    /** What each read received, and all frames cut off, in order. */
    ghost var chunks: seq<seq<Byte>>
    ghost var cut: seq<seq<Byte>>

    ghost predicate Valid()
      reads this, recv_buf, recv_queue, recv_queue.m_buffer
    {
      && recv_queue.Valid() && recv_buf != recv_queue.m_buffer
      && recv_len <= recv_buf.Length
      && recv_buf[..recv_len] == Left(chunks) && cut == CutBy(chunks)
      && recv_num == |cut|
    }

    constructor (max_pack_len: nat, queue: NetQueue.Queue)
      requires queue.Valid()
      ensures Valid() && fresh(recv_buf) && recv_queue == queue && recv_buf.Length == max_pack_len
      ensures chunks == [] && cut == [] && !closed
    {
      recv_buf := new Byte[max_pack_len];
      recv_queue := queue;
      recv_len, closed, recv_num, chunks, cut := 0, false, 0, [], [];
    }

    /** Hands the first n bytes of the buffer to the queue and moves the rest to the front. */
    method CutOff(n: nat)
      requires recv_queue.Valid() && recv_buf != recv_queue.m_buffer
      requires 0 < n <= recv_len <= recv_buf.Length && n + LEN < TWO_TO_THE_32
      modifies `recv_len, recv_buf, recv_queue`m_tail, recv_queue`m_enqueue_num, recv_queue`msgs, recv_queue.m_buffer
      ensures recv_queue.Valid() && recv_len == old(recv_len) - n
      ensures recv_buf[..recv_len] == old(recv_buf[n..recv_len])
      ensures var frame := old(recv_buf[..n]);
              recv_queue.msgs ==
                if |Stream(old(recv_queue.msgs))| + LEN + n < recv_queue.m_buffer.Length
                then old(recv_queue.msgs) + [frame] else old(recv_queue.msgs)
    {
      hide Stream, RingHas;
      if n < recv_len {
        var ok := recv_queue.Push(recv_buf[..n]);
        ghost var was := recv_buf[n..recv_len];
        CopyInto(recv_buf, 0, recv_buf[n..recv_len]);
        recv_len := recv_len - n;
        assert recv_buf[..recv_len] == was;
      } else if n == recv_len {
        var ok := recv_queue.Push(recv_buf[..recv_len]);
        recv_len := 0;
      } else {
        assert false;
      }
    }

    /** recv puts chunk behind what is in the buffer. */
    method Fill(chunk: seq<Byte>)
      requires recv_len + |chunk| <= recv_buf.Length
      modifies `recv_len, recv_buf
      ensures recv_len == old(recv_len) + |chunk|
      ensures recv_buf[..recv_len] == old(recv_buf[..recv_len]) + chunk
    {
      CopyInto(recv_buf, recv_len, chunk);
      recv_len := recv_len + |chunk|;
    }

    /** The first frame of the buffer, of n bytes, goes to the queue. */
    method CutFrame(n: nat, ghost pending: seq<Byte>)
      requires recv_queue.Valid() && recv_buf != recv_queue.m_buffer && recv_len <= recv_buf.Length
      requires recv_buf[..recv_len] == pending && n == CompleteLongconn(pending) && n > 0
      modifies `recv_len, `recv_num, `cut, recv_buf
      modifies recv_queue`m_tail, recv_queue`m_enqueue_num, recv_queue`msgs, recv_queue.m_buffer
      ensures recv_queue.Valid() && n <= |pending| && recv_len <= recv_buf.Length
      ensures recv_buf[..recv_len] == pending[n..] && recv_num == old(recv_num) + 1
      ensures cut == old(cut) + [pending[..n]]
      ensures recv_queue.msgs ==
                if |Stream(old(recv_queue.msgs))| + LEN + n < recv_queue.m_buffer.Length
                then old(recv_queue.msgs) + [pending[..n]] else old(recv_queue.msgs)
    {
      hide CompleteLongconn, Stream, RingHas;
      CompleteBound(pending);
      assert recv_buf[..n] == pending[..n] && recv_buf[n..recv_len] == pending[n..];
      CutOff(n);
      cut := cut + [pending[..n]];
      recv_num := recv_num + 1;
    }

    /** What follows a read that brought bytes. */
    method Receive(chunk: seq<Byte>)
      requires Valid() && recv_len + |chunk| <= recv_buf.Length
      modifies `recv_len, `recv_num, `cut, `chunks, recv_buf
      modifies recv_queue`m_tail, recv_queue`m_enqueue_num, recv_queue`msgs, recv_queue.m_buffer
      ensures Valid() && chunks == old(chunks) + [chunk]
      ensures var pending := old(recv_buf[..recv_len]) + chunk;
              var n := CompleteLongconn(pending);
              if n <= 0 then cut == old(cut) && recv_queue.msgs == old(recv_queue.msgs)
              else
                && cut == old(cut) + [pending[..n]]
                && recv_queue.msgs ==
                     if |Stream(old(recv_queue.msgs))| + LEN + n < recv_queue.m_buffer.Length
                     then old(recv_queue.msgs) + [pending[..n]] else old(recv_queue.msgs)
    {
      hide CompleteLongconn, Left, CutBy, Stream, RingHas;
      ghost var pending := recv_buf[..recv_len] + chunk;
      LeftSnoc(chunks, chunk);
      Fill(chunk);
      var n := CompleteLongconn(recv_buf[..recv_len]);
      if n > 0 {
        CutFrame(n, pending);
      }
      chunks := chunks + [chunk];
    }

    /** One readable event. recv fills the free part of the buffer with chunk; ret is its result, and
        again tells the retryable errors from the others. At most one frame is cut off; a frame the
        queue has no room for is dropped. */
    method OnRecv(ret: int, chunk: seq<Byte>, again: bool)
      requires Valid() && !closed
      requires ret > 0 ==> ret == |chunk| && recv_len + |chunk| <= recv_buf.Length
      modifies this, recv_buf, recv_queue`m_tail, recv_queue`m_enqueue_num, recv_queue`msgs, recv_queue.m_buffer
      ensures Valid()
      ensures closed <==> ret == 0 || (ret < 0 && !again)
      ensures ret <= 0 ==> chunks == old(chunks) && recv_queue.msgs == old(recv_queue.msgs)
      ensures ret > 0 ==> chunks == old(chunks) + [chunk]
      ensures ret > 0 ==>
                var pending := old(recv_buf[..recv_len]) + chunk;
                var n := CompleteLongconn(pending);
                if n <= 0 then cut == old(cut) && recv_queue.msgs == old(recv_queue.msgs)
                else
                  && cut == old(cut) + [pending[..n]]
                  && recv_queue.msgs ==
                       if |Stream(old(recv_queue.msgs))| + LEN + n < recv_queue.m_buffer.Length
                       then old(recv_queue.msgs) + [pending[..n]] else old(recv_queue.msgs)
    {
      if ret < 0 {
        if !again {
          closed := true;
        }
        return;
      } else if ret == 0 {
        closed := true;
        return;
      }
      Receive(chunk);
    }
  }
}

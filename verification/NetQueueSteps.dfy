/** The message queue between two processes, step by step. */
module NetQueueSteps {
  import opened Bytes
  import opened NetQueueModel

  // ---------------------------------------------------------------- states

  /** Where EnQueue stands. */
  datatype Producer =
    | PIdle
    | PHead(m: Msg, h: nat)             // m_head loaded
    | PCopy(m: Msg, t: nat, k: nat)     // m_tail loaded, space found, k bytes of the frame copied
    | PStored(m: Msg)                   // m_tail stored, about to be compared with the length
    | PReset(m: Msg)                    // m_tail found to be the length, about to be set to 0

  /** Where DeQueue stands. */
  datatype Consumer =
    | CIdle
    | CHead(h: nat, size: nat)                                    // m_head loaded
    | CLen(h: nat, used: nat, size: nat, bs: seq<Byte>)           // m_tail loaded, bs read of the length
    | CData(next: nat, rlen: nat, size: nat, ds: seq<Byte>)       // length known, ds read of the message
    | CStored(ds: seq<Byte>, size: nat)                           // m_head stored, about to be compared
    | CReset(ds: seq<Byte>, size: nat)                            // m_head about to be set to 0
    | CAbort                                                      // the assertion on the length failed

  /** What a finished call did. */
  datatype Event =
    | EvPush(m: Msg)
    | EvFull(m: Msg)
    | EvPop(data: seq<Byte>, size: nat)
    | EvEmpty
    | EvSmall(size: nat)
    | EvBig(len: nat, size: nat)

  datatype State = State(
    buf: Buffer, head: nat, tail: nat,
    p: Producer, c: Consumer,
    pret: seq<Event>, cret: seq<Event>)    // calls that returned, in order

  /** Who moves next; an idle side starts a call with the given argument. */
  datatype Choice = Produce(m: Msg) | Consume(size: nat)

  function Init(buf: Buffer): State {
    State(buf, 0, 0, PIdle, CIdle, [], [])
  }

  // ---------------------------------------------------------------- steps

  function FreeLen(L: nat, h: nat, t: nat): int {
    if h > t then h - t else h + L - t
  }

  function UsedLen(L: nat, h: nat, t: nat): int {
    if t > h then t - h else t + L - h
  }

  /** Cell that byte k of a frame goes to, in each of the three layouts. */
  function WritePos(L: nat, t: nat, len: nat, k: nat): int {
    if L - t >= len + LEN then t + k
    else if L - t >= LEN then
      var first := L - t - LEN;
      if k < LEN then t + k else if k - LEN < first then t + k else k - LEN - first
    else
      var first := L - t;
      if k < first then t + k else if k < LEN then k - first else (LEN - first) + (k - LEN)
  }

  function NewTail(L: nat, t: nat, len: nat): int {
    if L - t >= len + LEN then t + (len + LEN)
    else if L - t >= LEN then t + len + LEN - L
    else (LEN - (L - t)) + len
  }

  /** Cell that byte i of the length word comes from. */
  function LenPos(L: nat, h: nat, i: nat): int {
    if h + LEN >= L && i >= L - h then i - (L - h) else h + i
  }

  function NextPos(L: nat, h: nat): int {
    if h + LEN >= L then LEN - (L - h) else h + LEN
  }

  /** Cell that byte i of a message comes from. */
  function DataPos(L: nat, next: nat, rlen: nat, i: nat): int {
    if next + rlen <= L || i < L - next then next + i else i - (L - next)
  }

  function NewHead(L: nat, next: nat, rlen: nat): int {
    if next + rlen <= L then next + rlen else rlen - (L - next)
  }

  function Nat(i: int): nat {
    if i >= 0 then i else 0
  }

  function Load(buf: seq<Byte>, i: int): Byte {
    if 0 <= i < |buf| then buf[i] else 0
  }

  function StoreAt(buf: Buffer, i: int, b: Byte): Buffer {
    if 0 <= i < |buf| then buf[i := b] else buf
  }

  function ProducerStep(s: State, m: Msg): State {
    var L := |s.buf|;
    match s.p
    case PIdle => s.(p := PHead(m, s.head))
    case PHead(m, h) =>
      if FreeLen(L, h, s.tail) <= |m| + LEN
      then s.(p := PIdle, pret := s.pret + [EvFull(m)])
      else s.(p := PCopy(m, s.tail, 0))
    case PCopy(m, t, k) =>
      if k < |m| + LEN
      then s.(buf := StoreAt(s.buf, WritePos(L, t, |m|, k), Frame(m)[k]), p := PCopy(m, t, k + 1))
      else s.(tail := Nat(NewTail(L, t, |m|)), p := PStored(m))
    case PStored(m) =>
      if s.tail >= L then s.(p := PReset(m)) else s.(p := PIdle, pret := s.pret + [EvPush(m)])
    case PReset(m) => s.(tail := 0, p := PIdle, pret := s.pret + [EvPush(m)])
  }

  function ConsumerStep(s: State, size: nat): State {
    var L := |s.buf|;
    match s.c
    case CIdle => s.(c := CHead(s.head, size))
    case CHead(h, size) =>
      if h == s.tail then s.(c := CIdle, cret := s.cret + [EvEmpty])
      else if size < LEN then s.(c := CIdle, cret := s.cret + [EvSmall(size)])
      else s.(c := CLen(h, Nat(UsedLen(L, h, s.tail)), size, []))
    case CLen(h, used, size, bs) =>
      if |bs| < LEN then s.(c := CLen(h, used, size, bs + [Load(s.buf, LenPos(L, h, |bs|))]))
      else
        var rlen := FromLe32(bs[..LEN]);
        if used < rlen + LEN then s.(c := CAbort)
        else if rlen + LEN > size then s.(c := CIdle, cret := s.cret + [EvBig(rlen, size)])
        else s.(c := CData(Nat(NextPos(L, h)), rlen, size, []))
    case CData(next, rlen, size, ds) =>
      if |ds| < rlen then s.(c := CData(next, rlen, size, ds + [Load(s.buf, DataPos(L, next, rlen, |ds|))]))
      else s.(head := Nat(NewHead(L, next, rlen)), c := CStored(ds, size))
    case CStored(ds, size) =>
      if s.head >= L then s.(c := CReset(ds, size)) else s.(c := CIdle, cret := s.cret + [EvPop(ds, size)])
    case CReset(ds, size) => s.(head := 0, c := CIdle, cret := s.cret + [EvPop(ds, size)])
    case CAbort => s
  }

  function Step(s: State, ch: Choice): State {
    match ch
    case Produce(m) => ProducerStep(s, m)
    case Consume(size) => ConsumerStep(s, size)
  }

  function Run(s: State, chs: seq<Choice>): State
    decreases |chs|
  {
    if chs == [] then s else Step(Run(s, chs[..|chs| - 1]), chs[|chs| - 1])
  }

  // ---------------------------------------------------------------- linearization

  /** The call that takes effect at this step, if one does: a push when it stores m_tail, a refused
      push when it loads m_head, a pop when it stores m_head, a refused pop when it loads m_tail
      or has read the length. */
  function Effect(s: State, ch: Choice): seq<Event> {
    var L := |s.buf|;
    match ch
    case Produce(m) => (
      match s.p
      case PIdle => if FreeLen(L, s.head, s.tail) <= |m| + LEN then [EvFull(m)] else []
      case PCopy(m, t, k) => if k < |m| + LEN then [] else [EvPush(m)]
      case _ => [])
    case Consume(size) =>
      match s.c
      case CHead(h, size) =>
        if h == s.tail then [EvEmpty] else if size < LEN then [EvSmall(size)] else []
      case CLen(h, used, size, bs) =>
        if |bs| < LEN then []
        else
          var rlen := FromLe32(bs[..LEN]);
          if used >= rlen + LEN && rlen + LEN > size then [EvBig(rlen, size)] else []
      case CData(next, rlen, size, ds) => if |ds| < rlen then [] else [EvPop(ds, size)]
      case _ => []
  }

  function Effects(s: State, chs: seq<Choice>): seq<Event>
    decreases |chs|
  {
    if chs == [] then []
    else
      var init := chs[..|chs| - 1];
      Effects(s, init) + Effect(Run(s, init), chs[|chs| - 1])
  }

  /** The sequential queue: what each call may answer, and what it does to the messages. */
  ghost predicate Allowed(L: nat, q: seq<Msg>, e: Event) {
    match e
    case EvPush(m) => |Stream(q)| + LEN + |m| < L
    case EvFull(m) => |Stream(q)| + LEN + |m| >= L
    case EvPop(m, size) => q != [] && m == q[0] && |m| + LEN <= size
    case EvEmpty => q == []
    case EvSmall(size) => q != [] && size < LEN
    case EvBig(len, size) => q != [] && len == |q[0]| && LEN <= size < len + LEN
  }

  function After(q: seq<Msg>, e: Event): seq<Msg> {
    match e
    case EvPush(m) => q + [m]
    case EvPop(m, size) => if q == [] then q else q[1..]
    case _ => q
  }

  function Queued(es: seq<Event>): seq<Msg>
    decreases |es|
  {
    if es == [] then [] else After(Queued(es[..|es| - 1]), es[|es| - 1])
  }

  ghost predicate Legal(L: nat, es: seq<Event>)
    decreases |es|
  {
    es == [] || (Legal(L, es[..|es| - 1]) && Allowed(L, Queued(es[..|es| - 1]), es[|es| - 1]))
  }

  predicate OfProducer(e: Event) {
    e.EvPush? || e.EvFull?
  }

  /** The events of one side, in order. */
  function Side(es: seq<Event>, producer: bool): seq<Event>
    decreases |es|
  {
    if es == [] then []
    else
      var e := es[|es| - 1];
      Side(es[..|es| - 1], producer) + if OfProducer(e) == producer then [e] else []
  }

  /** The producer's call that took effect and has not returned. */
  function PendingP(s: State): seq<Event> {
    match s.p
    case PHead(m, h) => if FreeLen(|s.buf|, h, s.tail) <= |m| + LEN then [EvFull(m)] else []
    case PStored(m) => [EvPush(m)]
    case PReset(m) => [EvPush(m)]
    case _ => []
  }

  /** The consumer's call that took effect and has not returned. */
  function PendingC(s: State): seq<Event> {
    match s.c
    case CStored(ds, size) => [EvPop(ds, size)]
    case CReset(ds, size) => [EvPop(ds, size)]
    case _ => []
  }

  // ---------------------------------------------------------------- invariant

  /** An index, with the buffer length standing for 0. */
  function Norm(L: nat, i: nat): nat {
    if i >= L then 0 else i
  }

  ghost predicate RingOk(s: State, q: seq<Msg>) {
    var L := |s.buf|;
    var n := |Stream(q)|;
    && (L == 0 ==> q == [])
    && (L > 0 ==> n < L)
    && s.head <= L && s.tail <= L
    && (s.head == L && L > 0 ==> s.c.CStored? || s.c.CReset?)
    && (s.tail == L && L > 0 ==> s.p.PStored? || s.p.PReset?)
    && Norm(L, s.tail) == Norm(L, Wrap(L, Norm(L, s.head) + n))
    && RingHas(s.buf, Norm(L, s.head), Stream(q))
  }

  ghost predicate ProducerOk(s: State, q: seq<Msg>) {
    var L := |s.buf|;
    match s.p
    case PHead(m, h) => h <= L && FreeLen(L, h, s.tail) <= L - |Stream(q)|
    case PCopy(m, t, k) =>
      && t == s.tail && k <= |m| + LEN && |Stream(q)| + |m| + LEN < L
      && RingHas(s.buf, t, Frame(m)[..k])
    case PReset(m) => s.tail == L
    case _ => true
  }

  ghost predicate ConsumerOk(s: State, q: seq<Msg>) {
    var L := |s.buf|;
    match s.c
    case CHead(h, size) => h == s.head
    case CLen(h, used, size, bs) =>
      && h == s.head && q != [] && size >= LEN
      && LEN + |q[0]| <= used <= |Stream(q)|
      && |bs| <= LEN && bs == Le32(|q[0]|)[..|bs|]
    case CData(next, rlen, size, ds) =>
      && q != [] && rlen == |q[0]| && next == Wrap(L, s.head + LEN) && rlen + LEN <= size
      && |ds| <= rlen && ds == q[0][..|ds|]
    case CReset(ds, size) => s.head == L
    case CAbort => false
    case _ => true
  }

  ghost predicate Inv(s: State, q: seq<Msg>) {
    RingOk(s, q) && ProducerOk(s, q) && ConsumerOk(s, q)
  }

  /** The consumer is about to load an m_tail that still is the buffer length, with m_head at 0:
      the ring is empty, but the two indices differ. */
  predicate Hazard(s: State, ch: Choice) {
    ch.Consume? && s.c.CHead? && s.c.h == 0 && s.tail == |s.buf| && |s.buf| > 0
  }

  ghost predicate Safe(s: State, chs: seq<Choice>)
    decreases |chs|
  {
    chs == [] || (Safe(s, chs[..|chs| - 1]) && !Hazard(Run(s, chs[..|chs| - 1]), chs[|chs| - 1]))
  }

  // ---------------------------------------------------------------- what a step keeps

  /** After one step the invariant holds for the queue the step leaves, and a call that took effect
      was allowed to answer so. */
  ghost predicate StepOk(s: State, q: seq<Msg>, ch: Choice) {
    var s', es := Step(s, ch), Effect(s, ch);
    && |s'.buf| == |s.buf|
    && |es| <= 1
    && (es != [] ==> Allowed(|s.buf|, q, es[0]))
    && Inv(s', if es == [] then q else After(q, es[0]))
  }

  /** The three layouts write the bytes of a frame to consecutive cells of the ring. */
  lemma WritePosIsRing(L: nat, t: nat, len: nat, k: nat)
    requires t < L && len + LEN < L && k < len + LEN
    ensures WritePos(L, t, len, k) == Wrap(L, t + k) < L
  {
  }

  lemma NewTailIsRing(L: nat, t: nat, len: nat)
    requires t < L && len + LEN < L
    ensures 0 <= NewTail(L, t, len) <= L
    ensures Norm(L, NewTail(L, t, len)) == Wrap(L, t + len + LEN)
  {
  }

  lemma LenPosIsRing(L: nat, h: nat, i: nat)
    requires h < L && LEN < L && i < LEN
    ensures LenPos(L, h, i) == Wrap(L, h + i) < L
    ensures NextPos(L, h) == Wrap(L, h + LEN) < L
  {
  }

  lemma DataPosIsRing(L: nat, next: nat, rlen: nat, i: nat)
    requires next < L && rlen < L && i < rlen
    ensures DataPos(L, next, rlen, i) == Wrap(L, next + i) < L
  {
  }

  lemma NewHeadIsRing(L: nat, next: nat, rlen: nat)
    requires next < L && rlen < L
    ensures 0 <= NewHead(L, next, rlen) <= L
    ensures Norm(L, NewHead(L, next, rlen)) == Wrap(L, next + rlen)
  {
  }

  /** The space the producer computes from a loaded head is what is free, or less. */
  lemma FreeLenExact(s: State, q: seq<Msg>)
    requires RingOk(s, q) && s.tail < |s.buf|
    ensures FreeLen(|s.buf|, s.head, s.tail) == |s.buf| - |Stream(q)|
  {
  }

  lemma ProduceIdle(s: State, q: seq<Msg>, m: Msg)
    requires Inv(s, q) && s.p.PIdle?
    ensures StepOk(s, q, Produce(m))
  {
    if |s.buf| > 0 {
      FreeLenExact(s, q);
    }
  }

  lemma ProduceHead(s: State, q: seq<Msg>, m: Msg)
    requires Inv(s, q) && s.p.PHead?
    ensures StepOk(s, q, Produce(m))
  {
  }

  lemma ProduceByte(s: State, q: seq<Msg>, m: Msg)
    requires Inv(s, q) && s.p.PCopy? && s.p.k < |s.p.m| + LEN
    ensures StepOk(s, q, Produce(m))
  {
    hide RingHas;
    var PCopy(w, t, k) := s.p;
    var L, n := |s.buf|, |Stream(q)|;
    WritePosIsRing(L, t, |w|, k);
    RingWriteBehind(s.buf, Norm(L, s.head), Stream(q), n + k, Frame(w)[k]);
    RingWriteNext(s.buf, t, Frame(w)[..k], Frame(w)[k]);
    assert Frame(w)[..k] + [Frame(w)[k]] == Frame(w)[..k + 1];
  }

  lemma ProduceStore(s: State, q: seq<Msg>, m: Msg)
    requires Inv(s, q) && s.p.PCopy? && s.p.k >= |s.p.m| + LEN
    ensures StepOk(s, q, Produce(m))
  {
    hide RingHas, Le32, NewTail, Stream;
    var PCopy(w, t, k) := s.p;
    NewTailIsRing(|s.buf|, t, |w|);
    StreamAppend(q, w);
    assert Frame(w)[..k] == Frame(w);
    RingJoin(s.buf, Norm(|s.buf|, s.head), Stream(q), Frame(w));
  }

  lemma ProduceEnd(s: State, q: seq<Msg>, m: Msg)
    requires Inv(s, q) && (s.p.PStored? || s.p.PReset?)
    ensures StepOk(s, q, Produce(m))
  {
    hide RingHas;
  }

  lemma ConsumeIdle(s: State, q: seq<Msg>, size: nat)
    requires Inv(s, q) && s.c.CIdle?
    ensures StepOk(s, q, Consume(size))
  {
    hide RingHas;
  }

  /** Outside the hazard, the length the consumer computes is exactly what is in the ring. */
  lemma UsedLenExact(s: State, q: seq<Msg>)
    requires RingOk(s, q) && s.head < |s.buf| && !(s.head == 0 && s.tail == |s.buf|)
    ensures s.head == s.tail <==> q == []
    ensures s.head != s.tail ==> UsedLen(|s.buf|, s.head, s.tail) == |Stream(q)|
  {
  }

  lemma FrontLength(q: seq<Msg>)
    requires q != []
    ensures |Stream(q)| == LEN + |q[0]| + |Stream(q[1..])|
  {
  }

  lemma ConsumeHead(s: State, q: seq<Msg>, size: nat)
    requires Inv(s, q) && s.c.CHead? && !Hazard(s, Consume(size))
    ensures StepOk(s, q, Consume(size))
  {
    hide RingHas, Le32, Stream, UsedLen;
    if |s.buf| > 0 {
      UsedLenExact(s, q);
      if q != [] {
        FrontLength(q);
      }
    }
  }

  lemma ConsumeLengthByte(s: State, q: seq<Msg>, size: nat)
    requires Inv(s, q) && s.c.CLen? && |s.c.bs| < LEN
    ensures StepOk(s, q, Consume(size))
  {
    hide RingHas, Stream, Le32, FromLe32, LenPos, NextPos;
    var CLen(h, used, size', bs) := s.c;
    FrontLength(q);
    RingFront(s.buf, h, q);
    LenPosIsRing(|s.buf|, h, |bs|);
    var w := Le32(|q[0]|);
    RingCell(s.buf, h, w, |bs|);
    assert bs + [w[|bs|]] == w[..|bs| + 1];
  }

  lemma ConsumeLength(s: State, q: seq<Msg>, size: nat)
    requires Inv(s, q) && s.c.CLen? && |s.c.bs| >= LEN
    ensures StepOk(s, q, Consume(size))
  {
    hide RingHas, Stream, Le32, FromLe32, LenPos, NextPos;
    var CLen(h, used, size', bs) := s.c;
    FrontLength(q);
    LenPosIsRing(|s.buf|, h, 0);
    Le32Inverse(|q[0]|);
    assert bs[..LEN] == Le32(|q[0]|);
  }

  lemma ConsumeDataByte(s: State, q: seq<Msg>, size: nat)
    requires Inv(s, q) && s.c.CData? && |s.c.ds| < s.c.rlen
    ensures StepOk(s, q, Consume(size))
  {
    hide RingHas, Stream, Le32, DataPos;
    var CData(next, rlen, size', ds) := s.c;
    FrontLength(q);
    RingFront(s.buf, s.head, q);
    DataPosIsRing(|s.buf|, next, rlen, |ds|);
    RingCell(s.buf, next, q[0], |ds|);
    assert ds + [q[0][|ds|]] == q[0][..|ds| + 1];
  }

  lemma StoredRing(s: State, q: seq<Msg>, size: nat)
    requires Inv(s, q) && s.c.CData? && |s.c.ds| >= s.c.rlen
    ensures RingOk(Step(s, Consume(size)), q[1..])
  {
    hide RingHas, ProducerOk, Stream, Le32, NewHead;
    FrontLength(q);
    RingFront(s.buf, s.head, q);
    NewHeadIsRing(|s.buf|, s.c.next, s.c.rlen);
  }

  lemma StoredProducer(s: State, q: seq<Msg>, size: nat)
    requires Inv(s, q) && s.c.CData? && |s.c.ds| >= s.c.rlen
    ensures ProducerOk(Step(s, Consume(size)), q[1..])
  {
    FrontLength(q);
    hide RingHas, RingOk;
  }

  lemma ConsumeStore(s: State, q: seq<Msg>, size: nat)
    requires Inv(s, q) && s.c.CData? && |s.c.ds| >= s.c.rlen
    ensures StepOk(s, q, Consume(size))
  {
    StoredRing(s, q, size);
    StoredProducer(s, q, size);
    hide RingOk, ProducerOk;
    assert s.c.ds == q[0];
  }

  lemma ConsumeEnd(s: State, q: seq<Msg>, size: nat)
    requires Inv(s, q) && (s.c.CStored? || s.c.CReset?)
    ensures StepOk(s, q, Consume(size))
  {
    hide RingHas;
  }

  lemma StepKeeps(s: State, q: seq<Msg>, ch: Choice)
    requires Inv(s, q) && !Hazard(s, ch)
    ensures StepOk(s, q, ch)
  {
    hide StepOk, RingOk, RingHas;
    if ch.Produce? {
      match s.p
      case PIdle => ProduceIdle(s, q, ch.m);
      case PHead(w, h) => ProduceHead(s, q, ch.m);
      case PCopy(w, t, k) =>
        if k < |w| + LEN {
          ProduceByte(s, q, ch.m);
        } else {
          ProduceStore(s, q, ch.m);
        }
      case _ => ProduceEnd(s, q, ch.m);
    } else {
      match s.c
      case CIdle => ConsumeIdle(s, q, ch.size);
      case CHead(h, z) => ConsumeHead(s, q, ch.size);
      case CLen(h, used, z, bs) =>
        if |bs| < LEN {
          ConsumeLengthByte(s, q, ch.size);
        } else {
          ConsumeLength(s, q, ch.size);
        }
      case CData(next, rlen, z, ds) =>
        if |ds| < rlen {
          ConsumeDataByte(s, q, ch.size);
        } else {
          ConsumeStore(s, q, ch.size);
        }
      case CStored(ds, z) => ConsumeEnd(s, q, ch.size);
      case CReset(ds, z) => ConsumeEnd(s, q, ch.size);
    }
  }

  // ---------------------------------------------------------------- whole runs

  lemma SnocEvents(es: seq<Event>, e: Event)
    ensures (es + [e])[..|es|] == es && (es + [e])[|es|] == e
  {
  }

  lemma SideAppend(es: seq<Event>, more: seq<Event>, producer: bool)
    requires |more| <= 1
    ensures Side(es + more, producer) ==
            Side(es, producer) + if more != [] && OfProducer(more[0]) == producer then more else []
  {
    if more == [] {
      assert es + more == es;
    } else {
      SnocEvents(es, more[0]);
      assert es + more == es + [more[0]];
    }
  }

  lemma QueuedAppend(L: nat, es: seq<Event>, more: seq<Event>)
    requires |more| <= 1 && Legal(L, es) && (more != [] ==> Allowed(L, Queued(es), more[0]))
    ensures Legal(L, es + more)
    ensures Queued(es + more) == if more == [] then Queued(es) else After(Queued(es), more[0])
  {
    if more == [] {
      assert es + more == es;
    } else {
      SnocEvents(es, more[0]);
      assert es + more == es + [more[0]];
    }
  }

  lemma ProducerAnswers(s: State, m: Msg)
    ensures var s', es := ProducerStep(s, m), Effect(s, Produce(m));
            && |es| <= 1 && (es != [] ==> OfProducer(es[0]))
            && s'.pret + PendingP(s') == s.pret + PendingP(s) + es && s'.cret == s.cret && s'.c == s.c
  {
    hide FreeLen, WritePos, NewTail, StoreAt, Frame;
  }

  lemma ConsumerAnswers(s: State, size: nat)
    ensures var s', es := ConsumerStep(s, size), Effect(s, Consume(size));
            && |es| <= 1 && (es != [] ==> !OfProducer(es[0]))
            && s'.cret + PendingC(s') == s.cret + PendingC(s) + es && s'.pret == s.pret && s'.p == s.p
  {
    hide UsedLen, LenPos, NextPos, DataPos, NewHead, Load, FromLe32;
  }

  /** What one step returns or leaves pending is what it makes take effect. */
  lemma AnswerStep(s: State, ch: Choice)
    ensures var s', es := Step(s, ch), Effect(s, ch);
            && |es| <= 1
            && s'.pret + PendingP(s') == s.pret + PendingP(s) + (if ch.Produce? then es else [])
            && s'.cret + PendingC(s') == s.cret + PendingC(s) + (if ch.Consume? then es else [])
            && (es != [] ==> (OfProducer(es[0]) <==> ch.Produce?))
  {
    hide FreeLen, UsedLen, WritePos, NewTail, LenPos, NextPos, DataPos, NewHead, StoreAt, Load, Frame, FromLe32;
    match ch
    case Produce(m) => ProducerAnswers(s, m);
    case Consume(size) => ConsumerAnswers(s, size);
  }

  /** In every run, safe or not, each side gets the answers of its own calls, in the order in
      which they take effect, with at most the last one still to come. */
  lemma {:induction false} Answers(buf: Buffer, chs: seq<Choice>)
    ensures var s, es := Run(Init(buf), chs), Effects(Init(buf), chs);
            && Side(es, true) == s.pret + PendingP(s)
            && Side(es, false) == s.cret + PendingC(s)
    decreases |chs|
  {
    hide Step, Effect, Side, PendingP, PendingC;
    if chs == [] {
      AnswersNone(buf);
    } else {
      var init, ch := chs[..|chs| - 1], chs[|chs| - 1];
      Answers(buf, init);
      var s, es := Run(Init(buf), init), Effects(Init(buf), init);
      AnswerStep(s, ch);
      SideAppend(es, Effect(s, ch), true);
      SideAppend(es, Effect(s, ch), false);
    }
  }

  lemma AnswersNone(buf: Buffer)
    ensures Side([], true) == [] + PendingP(Init(buf)) && Side([], false) == [] + PendingC(Init(buf))
  {
  }

  /** Every interleaving that avoids the hazard is linearizable to the sequential queue: the calls,
      in the order in which they take effect, are answered as the sequential queue answers them, and
      each side gets the answers of its own calls in order, with at most the last one still to come. */
  lemma {:induction false} Linearizable(buf: Buffer, chs: seq<Choice>)
    requires Safe(Init(buf), chs)
    ensures var s, es := Run(Init(buf), chs), Effects(Init(buf), chs);
            && |s.buf| == |buf|
            && Legal(|buf|, es)
            && Inv(s, Queued(es))
            && Side(es, true) == s.pret + PendingP(s)
            && Side(es, false) == s.cret + PendingC(s)
    decreases |chs|
  {
    var s0 := Init(buf);
    Answers(buf, chs);
    if chs == [] {
      assert RingHas(buf, 0, []);
    } else {
      var init, ch := chs[..|chs| - 1], chs[|chs| - 1];
      Linearizable(buf, init);
      var s, es := Run(s0, init), Effects(s0, init);
      StepKeeps(s, Queued(es), ch);
      QueuedAppend(|buf|, es, Effect(s, ch));
    }
  }

  /** In such a run the assertion on the length never fails. */
  lemma NeverAborts(buf: Buffer, chs: seq<Choice>)
    requires Safe(Init(buf), chs)
    ensures !Run(Init(buf), chs).c.CAbort?
  {
    Linearizable(buf, chs);
  }

  function Pushed(es: seq<Event>): seq<seq<Byte>>
    decreases |es|
  {
    if es == [] then []
    else
      var e := es[|es| - 1];
      Pushed(es[..|es| - 1]) + if e.EvPush? then [e.m] else []
  }

  function Popped(es: seq<Event>): seq<seq<Byte>>
    decreases |es|
  {
    if es == [] then []
    else
      var e := es[|es| - 1];
      Popped(es[..|es| - 1]) + if e.EvPop? then [e.data] else []
  }

  /** What was pushed is what was popped followed by what is queued. */
  lemma {:induction false} Conserved(L: nat, es: seq<Event>)
    requires Legal(L, es)
    ensures Pushed(es) == Popped(es) + Queued(es)
    decreases |es|
  {
    if es != [] {
      var init, e := es[..|es| - 1], es[|es| - 1];
      Conserved(L, init);
      var q := Queued(init);
      if e.EvPop? {
        assert q == [q[0]] + q[1..];
      }
    }
  }

  /** First in, first out: in every such run the messages delivered are the first messages sent. */
  lemma Fifo(buf: Buffer, chs: seq<Choice>)
    requires Safe(Init(buf), chs)
    ensures var es := Effects(Init(buf), chs); Popped(es) <= Pushed(es)
  {
    Linearizable(buf, chs);
    Conserved(|buf|, Effects(Init(buf), chs));
  }

  // ---------------------------------------------------------------- snapshots and cells

  /** Loads out of date are conservative: in every such run the producer never computes more space than
      there is, and the consumer never more content. */
  lemma StaleIsConservative(buf: Buffer, chs: seq<Choice>)
    requires Safe(Init(buf), chs)
    ensures var s, q := Run(Init(buf), chs), Queued(Effects(Init(buf), chs));
            && (s.p.PHead? ==> FreeLen(|buf|, s.p.h, s.tail) <= |buf| - |Stream(q)|)
            && (s.c.CLen? ==> s.c.used <= |Stream(q)|)
  {
    Linearizable(buf, chs);
  }

  lemma CellsApart(s: State, q: seq<Msg>)
    requires Inv(s, q) && s.p.PCopy? && s.p.k < |s.p.m| + LEN
    ensures var L := |s.buf|;
            var w := WritePos(L, s.p.t, |s.p.m|, s.p.k);
            && 0 <= w < L
            && (s.c.CLen? && |s.c.bs| < LEN ==> 0 <= LenPos(L, s.c.h, |s.c.bs|) < L && LenPos(L, s.c.h, |s.c.bs|) != w)
            && (s.c.CData? && |s.c.ds| < s.c.rlen ==>
                  && 0 <= DataPos(L, s.c.next, s.c.rlen, |s.c.ds|) < L
                  && DataPos(L, s.c.next, s.c.rlen, |s.c.ds|) != w)
  {
    hide RingHas, Stream, Le32, Frame, WritePos, LenPos, DataPos, NextPos;
    var L := |s.buf|;
    WritePosIsRing(L, s.p.t, |s.p.m|, s.p.k);
    if s.c.CLen? && |s.c.bs| < LEN {
      FrontLength(q);
      LenPosIsRing(L, s.c.h, |s.c.bs|);
    }
    if s.c.CData? && |s.c.ds| < s.c.rlen {
      FrontLength(q);
      DataPosIsRing(L, s.c.next, s.c.rlen, |s.c.ds|);
    }
  }

  /** In every such run the cell the producer is about to write is in the buffer, and so is the cell the
      consumer is about to read, which is another one. */
  lemma NoSharedCell(buf: Buffer, chs: seq<Choice>)
    requires Safe(Init(buf), chs)
    ensures var L, s := |buf|, Run(Init(buf), chs);
            s.p.PCopy? && s.p.k < |s.p.m| + LEN ==>
              var w := WritePos(L, s.p.t, |s.p.m|, s.p.k);
              && 0 <= w < L
              && (s.c.CLen? && |s.c.bs| < LEN ==>
                    0 <= LenPos(L, s.c.h, |s.c.bs|) < L && LenPos(L, s.c.h, |s.c.bs|) != w)
              && (s.c.CData? && |s.c.ds| < s.c.rlen ==>
                    && 0 <= DataPos(L, s.c.next, s.c.rlen, |s.c.ds|) < L
                    && DataPos(L, s.c.next, s.c.rlen, |s.c.ds|) != w)
  {
    Linearizable(buf, chs);
    hide Run, Effects, Safe, Queued, Inv, WritePos, LenPos, DataPos;
    var s := Run(Init(buf), chs);
    if s.p.PCopy? && s.p.k < |s.p.m| + LEN {
      CellsApart(s, Queued(Effects(Init(buf), chs)));
    }
  }
}

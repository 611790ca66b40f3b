/** Every call on the queue returns. */
module NetQueueReturns {
  import opened Bytes
  import opened NetQueueModel
  import opened NetQueueSteps
  import opened NetQueueHazard

  lemma {:induction false} AgainFront(s: State, ch: Choice, n: nat)
    ensures Again(s, ch, n + 1) == Again(Step(s, ch), ch, n)
  {
    hide Step;
    if n > 0 {
      AgainFront(s, ch, n - 1);
    } else {
      assert Again(s, ch, 1) == Step(Again(s, ch, 0), ch);
    }
  }

  // ---------------------------------------------------------------- the producer

  /** Steps a call under way takes at most. */
  function PushLeft(p: Producer): nat {
    match p
    case PIdle => 0
    case PHead(m, _) => |m| + LEN + 4
    case PCopy(m, _, k) => (if k <= |m| + LEN then |m| + LEN - k else 0) + 3
    case PStored(_) => 2
    case PReset(_) => 1
  }

  lemma PushStep(s: State, m: Msg)
    requires !s.p.PIdle?
    ensures var t := Step(s, Produce(m));
            || (t.p.PIdle? && |t.pret| == |s.pret| + 1)
            || (!t.p.PIdle? && t.pret == s.pret && PushLeft(t.p) < PushLeft(s.p))
  {
    hide FreeLen, WritePos, NewTail, StoreAt, Frame;
  }

  lemma {:induction false} PushFinishes(s: State, m: Msg) returns (n: nat)
    requires !s.p.PIdle?
    ensures n <= PushLeft(s.p)
    ensures var t := Again(s, Produce(m), n); t.p.PIdle? && |t.pret| == |s.pret| + 1
    decreases PushLeft(s.p)
  {
    hide Step, PushLeft;
    PushStep(s, m);
    PushLeftSome(s.p);
    var t := Step(s, Produce(m));
    var k := 0;
    if !t.p.PIdle? {
      k := PushFinishes(t, m);
    } else {
      assert Again(t, Produce(m), 0) == t;
    }
    AgainFront(s, Produce(m), k);
    n := k + 1;
  }

  lemma PushLeftSome(p: Producer)
    requires !p.PIdle?
    ensures PushLeft(p) > 0
  {
  }

  lemma PushStart(s: State, m: Msg)
    requires s.p.PIdle?
    ensures var t := Step(s, Produce(m)); !t.p.PIdle? && t.pret == s.pret && PushLeft(t.p) == |m| + LEN + 4
  {
  }

  /** In every state, a push started on its own returns after at most |m| + 9 steps of the producer. */
  lemma PushReturns(s: State, m: Msg) returns (n: nat)
    requires s.p.PIdle?
    ensures n <= |m| + LEN + 5
    ensures var t := Run(s, seq(n, _ => Produce(m))); t.p.PIdle? && |t.pret| == |s.pret| + 1
  {
    hide Step, Run, PushLeft;
    var t := Step(s, Produce(m));
    PushStart(s, m);
    var k := PushFinishes(t, m);
    AgainFront(s, Produce(m), k);
    n := k + 1;
    RunAgain(s, [], Produce(m), n);
    RunNone(s);
    assert [] + seq(n, _ => Produce(m)) == seq(n, _ => Produce(m));
  }

  // ---------------------------------------------------------------- the consumer

  function PopLeft(c: Consumer): nat {
    match c
    case CIdle => 0
    case CHead(_, size) => size + LEN + 6
    case CLen(_, _, size, bs) => (if |bs| <= LEN then LEN - |bs| else 0) + size + 5
    case CData(_, rlen, _, ds) => (if |ds| <= rlen then rlen - |ds| else 0) + 4
    case CStored(_, _) => 2
    case CReset(_, _) => 1
    case CAbort => 0
  }

  /** The consumer is about to take an empty ring for a full one. */
  predicate Endangered(s: State) {
    s.c.CHead? && s.c.h == 0 && s.tail == |s.buf| && |s.buf| > 0
  }

  lemma PopStep(s: State, q: seq<Msg>, size: nat) returns (q': seq<Msg>)
    requires Inv(s, q) && !s.c.CIdle? && !Endangered(s)
    ensures var t := Step(s, Consume(size));
            && Inv(t, q') && !Endangered(t)
            && (|| (t.c.CIdle? && |t.cret| == |s.cret| + 1)
                || (!t.c.CIdle? && t.cret == s.cret && PopLeft(t.c) < PopLeft(s.c)))
  {
    StepKeeps(s, q, Consume(size));
    q' := if Effect(s, Consume(size)) == [] then q else After(q, Effect(s, Consume(size))[0]);
    PopCloser(s, q, size);
  }

  lemma PopCloser(s: State, q: seq<Msg>, size: nat)
    requires Inv(s, q) && !s.c.CIdle? && StepOk(s, q, Consume(size))
    ensures var t := Step(s, Consume(size));
            && !t.c.CHead?
            && (|| (t.c.CIdle? && |t.cret| == |s.cret| + 1)
                || (!t.c.CIdle? && t.cret == s.cret && PopLeft(t.c) < PopLeft(s.c)))
  {
    hide RingHas, RingOk, ProducerOk, UsedLen, LenPos, NextPos, DataPos, NewHead, Load, FromLe32, Le32;
  }

  lemma {:induction false} PopFinishes(s: State, q: seq<Msg>, size: nat) returns (n: nat)
    requires Inv(s, q) && !s.c.CIdle? && !Endangered(s)
    ensures n <= PopLeft(s.c)
    ensures var t := Again(s, Consume(size), n); t.c.CIdle? && |t.cret| == |s.cret| + 1
    decreases PopLeft(s.c)
  {
    hide Step, PopLeft, Inv, Endangered;
    var q' := PopStep(s, q, size);
    PopLeftSome(s, q);
    var t := Step(s, Consume(size));
    var k := 0;
    if !t.c.CIdle? {
      k := PopFinishes(t, q', size);
    } else {
      assert Again(t, Consume(size), 0) == t;
    }
    AgainFront(s, Consume(size), k);
    n := k + 1;
  }

  lemma PopLeftSome(s: State, q: seq<Msg>)
    requires Inv(s, q) && !s.c.CIdle?
    ensures PopLeft(s.c) > 0
  {
  }

  lemma PopStart(s: State, q: seq<Msg>, size: nat)
    requires Inv(s, q) && s.c.CIdle? && !(s.head == 0 && s.tail == |s.buf| > 0)
    ensures var t := Step(s, Consume(size));
            && Inv(t, q) && !Endangered(t) && !t.c.CIdle? && t.cret == s.cret && PopLeft(t.c) == size + LEN + 6
  {
    hide RingHas;
    ConsumeIdle(s, q, size);
  }

  /** After every safe run, a pop started on its own returns after at most size + 11 steps of the consumer,
      unless m_tail is the buffer length at that moment with m_head at 0. */
  lemma PopReturns(buf: Buffer, chs: seq<Choice>, size: nat) returns (n: nat)
    requires Safe(Init(buf), chs)
    requires var s := Run(Init(buf), chs); s.c.CIdle? && !(s.head == 0 && s.tail == |s.buf| > 0)
    ensures n <= size + LEN + 7
    ensures var s, t := Run(Init(buf), chs), Run(Init(buf), chs + seq(n, _ => Consume(size)));
            t.c.CIdle? && |t.cret| == |s.cret| + 1
  {
    hide Init, Step, Inv, Endangered, Run, Safe, Effects, Queued, Legal, PopLeft;
    var s, q := Run(Init(buf), chs), Queued(Effects(Init(buf), chs));
    Linearizable(buf, chs);
    PopStart(s, q, size);
    var t := Step(s, Consume(size));
    var k := PopFinishes(t, q, size);
    AgainFront(s, Consume(size), k);
    n := k + 1;
    RunAgain(Init(buf), chs, Consume(size), n);
  }
}

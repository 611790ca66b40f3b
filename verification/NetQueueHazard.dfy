/** The one load that breaks the queue, and how it is reached. */
module NetQueueHazard {
  import opened Bytes
  import opened NetQueueModel
  import opened NetQueueSteps

  /** The guard is exact: from a consistent state, loading m_tail overestimates the content, and
      breaks the invariant, if and only if m_tail is the buffer length and m_head is 0. */
  lemma HazardExact(s: State, q: seq<Msg>, size: nat)
    requires Inv(s, q) && s.c.CHead?
    ensures StepOk(s, q, Consume(size)) <==> !Hazard(s, Consume(size))
    ensures Hazard(s, Consume(size)) <==>
            s.c.h != s.tail && UsedLen(|s.buf|, s.c.h, s.tail) > |Stream(q)|
    ensures Hazard(s, Consume(size)) ==> q == []
  {
    if Hazard(s, Consume(size)) {
      assert |Stream(q)| == 0;
    } else {
      ConsumeHead(s, q, size);
      if |s.buf| > 0 {
        UsedLenExact(s, q);
      }
    }
  }

  function Alone(n: nat, size: nat): (r: seq<Choice>)
    ensures |r| == n
  {
    seq(n, _ => Consume(size))
  }

  lemma AloneStep(s: State, n: nat, size: nat)
    ensures Run(s, Alone(n + 1, size)) == Step(Run(s, Alone(n, size)), Consume(size))
  {
    assert Alone(n + 1, size)[..n] == Alone(n, size);
  }

  /** The consumer failed the assertion, or is about to give an answer an empty queue never gives. */
  ghost predicate Wrong(s: State, size: nat) {
    s.c.CAbort? || exists e :: Effect(s, Consume(size)) == [e] && !Allowed(|s.buf|, [], e)
  }

  /** No call takes effect in the first n steps of the consumer alone. */
  ghost predicate Quiet(s: State, n: nat, size: nat) {
    forall j: nat {:trigger Alone(j, size)} :: j < n ==> Effect(Run(s, Alone(j, size)), Consume(size)) == []
  }

  lemma {:induction false} AloneReads(s: State, n: nat, size: nat, left: nat) returns (k: nat)
    requires var t := Run(s, Alone(n, size)); t.c.CData? && |t.c.ds| <= t.c.rlen && left == t.c.rlen - |t.c.ds|
    requires Quiet(s, n, size)
    ensures Wrong(Run(s, Alone(k, size)), size) && Quiet(s, k, size)
    decreases left
  {
    var t := Run(s, Alone(n, size));
    if left == 0 {
      k := n;
      assert Effect(t, Consume(size)) == [EvPop(t.c.ds, t.c.size)];
    } else {
      AloneStep(s, n, size);
      k := AloneReads(s, n + 1, size, left - 1);
    }
  }

  lemma {:induction false} AloneReadsLength(s: State, n: nat, size: nat, left: nat) returns (k: nat)
    requires var t := Run(s, Alone(n, size)); t.c.CLen? && |t.c.bs| <= LEN && left == LEN - |t.c.bs|
    requires Quiet(s, n, size)
    ensures Wrong(Run(s, Alone(k, size)), size) && Quiet(s, k, size)
    decreases left
  {
    AloneStep(s, n, size);
    if left > 0 {
      k := AloneReadsLength(s, n + 1, size, left - 1);
    } else {
      k := AloneReadsFrame(s, n, size);
    }
  }

  lemma AloneReadsFrame(s: State, n: nat, size: nat) returns (k: nat)
    requires var t := Run(s, Alone(n, size)); t.c.CLen? && |t.c.bs| == LEN
    requires Quiet(s, n, size)
    ensures Wrong(Run(s, Alone(k, size)), size) && Quiet(s, k, size)
  {
    hide Run;
    var t := Run(s, Alone(n, size));
    AloneStep(s, n, size);
    var t' := Run(s, Alone(n + 1, size));
    if t'.c.CIdle? {
      k := n;
      assert Effect(t, Consume(size)) == [EvBig(FromLe32(t.c.bs[..LEN]), t.c.size)];
    } else if t'.c.CAbort? {
      k := n + 1;
    } else {
      k := AloneReads(s, n + 1, size, t'.c.rlen);
    }
  }

  /** Every hazard does harm: if the consumer now runs on alone, it fails the assertion or hands
      out something although the queue is empty, and no call takes effect before. */
  lemma HazardBreaks(s: State, q: seq<Msg>, size: nat) returns (k: nat)
    requires Inv(s, q) && Hazard(s, Consume(size))
    ensures q == []
    ensures Wrong(Run(s, Alone(k, size)), size) && Quiet(s, k, size)
  {
    HazardExact(s, q, size);
    assert Run(s, Alone(0, size)) == s;
    if s.c.size < LEN {
      k := 0;
      assert Effect(s, Consume(size)) == [EvSmall(s.c.size)];
    } else {
      AloneStep(s, 0, size);
      k := AloneReadsLength(s, 1, size, LEN);
    }
  }

  // ---------------------------------------------------------------- runs that go wrong

  lemma RunSnoc(s: State, chs: seq<Choice>, ch: Choice)
    ensures Run(s, chs + [ch]) == Step(Run(s, chs), ch)
    ensures Effects(s, chs + [ch]) == Effects(s, chs) + Effect(Run(s, chs), ch)
  {
    hide Step, Effect;
    assert (chs + [ch])[..|chs|] == chs;
  }

  lemma RunNone(s: State)
    ensures Run(s, []) == s && Effects(s, []) == []
  {
  }

  lemma {:induction false} RunAppend(s: State, a: seq<Choice>, b: seq<Choice>)
    ensures Run(s, a + b) == Run(Run(s, a), b)
    ensures Effects(s, a + b) == Effects(s, a) + Effects(Run(s, a), b)
    decreases |b|
  {
    hide Step, Effect, Run, Effects;
    if b == [] {
      RunNone(Run(s, a));
      assert a + b == a && Effects(s, a) + [] == Effects(s, a);
    } else {
      var init, ch := b[..|b| - 1], b[|b| - 1];
      RunAppend(s, a, init);
      assert a + b == a + init + [ch] && b == init + [ch];
      RunSnoc(s, a + init, ch);
      RunSnoc(Run(s, a), init, ch);
    }
  }

  lemma {:induction false} LengthKept(s: State, chs: seq<Choice>)
    ensures |Run(s, chs).buf| == |s.buf|
    decreases |chs|
  {
    if chs != [] {
      LengthKept(s, chs[..|chs| - 1]);
    }
  }

  lemma {:induction false} QuietEffects(s: State, n: nat, size: nat)
    requires Quiet(s, n, size)
    ensures Effects(s, Alone(n, size)) == []
  {
    if n > 0 {
      QuietEffects(s, n - 1, size);
      assert Alone(n, size) == Alone(n - 1, size) + [Consume(size)];
      RunSnoc(s, Alone(n - 1, size), Consume(size));
    }
  }

  /** The assertion failed, or some call was answered as the sequential queue never answers. */
  ghost predicate Bad(buf: Buffer, chs: seq<Choice>) {
    Run(Init(buf), chs).c.CAbort? || !Legal(|buf|, Effects(Init(buf), chs))
  }

  lemma LegalSnoc(L: nat, es: seq<Event>, e: Event)
    requires Legal(L, es + [e])
    ensures Allowed(L, Queued(es), e)
  {
    assert (es + [e])[..|es|] == es;
  }

  /** A safe run that reaches the hazard goes wrong if the consumer runs on alone. */
  lemma HazardHarms(buf: Buffer, chs: seq<Choice>, size: nat) returns (n: nat)
    requires Safe(Init(buf), chs) && Hazard(Run(Init(buf), chs), Consume(size))
    ensures Bad(buf, chs + Alone(n, size))
  {
    hide Step, Run, Effect, Effects, Safe, Hazard, Legal, Inv, Queued, Allowed, Quiet, Alone, Init;
    var s0 := Init(buf);
    var s, es := Run(s0, chs), Effects(s0, chs);
    Linearizable(buf, chs);
    n := HazardBreaks(s, Queued(es), size);
    QuietEffects(s, n, size);
    RunAppend(s0, chs, Alone(n, size));
    assert es + [] == es;
    LengthKept(s, Alone(n, size));
    var t := Run(s, Alone(n, size));
    if !t.c.CAbort? {
      n := n + 1;
      HarmfulAnswer(buf, chs, n - 1, size);
    }
  }

  lemma HarmfulAnswer(buf: Buffer, chs: seq<Choice>, n: nat, size: nat)
    requires var t := Run(Init(buf), chs + Alone(n, size));
             |t.buf| == |buf| && exists e :: Effect(t, Consume(size)) == [e] && !Allowed(|t.buf|, [], e)
    requires Queued(Effects(Init(buf), chs + Alone(n, size))) == []
    ensures Bad(buf, chs + Alone(n + 1, size))
  {
    hide Step, Run, Effect, Effects, Legal, Queued, Allowed;
    var cs := chs + Alone(n, size);
    var t, es := Run(Init(buf), cs), Effects(Init(buf), cs);
    var e :| Effect(t, Consume(size)) == [e] && !Allowed(|t.buf|, [], e);
    RunSnoc(Init(buf), cs, Consume(size));
    assert chs + Alone(n + 1, size) == cs + [Consume(size)];
    if Legal(|buf|, es + [e]) {
      LegalSnoc(|buf|, es, e);
    }
  }

  /** The store that makes m_tail the buffer length: the frame ends flush with the buffer. */
  predicate Flush(s: State, ch: Choice) {
    ch.Produce? && s.p.PCopy? && s.p.k >= |s.p.m| + LEN && s.p.t + |s.p.m| + LEN == |s.buf|
  }

  ghost predicate NeverFlush(s: State, chs: seq<Choice>)
    decreases |chs|
  {
    chs == [] || (NeverFlush(s, chs[..|chs| - 1]) && !Flush(Run(s, chs[..|chs| - 1]), chs[|chs| - 1]))
  }

  /** Runs in which no frame ends flush with the buffer are safe. */
  lemma {:induction false} NeverFlushSafe(buf: Buffer, chs: seq<Choice>)
    requires NeverFlush(Init(buf), chs) && |buf| > 0
    ensures Safe(Init(buf), chs)
    ensures Run(Init(buf), chs).tail < |buf|
    decreases |chs|
  {
    if chs != [] {
      var init, ch := chs[..|chs| - 1], chs[|chs| - 1];
      NeverFlushSafe(buf, init);
      Linearizable(buf, init);
      TailBelow(Run(Init(buf), init), Queued(Effects(Init(buf), init)), ch);
    }
  }

  /** Only a flush takes m_tail to the buffer length. */
  lemma TailBelow(s: State, q: seq<Msg>, ch: Choice)
    requires Inv(s, q) && s.tail < |s.buf| && !Flush(s, ch)
    ensures Step(s, ch).tail < |s.buf|
  {
    hide RingHas, ConsumerOk;
    if s.p.PCopy? && ch.Produce? {
      NewTailIsRing(|s.buf|, s.p.t, |s.p.m|);
    }
  }

  /** A consumer that has room for every frame queued. */
  ghost predicate Roomy(q: seq<Msg>, size: nat) {
    size >= LEN && forall i :: 0 <= i < |q| ==> |q[i]| + LEN <= size
  }

  /** A call under way that was started with another size. */
  function Foreign(c: Consumer, size: nat): nat {
    match c
    case CHead(_, z) => if z == size then 0 else 1
    case CLen(_, _, z, _) => if z == size then 0 else 1
    case CData(_, _, z, _) => if z == size then 0 else 1
    case CStored(_, z) => if z == size then 0 else 1
    case CReset(_, z) => if z == size then 0 else 1
    case _ => 0
  }

  /** The steps of a call that are still to come; after a message left, those until the next call count, too. */
  function Phase(c: Consumer): nat {
    match c
    case CStored(_, _) => 5
    case CReset(_, _) => 4
    case CIdle => 3
    case CHead(_, _) => 2
    case CLen(_, _, _, _) => 1
    case _ => 0
  }

  function ToRead(c: Consumer): nat {
    match c
    case CLen(_, _, _, bs) => if |bs| <= LEN then LEN - |bs| else 0
    case CData(_, rlen, _, ds) => if |ds| <= rlen then rlen - |ds| else 0
    case _ => 0
  }

  /** Of the measure queue length, foreign call, phase and bytes to read, the first part that changes falls. */
  predicate Closer(n: nat, c: Consumer, n': nat, c': Consumer, size: nat) {
    || n' < n
    || (n' == n && Foreign(c', size) < Foreign(c, size))
    || (n' == n && Foreign(c', size) == Foreign(c, size) && Phase(c') < Phase(c))
    || (n' == n && Foreign(c', size) == Foreign(c, size) && Phase(c') == Phase(c) && ToRead(c') < ToRead(c))
  }

  /** One step of the consumer, outside the hazard and with m_tail at the buffer length: the queue shrinks,
      or the call goes on. */
  lemma ConsumerAdvances(s: State, q: seq<Msg>, size: nat)
    requires Inv(s, q) && |s.buf| == s.tail > 0 && Roomy(q, size) && !Hazard(s, Consume(size))
    ensures var s', es := Step(s, Consume(size)), Effect(s, Consume(size));
            var q' := if es == [] then q else After(q, es[0]);
            s'.tail == s.tail && Roomy(q', size) && Closer(|q|, s.c, |q'|, s'.c, size)
  {
    hide RingHas, ProducerOk;
    if s.c.CHead? {
      UsedLenExact(s, q);
    }
  }

  lemma SafeSnoc(s: State, chs: seq<Choice>, ch: Choice)
    requires Safe(s, chs) && !Hazard(Run(s, chs), ch)
    ensures Safe(s, chs + [ch])
  {
    hide Run, Hazard;
    assert (chs + [ch])[..|chs|] == chs;
  }

  lemma NeverFlushSnoc(s: State, chs: seq<Choice>, ch: Choice)
    requires NeverFlush(s, chs) && !Flush(Run(s, chs), ch)
    ensures NeverFlush(s, chs + [ch])
  {
    hide Run, Flush;
    assert (chs + [ch])[..|chs|] == chs;
  }

  lemma RunAdvances(buf: Buffer, chs: seq<Choice>, size: nat)
    requires Safe(Init(buf), chs) && !Hazard(Run(Init(buf), chs), Consume(size))
    requires Run(Init(buf), chs).tail == |buf| > 0 && Roomy(Queued(Effects(Init(buf), chs)), size)
    ensures var cs := chs + [Consume(size)];
            var q, q' := Queued(Effects(Init(buf), chs)), Queued(Effects(Init(buf), cs));
            && Safe(Init(buf), cs) && Run(Init(buf), cs).tail == |buf| && Roomy(q', size)
            && Closer(|q|, Run(Init(buf), chs).c, |q'|, Run(Init(buf), cs).c, size)
  {
    hide Init, Step, Run, Effect, Effects, Safe, Hazard, Legal, Inv, Queued, Roomy, Closer;
    var s0, ch := Init(buf), Consume(size);
    var s, es := Run(s0, chs), Effects(s0, chs);
    Linearizable(buf, chs);
    SafeSnoc(s0, chs, ch);
    RunSnoc(s0, chs, ch);
    AnswerStep(s, ch);
    StepKeeps(s, Queued(es), ch);
    EffectLegal(s, Queued(es), ch);
    QueuedAppend(|buf|, es, Effect(s, ch));
    ConsumerAdvances(s, Queued(es), size);
  }

  /** A safe run that has m_tail at the buffer length goes wrong if the consumer, with room for every frame
      queued, runs on alone. */
  lemma {:induction false} FlushBreaks(buf: Buffer, chs: seq<Choice>, size: nat) returns (n: nat)
    requires Safe(Init(buf), chs) && Run(Init(buf), chs).tail == |buf| > 0
    requires Roomy(Queued(Effects(Init(buf), chs)), size)
    ensures Bad(buf, chs + Alone(n, size))
    decreases |Queued(Effects(Init(buf), chs))|, Foreign(Run(Init(buf), chs).c, size),
              Phase(Run(Init(buf), chs).c), ToRead(Run(Init(buf), chs).c)
  {
    hide Init, Run, Effects, Safe, Hazard, Queued, Roomy, Alone, Bad, Foreign, Phase, ToRead;
    if Hazard(Run(Init(buf), chs), Consume(size)) {
      n := HazardHarms(buf, chs, size);
    } else {
      RunAdvances(buf, chs, size);
      n := FlushBreaks(buf, chs + [Consume(size)], size);
      AloneNext(chs, n, size);
      n := n + 1;
    }
  }

  lemma EffectLegal(s: State, q: seq<Msg>, ch: Choice)
    requires StepOk(s, q, ch)
    ensures var es := Effect(s, ch); |es| <= 1 && (es != [] ==> Allowed(|s.buf|, q, es[0]))
  {
    hide Inv;
  }

  lemma AloneNext(chs: seq<Choice>, n: nat, size: nat)
    ensures chs + [Consume(size)] + Alone(n, size) == chs + Alone(n + 1, size)
  {
  }

  lemma FlushTail(s: State, q: seq<Msg>, ch: Choice)
    requires Inv(s, q) && Flush(s, ch)
    ensures Step(s, ch).tail == |s.buf| > 0
  {
  }

  lemma {:induction false} RoomySize(q: seq<Msg>)
    ensures Roomy(q, LEN + |Stream(q)|)
  {
    if q != [] {
      RoomySize(q[1..]);
      FrontLength(q);
      forall i | 0 <= i < |q|
        ensures |q[i]| + LEN <= LEN + |Stream(q)|
      {
        if i > 0 {
          assert q[i] == q[1..][i - 1];
        }
      }
    }
  }

  lemma {:induction false} AloneNeverFlushes(s: State, chs: seq<Choice>, n: nat, size: nat)
    requires NeverFlush(s, chs)
    ensures NeverFlush(s, chs + Alone(n, size))
  {
    hide NeverFlush, Run;
    if n == 0 {
      assert chs + Alone(0, size) == chs;
    } else {
      AloneNeverFlushes(s, chs, n - 1, size);
      NeverFlushSnoc(s, chs + Alone(n - 1, size), Consume(size));
      assert chs + Alone(n, size) == chs + Alone(n - 1, size) + [Consume(size)];
    }
  }

  /** The condition on frames is exact. After a run in which no frame ended flush with the buffer, a step
      makes one end there if and only if the consumer, running on alone after it, can be made to fail the
      assertion or to give an answer the sequential queue never gives. */
  lemma FlushExact(buf: Buffer, chs: seq<Choice>, ch: Choice)
    requires NeverFlush(Init(buf), chs) && |buf| > 0
    ensures Flush(Run(Init(buf), chs), ch) <==> exists n: nat, size: nat :: Bad(buf, chs + [ch] + Alone(n, size))
  {
    hide Init, Step, Run, Effects, Safe, Legal, Inv, Queued, Roomy, NeverFlush, Alone;
    var s0 := Init(buf);
    NeverFlushSafe(buf, chs);
    var s := Run(s0, chs);
    if Flush(s, ch) {
      Linearizable(buf, chs);
      FlushTail(s, Queued(Effects(s0, chs)), ch);
      SafeSnoc(s0, chs, ch);
      RunSnoc(s0, chs, ch);
      var q := Queued(Effects(s0, chs + [ch]));
      RoomySize(q);
      var n := FlushBreaks(buf, chs + [ch], LEN + |Stream(q)|);
    } else {
      NeverFlushSnoc(s0, chs, ch);
      forall n: nat, size: nat
        ensures !Bad(buf, chs + [ch] + Alone(n, size))
      {
        AloneNeverFlushes(s0, chs + [ch], n, size);
        NeverFlushSafe(buf, chs + [ch] + Alone(n, size));
        Linearizable(buf, chs + [ch] + Alone(n, size));
        NeverAborts(buf, chs + [ch] + Alone(n, size));
      }
    }
  }

  // ---------------------------------------------------------------- a run into the hazard

  /** n more steps of one side. */
  function Again(s: State, ch: Choice, n: nat): State {
    if n == 0 then s else Step(Again(s, ch, n - 1), ch)
  }

  lemma {:induction false} RunAgain(s: State, chs: seq<Choice>, ch: Choice, n: nat)
    ensures Run(s, chs + seq(n, _ => ch)) == Again(Run(s, chs), ch, n)
  {
    hide Step, Run;
    var r := seq(n, _ => ch);
    if n == 0 {
      assert chs + r == chs;
    } else {
      var r' := seq(n - 1, _ => ch);
      RunAgain(s, chs, ch, n - 1);
      RunSnoc(s, chs + r', ch);
      assert chs + r == chs + r' + [ch];
    }
  }

  const ZEROS: Buffer := [0, 0, 0, 0, 0, 0, 0, 0]
  const EMPTY: Msg := []

  /** A whole push of an empty message into an empty ring of 8 bytes. */
  lemma RunPush(pr: seq<Event>, cr: seq<Event>)
    ensures Again(State(ZEROS, 0, 0, PIdle, CIdle, pr, cr), Produce(EMPTY), 8) ==
            State(ZEROS, 0, 4, PIdle, CIdle, pr + [EvPush(EMPTY)], cr)
  {
    var s, ch := State(ZEROS, 0, 0, PIdle, CIdle, pr, cr), Produce(EMPTY);
    assert Again(s, ch, 1) == s.(p := PHead(EMPTY, 0));
    assert Again(s, ch, 2) == s.(p := PCopy(EMPTY, 0, 0));
    assert Frame(EMPTY) == [0, 0, 0, 0];
    assert Again(s, ch, 3) == s.(p := PCopy(EMPTY, 0, 1));
    assert Again(s, ch, 4) == s.(p := PCopy(EMPTY, 0, 2));
    assert Again(s, ch, 5) == s.(p := PCopy(EMPTY, 0, 3));
    assert Again(s, ch, 6) == s.(p := PCopy(EMPTY, 0, 4));
    assert Again(s, ch, 7) == s.(p := PStored(EMPTY), tail := 4);
  }

  /** A push that ends flush with the buffer, stopped between its two stores of m_tail. */
  lemma RunHalfPush(pr: seq<Event>, cr: seq<Event>)
    ensures Again(State(ZEROS, 4, 4, PIdle, CIdle, pr, cr), Produce(EMPTY), 7) ==
            State(ZEROS, 4, 8, PStored(EMPTY), CIdle, pr, cr)
  {
    var s, ch := State(ZEROS, 4, 4, PIdle, CIdle, pr, cr), Produce(EMPTY);
    assert Again(s, ch, 1) == s.(p := PHead(EMPTY, 4));
    assert Again(s, ch, 2) == s.(p := PCopy(EMPTY, 4, 0));
    assert Frame(EMPTY) == [0, 0, 0, 0];
    assert Again(s, ch, 3) == s.(p := PCopy(EMPTY, 4, 1));
    assert Again(s, ch, 4) == s.(p := PCopy(EMPTY, 4, 2));
    assert Again(s, ch, 5) == s.(p := PCopy(EMPTY, 4, 3));
    assert Again(s, ch, 6) == s.(p := PCopy(EMPTY, 4, 4));
  }

  /** The first six steps of a pop that finds four zero bytes at head (0 or 4): the length is read. */
  lemma RunPopLength(h: nat, t: nat, p: Producer, pr: seq<Event>, cr: seq<Event>)
    requires (h == 0 || h == 4) && h + 4 <= t <= 8
    ensures var s := State(ZEROS, h, t, p, CIdle, pr, cr);
            Again(s, Consume(4), 6) == s.(c := CLen(h, Nat(UsedLen(8, h, t)), 4, [0, 0, 0, 0]))
  {
    var s, ch := State(ZEROS, h, t, p, CIdle, pr, cr), Consume(4);
    var u := Nat(UsedLen(8, h, t));
    var w: seq<Byte> := [0, 0, 0, 0];
    assert forall i :: 0 <= i < 4 ==> Load(ZEROS, LenPos(8, h, i)) == 0;
    assert Again(s, ch, 1) == s.(c := CHead(h, 4));
    assert Again(s, ch, 2) == s.(c := CLen(h, u, 4, w[..0]));
    assert w[..0] + [0] == w[..1] && w[..1] + [0] == w[..2] && w[..2] + [0] == w[..3] && w[..3] + [0] == w[..4];
    assert Again(s, ch, 3) == s.(c := CLen(h, u, 4, w[..1]));
    assert Again(s, ch, 4) == s.(c := CLen(h, u, 4, w[..2]));
    assert Again(s, ch, 5) == s.(c := CLen(h, u, 4, w[..3]));
    assert Again(s, ch, 6) == s.(c := CLen(h, u, 4, w[..4]));
    assert w[..4] == w;
  }

  /** The whole of it. */
  lemma RunPop(h: nat, t: nat, p: Producer, pr: seq<Event>, cr: seq<Event>)
    requires (h == 0 || h == 4) && h + 4 <= t <= 8
    ensures Again(State(ZEROS, h, t, p, CIdle, pr, cr), Consume(4), 9) ==
            State(ZEROS, if h == 0 then 4 else 0, t, p, CIdle, pr, cr + [EvPop([], 4)])
  {
    var s, ch := State(ZEROS, h, t, p, CIdle, pr, cr), Consume(4);
    var w: seq<Byte> := [0, 0, 0, 0];
    RunPopLength(h, t, p, pr, cr);
    assert w[..LEN] == w && FromLe32(w) == 0;
    assert Again(s, ch, 7) == s.(c := CData(Nat(NextPos(8, h)), 0, 4, []));
    assert Again(s, ch, 8) == s.(c := CStored([], 4), head := if h == 0 then 4 else 0);
  }

  /** Pushes are the producer's and pops the consumer's. */
  lemma {:induction false} SidesCount(es: seq<Event>)
    ensures Pushed(es) == Pushed(Side(es, true)) && Popped(es) == Popped(Side(es, false))
    decreases |es|
  {
    if es != [] {
      var init, e := es[..|es| - 1], es[|es| - 1];
      SidesCount(init);
      SnocEvents(Side(init, true), e);
      SnocEvents(Side(init, false), e);
      assert Side(init, true) + [] == Side(init, true) && Side(init, false) + [] == Side(init, false);
    }
  }

  /** One full push and pop, half a push that ends flush with the buffer, and two more pops. */
  lemma HazardRunState() returns (chs: seq<Choice>)
    ensures var e := EvPop([], 4);
            Run(Init(ZEROS), chs) == State(ZEROS, 4, 8, PStored(EMPTY), CIdle, [EvPush(EMPTY)], [e, e, e])
  {
    hide Step;
    var s0, push, pop := Init(ZEROS), seq(8, _ => Produce(EMPTY)), seq(9, _ => Consume(4));
    var half := seq(7, _ => Produce(EMPTY));
    var e := EvPop([], 4);
    RunPush([], []);
    RunAgain(s0, [], Produce(EMPTY), 8);
    var c1 := [] + push;
    RunPop(0, 4, PIdle, [] + [EvPush(EMPTY)], []);
    RunAgain(s0, c1, Consume(4), 9);
    var c2 := c1 + pop;
    RunHalfPush([] + [EvPush(EMPTY)], [] + [e]);
    RunAgain(s0, c2, Produce(EMPTY), 7);
    var c3 := c2 + half;
    RunPop(4, 8, PStored(EMPTY), [] + [EvPush(EMPTY)], [] + [e]);
    RunAgain(s0, c3, Consume(4), 9);
    var c4 := c3 + pop;
    RunPop(0, 8, PStored(EMPTY), [] + [EvPush(EMPTY)], [] + [e] + [e]);
    RunAgain(s0, c4, Consume(4), 9);
    chs := c4 + pop;
    assert [] + [e] + [e] + [e] == [e, e, e] && [] + [EvPush(EMPTY)] == [EvPush(EMPTY)];
  }

  lemma PushedSnoc(es: seq<Event>, e: Event)
    ensures Pushed(es + [e]) == Pushed(es) + if e.EvPush? then [e.m] else []
    ensures Popped(es + [e]) == Popped(es) + if e.EvPop? then [e.data] else []
  {
    SnocEvents(es, e);
  }

  /** The hazard is reachable, and a run through it is not linearizable: on a ring of 8 bytes the
      consumer receives three messages when only two pushes have taken effect. */
  lemma HazardRun() returns (chs: seq<Choice>)
    ensures var es := Effects(Init(ZEROS), chs);
            |Pushed(es)| == 2 && |Popped(es)| == 3 && !Legal(8, es)
    ensures Run(Init(ZEROS), chs).cret == [EvPop([], 4), EvPop([], 4), EvPop([], 4)]
    ensures !Safe(Init(ZEROS), chs)
  {
    hide Run, Effects, Side, Legal, Safe;
    chs := HazardRunState();
    var s0, e, p := Init(ZEROS), EvPop([], 4), EvPush(EMPTY);
    var es := Effects(s0, chs);
    Answers(ZEROS, chs);
    SidesCount(es);
    PushedSnoc([], p);
    PushedSnoc([] + [p], p);
    PushedSnoc([], e);
    PushedSnoc([] + [e], e);
    PushedSnoc([] + [e] + [e], e);
    assert Side(es, true) == [] + [p] + [p] && Side(es, false) == [] + [e] + [e] + [e];
    if Legal(8, es) {
      Conserved(8, es);
    }
    if Safe(s0, chs) {
      Linearizable(ZEROS, chs);
    }
  }
}

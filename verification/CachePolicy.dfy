/** What a caller of the cache can rely on over whole runs. */
module CachePolicy {
  import opened Bytes
  import opened CacheModel
  import opened CacheSweep
  import opened Slices

  // ---------------------------------------------------------------- one operation

  /** Set with a value that fits. */
  lemma SetFits(N: nat, B: nat, es: seq<Entry>, key: nat, d: seq<Byte>, now: int)
    requires B > 0 && EntriesOk(es, N, B) && key != 0 && |Chunks(B, d)| <= N
    ensures var r, rest := SetSpec(N, B, es, key, d, now), DropEntry(es, key);
            && EntriesOk(r, N, B)
            && r == if d == [] then rest else EvictTo(rest, N - |Chunks(B, d)|) + [Entry(key, Chunks(B, d), now)]
  {
    hide HasKey, SetSpec, Store, EvictTo, DropEntry, EntriesOk, Chunks, Flat;
    var rest, cs := DropEntry(es, key), Chunks(B, d);
    DropEntryOk(es, key, N, B);
    OkSolid(rest, N, B);
    StoreFits(N, rest, [], cs);
    assert [] + cs == cs;
    SetStored(N, B, es, key, d, now);
    ChunksNone(B, d);
    var m := EvictToShortest(rest, N - |cs|);
    SuffixOk(rest, m, N, B);
    if d == [] {
      EvictNothing(rest, N);
    } else {
      ConcatChunks(B, d);
      AppendEntryOk(rest[m..], Entry(key, cs, now), N, B);
    }
  }

  lemma SetStored(N: nat, B: nat, es: seq<Entry>, key: nat, d: seq<Byte>, now: int)
    requires B > 0 && key != 0
    ensures var r := Store(N, DropEntry(es, key), [], Chunks(B, d));
            SetSpec(N, B, es, key, d, now) == if r.1 == [] then r.0 else r.0 + [Entry(key, r.1, now)]
  {
  }

  lemma ChunksNone(B: nat, d: seq<Byte>)
    requires B > 0
    ensures Chunks(B, d) == [] <==> d == []
  {
  }

  lemma OkSolid(es: seq<Entry>, N: nat, B: nat)
    requires B > 0 && EntriesOk(es, N, B)
    ensures Solid(es) && Blocks(es) <= N
  {
    assert forall i :: 0 <= i < |es| ==> EntryOk(es[i], B);
  }

  lemma EvictNothing(es: seq<Entry>, N: nat)
    requires Blocks(es) <= N
    ensures EvictTo(es, N) == es
  {
  }

  /** Set with a value that does not. */
  lemma SetWraps(N: nat, B: nat, es: seq<Entry>, key: nat, d: seq<Byte>, now: int)
    requires B > 0 && N * B > 0 && EntriesOk(es, N, B) && key != 0 && |Chunks(B, d)| > N
    ensures var r := SetSpec(N, B, es, key, d, now);
            EntriesOk(r, N, B) && r == [Entry(key, Chunks(B, TailRound(N * B, d)), now)]
  {
    hide HasKey, SetSpec, Store, DropEntry, EntriesOk, LastRound;
    var rest, cs, t := DropEntry(es, key), Chunks(B, d), TailRound(N * B, d);
    DropEntryOk(es, key, N, B);
    OkSolid(rest, N, B);
    StoreWraps(N, rest, [], cs);
    assert [] + cs == cs;
    SetStored(N, B, es, key, d, now);
    LastRoundBytes(N, B, d);
    FitsIff(N, B, d);
    FitsIff(N, B, t);
    ConcatChunks(B, t);
    hide TailRound;
    var e := Entry(key, Chunks(B, t), now);
    assert EntryOk(e, B);
    EmptyOk(N, B, key);
    AppendEntryOk([], e, N, B);
    assert [] + [e] == [e];
  }

  /** What Set amounts to, for every value: the whole value after the shortest eviction of least
      recently used other keys if it fits in N blocks of B bytes, and else its last round only. */
  lemma SetOutcome(N: nat, B: nat, es: seq<Entry>, key: nat, d: seq<Byte>, now: int)
    requires B > 0 && N * B > 0 && EntriesOk(es, N, B) && key != 0
    ensures var r := SetSpec(N, B, es, key, d, now);
            var rest := DropEntry(es, key);
            && EntriesOk(r, N, B)
            && (d == [] ==> r == rest)
            && (d != [] && |d| <= N * B ==>
                  |Chunks(B, d)| <= N && r == EvictTo(rest, N - |Chunks(B, d)|) + [Entry(key, Chunks(B, d), now)])
            && (|d| > N * B ==> r == [Entry(key, Chunks(B, TailRound(N * B, d)), now)])
  {
    hide EntriesOk, SetSpec, EvictTo, DropEntry, TailRound;
    FitsIff(N, B, d);
    if |Chunks(B, d)| <= N {
      SetFits(N, B, es, key, d, now);
    } else {
      SetWraps(N, B, es, key, d, now);
    }
  }

  lemma GetKeepsOk(N: nat, B: nat, es: seq<Entry>, key: nat, now: int, timeout: nat)
    requires B > 0 && EntriesOk(es, N, B)
    ensures EntriesOk(GetSpec(es, key, now, timeout), N, B)
  {
    if HasKey(es, key) {
      DropEntryOk(es, key, N, B);
      DropEntryBlocks(es, key);
      if !Expired(Find(es, key), now, timeout) {
        AppendEntryOk(DropEntry(es, key), Find(es, key), N, B);
      }
    }
  }

  lemma {:induction false} UnsweptKeepsOk(part: seq<Entry>, es: seq<Entry>, H: nat, now: int, timeout: nat, N: nat,
                                          B: nat)
    requires H > 0 && B > 0 && EntriesOk(part, N, B)
    ensures EntriesOk(Unswept(part, es, H, now, timeout), N, B)
    ensures Blocks(Unswept(part, es, H, now, timeout)) <= Blocks(part)
  {
    if part != [] {
      var t := part[1..];
      SuffixOk(part, 1, N, B);
      UnsweptKeepsOk(t, es, H, now, timeout, N, B);
      var u := Unswept(t, es, H, now, timeout);
      forall i | 0 <= i < |u|
        ensures u[i].key != part[0].key
      {
        UnsweptMember(t, es, H, now, timeout, u[i]);
      }
      assert ([part[0]] + u)[1..] == u;
    }
  }

  /** Reading a value back before it expires gives what survived storing it: all of it
      exactly when it fits. */
  lemma SetThenGet(N: nat, B: nat, es: seq<Entry>, key: nat, d: seq<Byte>, now: int, later: int, timeout: nat)
    requires B > 0 && N * B > 0 && EntriesOk(es, N, B) && key != 0
    ensures var r := GetReply(SetSpec(N, B, es, key, d, now), key, later, timeout);
            && (d == [] ==> r == NoExist)
            && (d != [] && later - now > timeout ==> r == Timeout)
            && (d != [] && later - now <= timeout ==> r == Ok(TailRound(N * B, d)))
            && (d != [] && later - now <= timeout ==> (r == Ok(d) <==> |d| <= N * B))
  {
    SetOutcome(N, B, es, key, d, now);
    DropEntryOk(es, key, N, B);
    var r := SetSpec(N, B, es, key, d, now);
    if d != [] {
      FitsIff(N, B, d);
      var e := r[|r| - 1];
      FindUnique(r, e);
      ConcatChunks(B, TailRound(N * B, d));
    }
  }

  // ---------------------------------------------------------------- runs

  datatype Op =
    | OpSet(key: nat, data: seq<Byte>, now: int)
    | OpGet(key: nat, now: int)
    | OpDel(key: nat)
    | OpCheck(now: int)

  datatype Config = Config(H: nat, N: nat, B: nat, timeout: nat)

  ghost predicate ConfigOk(c: Config) {
    c.H > 0 && c.B > 0 && c.N * c.B > 0
  }

  ghost function Apply(c: Config, es: seq<Entry>, op: Op): seq<Entry>
    requires ConfigOk(c)
  {
    match op
    case OpSet(key, data, now) => SetSpec(c.N, c.B, es, key, data, now)
    case OpGet(key, now) => GetSpec(es, key, now, c.timeout)
    case OpDel(key) => DropEntry(es, key)
    case OpCheck(now) => Unswept(es, es, c.H, now, c.timeout)
  }

  ghost function Run(c: Config, es: seq<Entry>, ops: seq<Op>): seq<Entry>
    requires ConfigOk(c)
    decreases |ops|
  {
    if ops == [] then es else Apply(c, Run(c, es, ops[..|ops| - 1]), ops[|ops| - 1])
  }

  lemma ApplyOk(c: Config, es: seq<Entry>, op: Op)
    requires ConfigOk(c) && EntriesOk(es, c.N, c.B)
    ensures EntriesOk(Apply(c, es, op), c.N, c.B)
  {
    match op
    case OpSet(key, data, now) => if key != 0 { SetOutcome(c.N, c.B, es, key, data, now); }
    case OpGet(key, now) => GetKeepsOk(c.N, c.B, es, key, now, c.timeout);
    case OpDel(key) => DropEntryOk(es, key, c.N, c.B);
    case OpCheck(now) => UnsweptKeepsOk(es, es, c.H, now, c.timeout, c.N, c.B);
  }

  /** Every run keeps the entry invariant: distinct nonzero keys, values cut into full blocks,
      and no more than N blocks in all. */
  lemma {:induction false} RunOk(c: Config, es: seq<Entry>, ops: seq<Op>)
    requires ConfigOk(c) && EntriesOk(es, c.N, c.B)
    ensures EntriesOk(Run(c, es, ops), c.N, c.B)
    decreases |ops|
  {
    if ops != [] {
      RunOk(c, es, ops[..|ops| - 1]);
      ApplyOk(c, Run(c, es, ops[..|ops| - 1]), ops[|ops| - 1]);
    }
  }

  datatype Written = Nothing | Written(data: seq<Byte>, at: int)

  /** The last value a run wrote under a key, if it was not deleted since. */
  function LastSet(ops: seq<Op>, k: nat): Written
    decreases |ops|
  {
    if ops == [] then Nothing
    else
      match ops[|ops| - 1]
      case OpSet(key, data, now) =>
        if key != k then LastSet(ops[..|ops| - 1], k) else if data == [] then Nothing else Written(data, now)
      case OpDel(key) => if key != k then LastSet(ops[..|ops| - 1], k) else Nothing
      case _ => LastSet(ops[..|ops| - 1], k)
  }

  ghost predicate Holds(c: Config, e: Entry, w: Written)
    requires ConfigOk(c)
  {
    w.Written? && e.uptime == w.at && Flat(e.chunks) == TailRound(c.N * c.B, w.data)
  }

  lemma SetMember(c: Config, es: seq<Entry>, key: nat, data: seq<Byte>, now: int, e: Entry)
    requires ConfigOk(c) && EntriesOk(es, c.N, c.B) && key != 0
    requires e in SetSpec(c.N, c.B, es, key, data, now)
    ensures if key == e.key then data != [] && Holds(c, e, Written(data, now)) else e in es
  {
    hide SetSpec, EntriesOk, Chunks, EvictTo, DropEntry, Flat;
    var rest := DropEntry(es, key);
    DropEntryMembers(es, key);
    SetOutcome(c.N, c.B, es, key, data, now);
    ConcatChunks(c.B, TailRound(c.N * c.B, data));
    if data != [] && |data| <= c.N * c.B {
      var m := EvictToShortest(rest, c.N - |Chunks(c.B, data)|);
      if e.key != key {
        assert e in rest[m..];
      }
    }
  }

  /** An entry of the new content is an entry of the old one, or what this Set just wrote. */
  lemma ApplyMember(c: Config, es: seq<Entry>, op: Op, e: Entry)
    requires ConfigOk(c) && EntriesOk(es, c.N, c.B) && e in Apply(c, es, op)
    ensures match op
            case OpSet(key, data, now) =>
              if key == e.key then data != [] && Holds(c, e, Written(data, now)) else e in es
            case OpDel(key) => key != e.key && e in es
            case _ => e in es
  {
    hide SetSpec, Holds, Unswept, Swept;
    match op
    case OpSet(key, data, now) =>
      if key != 0 {
        SetMember(c, es, key, data, now, e);
      } else {
        SetZero(c, es, data, now, e);
      }
    case OpGet(key, now) => DropEntryMembers(es, key);
    case OpDel(key) => DropEntryMembers(es, key);
    case OpCheck(now) => UnsweptMember(es, es, c.H, now, c.timeout, e);
  }

  lemma SetZero(c: Config, es: seq<Entry>, data: seq<Byte>, now: int, e: Entry)
    requires ConfigOk(c) && EntriesOk(es, c.N, c.B)
    requires e in SetSpec(c.N, c.B, es, 0, data, now)
    ensures e in es && e.key != 0
  {
    var i :| 0 <= i < |es| && es[i] == e;
    assert EntryOk(es[i], c.B);
  }

  /** After any run, every stored entry is exactly what the last Set of its key left. */
  lemma {:induction false} RunFaithful(c: Config, ops: seq<Op>, e: Entry)
    requires ConfigOk(c) && e in Run(c, [], ops)
    ensures Holds(c, e, LastSet(ops, e.key))
    decreases |ops|
  {
    var init, op := ops[..|ops| - 1], ops[|ops| - 1];
    RunOk(c, [], init);
    ApplyMember(c, Run(c, [], init), op, e);
    if e in Run(c, [], init) {
      RunFaithful(c, init, e);
    }
  }

  /** After any run, a read that succeeds returns the last value set for the key, which was not
      deleted since and is not expired; the value is complete exactly when it fits the cache. */
  lemma GetFaithful(c: Config, ops: seq<Op>, k: nat, now: int)
    requires ConfigOk(c)
    ensures var r := GetReply(Run(c, [], ops), k, now, c.timeout);
            var w := LastSet(ops, k);
            && (r.Ok? ==> w.Written? && now - w.at <= c.timeout && r.data == TailRound(c.N * c.B, w.data))
            && (r.Ok? ==> (r.data == w.data <==> |w.data| <= c.N * c.B))
            && (w == Nothing ==> r == NoExist)
  {
    var es := Run(c, [], ops);
    if HasKey(es, k) {
      RunFaithful(c, ops, Find(es, k));
    }
  }

  // ---------------------------------------------------------------- retention

  /** The operation neither overwrites nor deletes e, and does not find it expired. */
  ghost predicate Spares(c: Config, op: Op, e: Entry) {
    match op
    case OpSet(key, data, now) => key != e.key
    case OpGet(key, now) => key == e.key ==> !Expired(e, now, c.timeout)
    case OpDel(key) => key != e.key
    case OpCheck(now) => !Expired(e, now, c.timeout)
  }

  /** e is stored, and b are the entries more recently used, in order. */
  ghost predicate Behind(es: seq<Entry>, e: Entry, b: seq<Entry>) {
    |b| < |es| && es[|es| - |b| - 1] == e && es[|es| - |b|..] == b
  }

  /** The entries more recently used than e after one more operation on the content es, when b
      were those before: at most one for each key, whatever the number of its hits. */
  ghost function NewerAfter(c: Config, es: seq<Entry>, e: Entry, b: seq<Entry>, op: Op): seq<Entry>
    requires ConfigOk(c)
  {
    match op
    case OpSet(key, data, now) =>
      if key == 0 then b
      else if data == [] then DropEntry(b, key)
      else DropEntry(b, key) + [Entry(key, Chunks(c.B, data), now)]
    case OpGet(key, now) =>
      if key == e.key then []
      else if !HasKey(es, key) then b
      else if Expired(Find(es, key), now, c.timeout) then DropEntry(b, key)
      else DropEntry(b, key) + [Find(es, key)]
    case OpDel(key) => DropEntry(b, key)
    case OpCheck(now) => Unswept(b, es, c.H, now, c.timeout)
  }

  /** The entries more recently used than e after a run. */
  ghost function Newer(c: Config, es: seq<Entry>, e: Entry, b: seq<Entry>, ops: seq<Op>): seq<Entry>
    requires ConfigOk(c)
    decreases |ops|
  {
    if ops == [] then b
    else
      var init := ops[..|ops| - 1];
      NewerAfter(c, Run(c, es, init), e, Newer(c, es, e, b, init), ops[|ops| - 1])
  }

  lemma BehindIntro(a: seq<Entry>, e: Entry, b: seq<Entry>)
    ensures Behind(a + [e] + b, e, b) && e in a + [e] + b
  {
    assert (a + [e] + b)[|a|] == e;
  }

  lemma BehindSplit(es: seq<Entry>, e: Entry, b: seq<Entry>) returns (a: seq<Entry>)
    requires Behind(es, e, b)
    ensures es == a + [e] + b && e in es
  {
    a := es[..|es| - |b| - 1];
  }

  lemma {:induction false} UnsweptAppend(a: seq<Entry>, b: seq<Entry>, es: seq<Entry>, H: nat, now: int, timeout: nat)
    requires H > 0
    ensures Unswept(a + b, es, H, now, timeout) == Unswept(a, es, H, now, timeout) + Unswept(b, es, H, now, timeout)
  {
    if a == [] {
      assert a + b == b;
    } else {
      assert (a + b)[1..] == a[1..] + b;
      UnsweptAppend(a[1..], b, es, H, now, timeout);
    }
  }

  lemma DropAround(a: seq<Entry>, e: Entry, b: seq<Entry>, k: nat)
    requires e.key != k
    ensures DropEntry(a + [e] + b, k) == DropEntry(a, k) + [e] + DropEntry(b, k)
  {
    DropEntryAppend(a + [e], b, k);
    DropEntryAppend(a, [e], k);
    assert [e][1..] == [];
    assert DropEntry([e], k) == [e];
  }

  lemma BlocksAround(a: seq<Entry>, e: Entry, b: seq<Entry>)
    ensures Blocks(a + [e] + b) == Blocks(a) + |e.chunks| + Blocks(b)
  {
    BlocksAppend(a + [e], b);
    BlocksAppend(a, [e]);
    assert [e][1..] == [];
  }

  lemma BlocksSnoc(b: seq<Entry>, e: Entry)
    ensures Blocks(b + [e]) == Blocks(b) + |e.chunks|
  {
    BlocksAround(b, e, []);
    assert b + [e] + [] == b + [e];
  }

  /** The eviction spares e exactly when e and what is more recent fit the room. */
  lemma {:induction false} EvictExact(a: seq<Entry>, e: Entry, b: seq<Entry>, room: nat)
    requires e !in b
    ensures e in EvictTo(a + [e] + b, room) <==> |e.chunks| + Blocks(b) <= room
    ensures e in EvictTo(a + [e] + b, room) ==> Behind(EvictTo(a + [e] + b, room), e, b)
  {
    var es := a + [e] + b;
    BlocksAround(a, e, b);
    BehindIntro(a, e, b);
    if Blocks(es) > room {
      if a == [] {
        assert es[1..] == b;
        var m := EvictToShortest(b, room);
        assert e !in b[m..];
      } else {
        assert es[1..] == a[1..] + [e] + b;
        EvictExact(a[1..], e, b, room);
      }
    }
  }

  lemma OkDistinct(c: Config, es: seq<Entry>)
    requires ConfigOk(c) && EntriesOk(es, c.N, c.B)
    ensures Distinct(es) && Blocks(es) <= c.N
  {
  }

  /** No other entry has e's key. */
  lemma Alone(a: seq<Entry>, e: Entry, b: seq<Entry>)
    requires Distinct(a + [e] + b)
    ensures e !in b
  {
    var es := a + [e] + b;
    forall i | 0 <= i < |b|
      ensures b[i].key != e.key
    {
      assert es[|a|].key != es[|a| + 1 + i].key;
    }
  }

  lemma SetRetains(c: Config, a: seq<Entry>, e: Entry, b: seq<Entry>, key: nat, data: seq<Byte>, now: int)
    requires ConfigOk(c) && EntriesOk(a + [e] + b, c.N, c.B) && key != e.key && key != 0 && data != []
    ensures var b' := NewerAfter(c, a + [e] + b, e, b, OpSet(key, data, now));
            var r := SetSpec(c.N, c.B, a + [e] + b, key, data, now);
            && (e in r <==> |e.chunks| + Blocks(b') <= c.N)
            && (e in r ==> Behind(r, e, b'))
  {
    hide SetSpec, EntriesOk, EvictTo, DropEntry, Behind;
    var es, cs := a + [e] + b, Chunks(c.B, data);
    var a', b', n := DropEntry(a, key), DropEntry(b, key), Entry(key, cs, now);
    SetOutcome(c.N, c.B, es, key, data, now);
    FitsIff(c.N, c.B, data);
    DropAround(a, e, b, key);
    BlocksSnoc(b', n);
    if |cs| <= c.N {
      OkDistinct(c, es);
      DropEntryDistinct(es, key);
      Alone(a', e, b');
      EvictExact(a', e, b', c.N - |cs|);
      var left := EvictTo(a' + [e] + b', c.N - |cs|);
      if e in left {
        BehindSnoc(left, e, b', n);
      }
    }
  }

  lemma BehindSnoc(es: seq<Entry>, e: Entry, b: seq<Entry>, n: Entry)
    requires Behind(es, e, b)
    ensures Behind(es + [n], e, b + [n])
  {
  }

  lemma GetRetains(c: Config, a: seq<Entry>, e: Entry, b: seq<Entry>, key: nat, now: int)
    requires ConfigOk(c) && EntriesOk(a + [e] + b, c.N, c.B)
    requires key == e.key ==> !Expired(e, now, c.timeout)
    ensures Behind(GetSpec(a + [e] + b, key, now, c.timeout), e, NewerAfter(c, a + [e] + b, e, b, OpGet(key, now)))
  {
    hide EntriesOk, DropEntry, Behind;
    var es := a + [e] + b;
    OkDistinct(c, es);
    assert es[|a|] == e;
    if key == e.key {
      FindUnique(es, e);
      BehindIntro(DropEntry(es, key), e, []);
      assert DropEntry(es, key) + [e] + [] == DropEntry(es, key) + [e];
    } else {
      var a', b' := DropEntry(a, key), DropEntry(b, key);
      DropAround(a, e, b, key);
      BehindIntro(a, e, b);
      BehindIntro(a', e, b');
      if HasKey(es, key) {
        BehindSnoc(a' + [e] + b', e, b', Find(es, key));
      }
    }
  }

  lemma CheckRetains(c: Config, a: seq<Entry>, e: Entry, b: seq<Entry>, now: int)
    requires ConfigOk(c) && !Expired(e, now, c.timeout)
    ensures var es := a + [e] + b;
            Behind(Unswept(es, es, c.H, now, c.timeout), e, Unswept(b, es, c.H, now, c.timeout))
  {
    var es := a + [e] + b;
    UnsweptAppend(a + [e], b, es, c.H, now, c.timeout);
    UnsweptAppend(a, [e], es, c.H, now, c.timeout);
    assert [e][1..] == [];
    assert Unswept([e], es, c.H, now, c.timeout) == [e];
    BehindIntro(Unswept(a, es, c.H, now, c.timeout), e, Unswept(b, es, c.H, now, c.timeout));
  }

  lemma BehindFits(c: Config, es: seq<Entry>, e: Entry, b: seq<Entry>)
    requires ConfigOk(c) && EntriesOk(es, c.N, c.B) && Behind(es, e, b)
    ensures e in es && |e.chunks| + Blocks(b) <= c.N
  {
    var a := BehindSplit(es, e, b);
    BlocksAround(a, e, b);
  }

  /** An operation that spares e evicts it exactly when e and what is then more recent exceed the
      N blocks; else it leaves exactly those entries behind e. */
  lemma ApplyRetains(c: Config, es: seq<Entry>, op: Op, e: Entry, b: seq<Entry>)
    requires ConfigOk(c) && EntriesOk(es, c.N, c.B)
    requires Behind(es, e, b) && Spares(c, op, e)
    ensures e in Apply(c, es, op) <==> |e.chunks| + Blocks(NewerAfter(c, es, e, b, op)) <= c.N
    ensures e in Apply(c, es, op) ==> Behind(Apply(c, es, op), e, NewerAfter(c, es, e, b, op))
  {
    hide GetSpec, Unswept, EntriesOk, Behind, DropEntry, Blocks, Chunks, Store;
    var a := BehindSplit(es, e, b);
    ApplyOk(c, es, op);
    match op
    case OpSet(key, data, now) =>
      if key == 0 {
        BehindFits(c, es, e, b);
      } else if data == [] {
        SetOutcome(c.N, c.B, es, key, data, now);
        DropAround(a, e, b, key);
        BehindIntro(DropEntry(a, key), e, DropEntry(b, key));
        BehindFits(c, Apply(c, es, op), e, DropEntry(b, key));
      } else {
        SetRetains(c, a, e, b, key, data, now);
      }
    case OpGet(key, now) =>
      GetRetains(c, a, e, b, key, now);
      BehindFits(c, Apply(c, es, op), e, NewerAfter(c, es, e, b, op));
    case OpDel(key) =>
      DropAround(a, e, b, key);
      BehindIntro(DropEntry(a, key), e, DropEntry(b, key));
      BehindFits(c, Apply(c, es, op), e, DropEntry(b, key));
    case OpCheck(now) =>
      CheckRetains(c, a, e, b, now);
      BehindFits(c, Apply(c, es, op), e, NewerAfter(c, es, e, b, op));
  }

  /** Least recently used first: an entry that a run neither deletes, overwrites nor outlives is
      still there exactly when at no time it and the entries used since, each key once, exceeded
      the N blocks. */
  lemma {:induction false} RunRetains(c: Config, es: seq<Entry>, ops: seq<Op>, e: Entry, b: seq<Entry>)
    requires ConfigOk(c) && EntriesOk(es, c.N, c.B) && Behind(es, e, b)
    requires forall i :: 0 <= i < |ops| ==> Spares(c, ops[i], e)
    ensures e in Run(c, es, ops) <==>
            forall i :: 0 <= i <= |ops| ==> |e.chunks| + Blocks(Newer(c, es, e, b, ops[..i])) <= c.N
    ensures e in Run(c, es, ops) ==> Behind(Run(c, es, ops), e, Newer(c, es, e, b, ops))
    decreases |ops|
  {
    hide EntriesOk, Behind, Spares, Apply, NewerAfter, Blocks;
    assert ops[..|ops|] == ops;
    if ops == [] {
      BehindFits(c, es, e, b);
    } else {
      var init, op := ops[..|ops| - 1], ops[|ops| - 1];
      var mid := Run(c, es, init);
      RunRetains(c, es, init, e, b);
      RunOk(c, es, init);
      assert forall i :: 0 <= i < |ops| ==> init[..i] == ops[..i];
      assert Spares(c, op, e);
      if e in mid {
        ApplyRetains(c, mid, op, e, Newer(c, es, e, b, init));
      } else if e in Apply(c, mid, op) {
        SparedMember(c, mid, op, e);
      }
    }
  }

  /** An operation that spares e does not bring it back. */
  lemma SparedMember(c: Config, es: seq<Entry>, op: Op, e: Entry)
    requires ConfigOk(c) && EntriesOk(es, c.N, c.B) && Spares(c, op, e)
    requires e in Apply(c, es, op)
    ensures e in es
  {
    hide EntriesOk, Apply;
    ApplyMember(c, es, op, e);
  }

  /** Reading a key that was used since costs e nothing, however often it is done, and setting it
      costs the change of its number of blocks. */
  lemma UsedSince(c: Config, es: seq<Entry>, op: Op, e: Entry, b: seq<Entry>)
    requires ConfigOk(c) && EntriesOk(es, c.N, c.B) && Behind(es, e, b)
    requires op.OpGet? || op.OpSet?
    requires op.key != e.key && HasKey(b, op.key)
    ensures var before, after := |Find(b, op.key).chunks|, Blocks(NewerAfter(c, es, e, b, op));
            && (op.OpSet? ==> after == Blocks(b) - before + |Chunks(c.B, op.data)|)
            && (op.OpGet? && !Expired(Find(b, op.key), op.now, c.timeout) ==> after == Blocks(b))
            && (op.OpGet? && Expired(Find(b, op.key), op.now, c.timeout) ==> after == Blocks(b) - before)
  {
    hide DropEntry, Blocks, EntriesOk, Behind, Expired;
    var f := Find(b, op.key);
    UsedEntry(c, es, e, b, f);
    DropEntryBlocks(b, op.key);
    BlocksSnoc(DropEntry(b, op.key), f);
    if op.OpSet? {
      BlocksSnoc(DropEntry(b, op.key), Entry(op.key, Chunks(c.B, op.data), op.now));
    }
  }

  lemma UsedEntry(c: Config, es: seq<Entry>, e: Entry, b: seq<Entry>, f: Entry)
    requires ConfigOk(c) && EntriesOk(es, c.N, c.B) && Behind(es, e, b) && f in b
    ensures Distinct(b) && f.key != 0 && HasKey(es, f.key) && Find(es, f.key) == f
  {
    hide Blocks;
    var from := |es| - |b|;
    assert forall i :: 0 <= i < |b| ==> b[i] == es[from + i];
    var i :| 0 <= i < |b| && b[i] == f;
    assert EntryOk(es[from + i], c.B);
    FindUnique(es, f);
  }

  // ---------------------------------------------------------------- reading what is there

  /** A read of an entry's key gives its bytes and moves it behind all others, or takes it out if it is expired. */
  lemma GetEntry(a: seq<Entry>, e: Entry, b: seq<Entry>, now: int, timeout: nat)
    requires Distinct(a + [e] + b)
    ensures var live := now - e.uptime <= timeout;
            && GetReply(a + [e] + b, e.key, now, timeout) == (if live then Ok(Flat(e.chunks)) else Timeout)
            && GetSpec(a + [e] + b, e.key, now, timeout) == (if live then a + b + [e] else a + b)
  {
    var es := a + [e] + b;
    assert es[|a|] == e;
    FindUnique(es, e);
    DropEntryExact(a, e, b);
  }

  /** An entry that a run neither overwrites, deletes nor finds expired is found by a read after the run
      exactly when it and the entries used since never exceeded the N blocks; if not, the key is missing. */
  lemma RunFound(c: Config, es: seq<Entry>, ops: seq<Op>, e: Entry, b: seq<Entry>, now: int)
    requires ConfigOk(c) && EntriesOk(es, c.N, c.B) && Behind(es, e, b)
    requires forall i :: 0 <= i < |ops| ==> Spares(c, ops[i], e)
    requires now - e.uptime <= c.timeout
    ensures GetReply(Run(c, es, ops), e.key, now, c.timeout) ==
            if forall i :: 0 <= i <= |ops| ==> |e.chunks| + Blocks(Newer(c, es, e, b, ops[..i])) <= c.N
            then Ok(Flat(e.chunks)) else NoExist
  {
    hide Behind, Run, Spares, EntriesOk, Newer, Blocks;
    var r := Run(c, es, ops);
    RunRetains(c, es, ops, e, b);
    RunOk(c, es, ops);
    OkDistinct(c, r);
    if e in r {
      FindUnique(r, e);
    } else if HasKey(r, e.key) {
      BehindIn(es, e, b);
      SameEntry(c, es, ops, e, Find(r, e.key));
    }
  }

  lemma BehindIn(es: seq<Entry>, e: Entry, b: seq<Entry>)
    requires Behind(es, e, b)
    ensures e in es
  {
  }

  /** A run that spares e leaves no other entry under its key. */
  lemma {:induction false} SameEntry(c: Config, es: seq<Entry>, ops: seq<Op>, e: Entry, f: Entry)
    requires ConfigOk(c) && EntriesOk(es, c.N, c.B) && e in es
    requires forall i :: 0 <= i < |ops| ==> Spares(c, ops[i], e)
    requires f in Run(c, es, ops) && f.key == e.key
    ensures f == e
    decreases |ops|
  {
    hide EntriesOk, Apply;
    if ops == [] {
      OkDistinct(c, es);
      FindUnique(es, e);
      FindUnique(es, f);
    } else {
      var init, op := ops[..|ops| - 1], ops[|ops| - 1];
      assert Spares(c, op, e);
      RunOk(c, es, init);
      ApplyMember(c, Run(c, es, init), op, f);
      SameEntry(c, es, init, e, f);
    }
  }

  /** A value set, and read after a run that neither sets nor deletes its key nor outlives it, comes back
      (all of it if it fits the cache, else its last round) exactly when it and the entries used since, each
      key once, never exceeded the N blocks; if not, the key is missing. */
  lemma SetRunGet(c: Config, es: seq<Entry>, key: nat, d: seq<Byte>, at: int, ops: seq<Op>, now: int)
    requires ConfigOk(c) && EntriesOk(es, c.N, c.B) && key != 0 && d != [] && now - at <= c.timeout
    requires var e := Entry(key, Chunks(c.B, TailRound(c.N * c.B, d)), at);
             forall i :: 0 <= i < |ops| ==> Spares(c, ops[i], e)
    ensures var e := Entry(key, Chunks(c.B, TailRound(c.N * c.B, d)), at);
            var s := Apply(c, es, OpSet(key, d, at));
            GetReply(Run(c, s, ops), key, now, c.timeout) ==
            if forall i :: 0 <= i <= |ops| ==> |e.chunks| + Blocks(Newer(c, s, e, [], ops[..i])) <= c.N
            then Ok(TailRound(c.N * c.B, d)) else NoExist
  {
    hide Run, Spares, Newer, Blocks, Chunks, EntriesOk, EvictTo, DropEntry, SetSpec, Flat;
    var t := TailRound(c.N * c.B, d);
    var e, s := Entry(key, Chunks(c.B, t), at), Apply(c, es, OpSet(key, d, at));
    SetOutcome(c.N, c.B, es, key, d, at);
    ConcatChunks(c.B, t);
    assert s != [] && s[|s| - 1] == e;
    assert Behind(s, e, []);
    RunFound(c, s, ops, e, [], now);
  }

  // ---------------------------------------------------------------- an incomplete check

  lemma RunSnoc(c: Config, es: seq<Entry>, ops: seq<Op>, op: Op)
    requires ConfigOk(c)
    ensures Run(c, es, ops + [op]) == Apply(c, Run(c, es, ops), op)
  {
    assert (ops + [op])[..|ops|] == ops;
  }

  /** Set with a value of one block per byte, while there is room for it. */
  lemma SetRoom(c: Config, es: seq<Entry>, key: nat, d: seq<Byte>, now: int)
    requires ConfigOk(c) && c.B == 1 && EntriesOk(es, c.N, c.B) && key != 0 && !HasKey(es, key)
    requires d != [] && Blocks(es) + |Chunks(1, d)| <= c.N
    ensures Apply(c, es, OpSet(key, d, now)) == es + [Entry(key, Chunks(1, d), now)]
  {
    FitsIff(c.N, 1, d);
    SetOutcome(c.N, 1, es, key, d, now);
    DropEntryMembers(es, key);
  }

  const SMALL := Config(1, 3, 1, 0)
  const TWO := Entry(1, [[0], [0]], 0)
  const ONE := Entry(2, [[0]], 0)

  lemma SmallChunks()
    ensures Chunks(1, [0, 0]) == [[0], [0]] && Chunks(1, [0]) == [[0]]
    ensures Blocks([]) == 0 && Blocks([TWO]) == 2 && !HasKey([TWO], 2)
  {
    assert [0, 0][1..] == [0] && [0, 0][..1] == [0] && [TWO][1..] == [];
  }

  lemma RunFirst()
    ensures Run(SMALL, [], [OpSet(1, [0, 0], 0)]) == [TWO]
  {
    hide Apply, Blocks, HasKey, Chunks, EntriesOk;
    assert Run(SMALL, [], []) == [];
    EmptyOk(3, 1, 1);
    RunSnoc(SMALL, [], [], OpSet(1, [0, 0], 0));
    SmallChunks();
    SetRoom(SMALL, [], 1, [0, 0], 0);
    assert [] + [OpSet(1, [0, 0], 0)] == [OpSet(1, [0, 0], 0)] && [] + [TWO] == [TWO];
  }

  lemma RunSecond()
    ensures Run(SMALL, [], [OpSet(1, [0, 0], 0), OpSet(2, [0], 0)]) == [TWO, ONE]
  {
    hide Run, Apply, Blocks, HasKey, Chunks, EntriesOk;
    var a, b := OpSet(1, [0, 0], 0), OpSet(2, [0], 0);
    RunFirst();
    EmptyOk(3, 1, 1);
    RunOk(SMALL, [], [a]);
    RunSnoc(SMALL, [], [a], b);
    SmallChunks();
    SetRoom(SMALL, [TWO], 2, [0], 0);
    assert [a] + [b] == [a, b] && [TWO] + [ONE] == [TWO, ONE];
  }

  /** A run that leaves an expired entry behind: the expired key before it in the bucket has two blocks. */
  lemma CheckRun()
    ensures var es := Run(SMALL, [], [OpSet(1, [0, 0], 0), OpSet(2, [0], 0), OpCheck(1)]);
            es == [ONE] && Expired(ONE, 1, SMALL.timeout)
  {
    hide Run, Apply;
    var a, b := OpSet(1, [0, 0], 0), OpSet(2, [0], 0);
    RunSecond();
    RunSnoc(SMALL, [], [a, b], OpCheck(1));
    assert [a, b] + [OpCheck(1)] == [a, b, OpCheck(1)];
    CheckLeaves();
  }

  lemma CheckLeaves()
    ensures Apply(SMALL, [TWO, ONE], OpCheck(1)) == [ONE]
  {
    var es := [TWO, ONE];
    assert es[0] == TWO && es[1] == ONE && es[1..] == [ONE] && [ONE][1..] == [];
    assert Swept(es, TWO, 1, 1, 0) && !Swept(es, ONE, 1, 1, 0);
    assert Unswept([ONE], es, 1, 1, 0) == [ONE];
    assert Unswept(es, es, 1, 1, 0) == [ONE];
  }
}

/** Values the shared-memory cache is described with: the blocks in use as nodes,
    the entries a caller sees, and the LRU policy on entries. */
module CacheModel {
  import opened Bytes
  import opened Slices

  /** One block in use: its index in the block array and what its header and data area hold. */
  datatype Block = Block(idx: int, key: nat, data: seq<Byte>, uptime: int)

  /** One stored key, with its value cut into blocks. */
  datatype Entry = Entry(key: nat, chunks: seq<seq<Byte>>, uptime: int)

  // ---------------------------------------------------------------- sequences

  function RemoveAt<T>(s: seq<T>, p: nat): seq<T>
    requires p < |s|
  {
    s[..p] + s[p + 1..]
  }

  function Idxs(s: seq<Block>): (r: seq<int>)
    ensures |r| == |s|
    ensures forall i :: 0 <= i < |s| ==> r[i] == s[i].idx
  {
    seq(|s|, i requires 0 <= i < |s| => s[i].idx)
  }

  function Datas(s: seq<Block>): (r: seq<seq<Byte>>)
    ensures |r| == |s|
    ensures forall i :: 0 <= i < |s| ==> r[i] == s[i].data
  {
    seq(|s|, i requires 0 <= i < |s| => s[i].data)
  }

  // ---------------------------------------------------------------- filters

  /** The nodes of key k, in order. */
  function Keep(s: seq<Block>, k: nat): (r: seq<Block>)
    ensures |r| <= |s|
  {
    if s == [] then []
    else if s[0].key == k then [s[0]] + Keep(s[1..], k)
    else Keep(s[1..], k)
  }

  /** The nodes of every key but k, in order. */
  function Drop(s: seq<Block>, k: nat): (r: seq<Block>)
    ensures |r| <= |s|
    ensures s != [] && s[0].key == k ==> |r| < |s|
  {
    if s == [] then []
    else if s[0].key == k then Drop(s[1..], k)
    else [s[0]] + Drop(s[1..], k)
  }

  lemma {:induction false} KeepAppend(a: seq<Block>, b: seq<Block>, k: nat)
    ensures Keep(a + b, k) == Keep(a, k) + Keep(b, k)
  {
    if a == [] {
      assert a + b == b;
    } else {
      var t := a[1..];
      assert (a + b)[1..] == t + b && (a + b)[0] == a[0];
      KeepAppend(t, b, k);
      if a[0].key == k {
        assert Keep(a + b, k) == [a[0]] + Keep(t + b, k);
      }
    }
  }

  lemma {:induction false} DropAppend(a: seq<Block>, b: seq<Block>, k: nat)
    ensures Drop(a + b, k) == Drop(a, k) + Drop(b, k)
  {
    if a == [] {
      assert a + b == b;
    } else {
      var t := a[1..];
      assert (a + b)[1..] == t + b && (a + b)[0] == a[0];
      DropAppend(t, b, k);
      if a[0].key != k {
        assert Drop(a + b, k) == [a[0]] + Drop(t + b, k);
      }
    }
  }

  lemma FilterAppend(a: seq<Block>, b: seq<Block>, k: nat)
    ensures Keep(a + b, k) == Keep(a, k) + Keep(b, k)
    ensures Drop(a + b, k) == Drop(a, k) + Drop(b, k)
  {
    hide Keep, Drop;
    KeepAppend(a, b, k);
    DropAppend(a, b, k);
  }

  lemma {:induction false} FilterMembers(s: seq<Block>, k: nat, n: Block)
    ensures n in Keep(s, k) <==> n in s && n.key == k
    ensures n in Drop(s, k) <==> n in s && n.key != k
  {
    if s != [] {
      FilterMembers(s[1..], k, n);
    }
  }

  lemma {:induction false} FilterAll(s: seq<Block>, k: nat)
    requires forall i :: 0 <= i < |s| ==> s[i].key == k
    ensures Keep(s, k) == s && Drop(s, k) == []
  {
    if s != [] {
      FilterAll(s[1..], k);
    }
  }

  lemma {:induction false} FilterNone(s: seq<Block>, k: nat)
    requires forall i :: 0 <= i < |s| ==> s[i].key != k
    ensures Keep(s, k) == [] && Drop(s, k) == s
  {
    if s != [] {
      FilterNone(s[1..], k);
    }
  }

  lemma {:induction false} FilterEmpty(s: seq<Block>, k: nat)
    requires Keep(s, k) == []
    ensures Drop(s, k) == s
    ensures forall i :: 0 <= i < |s| ==> s[i].key != k
  {
    if s != [] {
      FilterEmpty(s[1..], k);
    }
  }

  lemma {:induction false} FilterFilter(s: seq<Block>, k: nat, j: nat)
    ensures Keep(Drop(s, k), j) == if j == k then [] else Keep(s, j)
    ensures Drop(Drop(s, k), j) == Drop(Drop(s, j), k)
    ensures j == k ==> Drop(Drop(s, k), j) == Drop(s, k)
    ensures Drop(Keep(s, k), j) == if j == k then [] else Keep(s, k)
    ensures Keep(Keep(s, k), j) == if j == k then Keep(s, k) else []
  {
    if s != [] {
      FilterFilter(s[1..], k, j);
    }
  }

  lemma FilterOne(n: Block, k: nat)
    ensures Keep([n], k) == if n.key == k then [n] else []
    ensures Drop([n], k) == if n.key == k then [] else [n]
  {
    assert [n][1..] == [];
  }

  lemma FilterThree(a: seq<Block>, n: Block, b: seq<Block>, k: nat)
    ensures Keep(a + [n] + b, k) == Keep(a, k) + Keep([n], k) + Keep(b, k)
    ensures Drop(a + [n] + b, k) == Drop(a, k) + Drop([n], k) + Drop(b, k)
  {
    FilterAppend(a + [n], b, k);
    FilterAppend(a, [n], k);
  }

  /** Taking one node out of a sequence takes it out of its own filter only. */
  lemma FilterRemoveAt(s: seq<Block>, p: nat, k: nat)
    requires p < |s|
    ensures k == s[p].key ==> Drop(RemoveAt(s, p), k) == Drop(s, k)
    ensures k != s[p].key ==> Keep(RemoveAt(s, p), k) == Keep(s, k)
    ensures k == s[p].key ==> Keep(s, k) == Keep(s[..p], k) + [s[p]] + Keep(s[p + 1..], k)
    ensures k == s[p].key ==> Keep(RemoveAt(s, p), k) == Keep(s[..p], k) + Keep(s[p + 1..], k)
  {
    hide Keep, Drop;
    var a, n, b := s[..p], s[p], s[p + 1..];
    assert s == a + [n] + b;
    FilterThree(a, n, b, k);
    FilterOne(n, k);
    FilterAppend(a, b, k);
    if k == n.key {
      assert Drop(a, k) + [] + Drop(b, k) == Drop(a, k) + Drop(b, k);
    } else {
      assert Keep(a, k) + [] + Keep(b, k) == Keep(a, k) + Keep(b, k);
    }
  }

  /** If a key occurs before q, the first node its filter keeps sits before q. */
  lemma FirstKept(s: seq<Block>, q: nat, k: nat) returns (p: nat)
    requires q <= |s| && Keep(s[..q], k) != []
    ensures p < q && Keep(s, k) != [] && s[p] == Keep(s, k)[0]
  {
    hide Keep, Drop;
    var a := Keep(s[..q], k);
    assert s == s[..q] + s[q..];
    FilterAppend(s[..q], s[q..], k);
    FilterMembers(s[..q], k, a[0]);
    p :| 0 <= p < q && s[..q][p] == a[0];
  }

  // ---------------------------------------------------------------- entries

  function DropEntry(es: seq<Entry>, k: nat): (r: seq<Entry>)
    ensures |r| <= |es|
  {
    if es == [] then []
    else if es[0].key == k then DropEntry(es[1..], k)
    else [es[0]] + DropEntry(es[1..], k)
  }

  /** The entries of a sequence of nodes, ordered by the first node of each key. */
  function Entries(s: seq<Block>): seq<Entry>
    decreases |s|
  {
    if s == [] then []
    else
      [Entry(s[0].key, Datas(Keep(s, s[0].key)), s[0].uptime)] + Entries(Drop(s, s[0].key))
  }

  lemma {:induction false} EntriesDrop(s: seq<Block>, k: nat)
    ensures Entries(Drop(s, k)) == DropEntry(Entries(s), k)
    decreases |s|
  {
    if s != [] {
      var k0 := s[0].key;
      EntriesDrop(Drop(s, k0), k);
      FilterFilter(s, k0, k);
      FilterFilter(s, k, k0);
      var tail := Entries(Drop(s, k0));
      assert Entries(s)[1..] == tail;
    }
  }

  lemma {:induction false} EntriesAppend(s: seq<Block>, own: seq<Block>, k: nat, t: int)
    requires Keep(s, k) == []
    requires own != []
    requires forall i :: 0 <= i < |own| ==> own[i].key == k && own[i].uptime == t
    ensures Entries(s + own) == Entries(s) + [Entry(k, Datas(own), t)]
    decreases |s|
  {
    if s == [] {
      assert s + own == own;
      FilterAll(own, k);
    } else {
      var k0 := s[0].key;
      assert (s + own)[0] == s[0];
      FilterEmpty(s, k);
      FilterAppend(s, own, k0);
      FilterNone(own, k0);
      assert Keep(s, k0) + [] == Keep(s, k0);
      FilterFilter(s, k0, k);
      EntriesAppend(Drop(s, k0), own, k, t);
    }
  }

  predicate HasKey(es: seq<Entry>, k: nat) {
    exists i :: 0 <= i < |es| && es[i].key == k
  }

  function Find(es: seq<Entry>, k: nat): (e: Entry)
    requires HasKey(es, k)
    ensures e in es && e.key == k
  {
    if es[0].key == k then es[0] else Find(es[1..], k)
  }

  lemma {:induction false} EntriesFind(s: seq<Block>, k: nat)
    ensures HasKey(Entries(s), k) <==> Keep(s, k) != []
    ensures Keep(s, k) != [] ==> Find(Entries(s), k) == Entry(k, Datas(Keep(s, k)), Keep(s, k)[0].uptime)
    decreases |s|
  {
    if s != [] {
      var k0 := s[0].key;
      var es := Entries(s);
      var rest := Entries(Drop(s, k0));
      assert es == [es[0]] + rest;
      if k0 == k {
        assert es[0].key == k;
      } else {
        EntriesFind(Drop(s, k0), k);
        FilterFilter(s, k0, k);
        HasKeyCons(es, k);
      }
    }
  }

  /** Number of blocks a sequence of entries occupies. */
  function Blocks(es: seq<Entry>): nat {
    if es == [] then 0 else |es[0].chunks| + Blocks(es[1..])
  }

  lemma {:induction false} EntriesBlocks(s: seq<Block>)
    ensures Blocks(Entries(s)) == |s|
    decreases |s|
  {
    if s != [] {
      EntriesBlocks(Drop(s, s[0].key));
      KeepDropLength(s, s[0].key);
      assert Entries(s)[1..] == Entries(Drop(s, s[0].key));
    }
  }

  lemma {:induction false} KeepDropLength(s: seq<Block>, k: nat)
    ensures |Keep(s, k)| + |Drop(s, k)| == |s|
  {
    if s != [] {
      KeepDropLength(s[1..], k);
    }
  }

  // ---------------------------------------------------------------- the policy

  /** The cut of a value into blocks of B bytes, the last one possibly shorter. */
  function Chunks(B: nat, d: seq<Byte>): seq<seq<Byte>>
    requires B > 0
    decreases |d|
  {
    if d == [] then [] else if |d| <= B then [d] else [d[..B]] + Chunks(B, d[B..])
  }

  /** Storing blocks one at a time: when all N blocks are taken, the least recently used
      entry goes first; once no other entry is left, the blocks stored so far go. */
  function Store(N: nat, rest: seq<Entry>, own: seq<seq<Byte>>, cs: seq<seq<Byte>>): (seq<Entry>, seq<seq<Byte>>)
    decreases |cs|
  {
    if cs == [] then (rest, own)
    else if Blocks(rest) + |own| < N then Store(N, rest, own + [cs[0]], cs[1..])
    else if rest != [] then Store(N, rest[1..], own + [cs[0]], cs[1..])
    else Store(N, [], [cs[0]], cs[1..])
  }

  function WithOwn(rest: seq<Entry>, key: nat, own: seq<seq<Byte>>, now: int): seq<Entry> {
    if own == [] then rest else rest + [Entry(key, own, now)]
  }

  function SetSpec(N: nat, B: nat, es: seq<Entry>, key: nat, d: seq<Byte>, now: int): seq<Entry>
    requires B > 0
  {
    if key == 0 then es
    else
      var r := Store(N, DropEntry(es, key), [], Chunks(B, d));
      WithOwn(r.0, key, r.1, now)
  }

  datatype Reply = Ok(data: seq<Byte>) | NoExist | Timeout

  predicate Expired(e: Entry, now: int, timeout: nat) {
    now - e.uptime > timeout
  }

  function GetReply(es: seq<Entry>, key: nat, now: int, timeout: nat): Reply {
    if !HasKey(es, key) then NoExist
    else if Expired(Find(es, key), now, timeout) then Timeout
    else Ok(Flat(Find(es, key).chunks))
  }

  function GetSpec(es: seq<Entry>, key: nat, now: int, timeout: nat): seq<Entry> {
    if !HasKey(es, key) then es
    else if Expired(Find(es, key), now, timeout) then DropEntry(es, key)
    else DropEntry(es, key) + [Find(es, key)]
  }

  // ---------------------------------------------------------------- what Store keeps

  /** The shortest eviction of least recently used entries that leaves at most room blocks. */
  function EvictTo(es: seq<Entry>, room: nat): (r: seq<Entry>) {
    if Blocks(es) <= room then es else EvictTo(es[1..], room)
  }

  lemma {:induction false} EvictToShortest(es: seq<Entry>, room: nat) returns (m: nat)
    ensures m <= |es| && EvictTo(es, room) == es[m..]
    ensures Blocks(es[m..]) <= room
    ensures forall j :: 0 <= j < m ==> Blocks(es[j..]) > room
  {
    if Blocks(es) <= room {
      assert es[0..] == es;
      m := 0;
    } else {
      var m' := EvictToShortest(es[1..], room);
      m := m' + 1;
      assert es[1..][m'..] == es[m..];
      forall j | 0 <= j < m
        ensures Blocks(es[j..]) > room
      {
        if j == 0 {
          assert es[0..] == es;
        } else {
          assert es[1..][j - 1..] == es[j..];
        }
      }
    }
  }

  /** What is left of the blocks of a value stored in N-block rounds, each wiping the last. */
  function LastRound(N: nat, cs: seq<seq<Byte>>): seq<seq<Byte>>
    requires N > 0
  {
    if |cs| <= N then cs else LastRound(N, cs[N..])
  }

  predicate Solid(es: seq<Entry>) {
    forall i :: 0 <= i < |es| ==> es[i].chunks != []
  }

  /** A value that fits is stored whole, after the shortest eviction that makes room. */
  lemma {:induction false} StoreFits(N: nat, rest: seq<Entry>, own: seq<seq<Byte>>, cs: seq<seq<Byte>>)
    requires Solid(rest) && Blocks(rest) + |own| <= N
    requires |own| + |cs| <= N
    ensures Store(N, rest, own, cs) == (EvictTo(rest, N - |own| - |cs|), own + cs)
    decreases |cs|
  {
    if cs == [] {
      assert own + cs == own;
    } else {
      assert own + [cs[0]] + cs[1..] == own + cs;
      StoreFits(N, if Blocks(rest) + |own| < N then rest else rest[1..], own + [cs[0]], cs[1..]);
    }
  }

  /** A value that does not fit wipes every other entry and then its own earlier rounds. */
  lemma {:induction false} StoreWraps(N: nat, rest: seq<Entry>, own: seq<seq<Byte>>, cs: seq<seq<Byte>>)
    requires N > 0 && Solid(rest) && Blocks(rest) + |own| <= N < |own| + |cs|
    ensures Store(N, rest, own, cs) == ([], LastRound(N, own + cs))
    decreases |cs|
  {
    assert own + [cs[0]] + cs[1..] == own + cs;
    if Blocks(rest) + |own| < N {
      StoreWraps(N, rest, own + [cs[0]], cs[1..]);
    } else if rest != [] {
      StoreWraps(N, rest[1..], own + [cs[0]], cs[1..]);
    } else {
      assert (own + cs)[N..] == cs == [cs[0]] + cs[1..];
      if |cs| <= N {
        StoreFits(N, [], [cs[0]], cs[1..]);
      } else {
        StoreWraps(N, [], [cs[0]], cs[1..]);
      }
    }
  }

  // ---------------------------------------------------------------- values and blocks

  /** The bytes that survive storing d in an area of cap bytes. */
  function TailRound(cap: nat, d: seq<Byte>): (r: seq<Byte>)
    requires cap > 0
    ensures |r| <= cap
    ensures r == d <==> |d| <= cap
    ensures d != [] ==> r != []
    decreases |d|
  {
    if |d| <= cap then d else TailRound(cap, d[cap..])
  }

  /** The bytes that fill an area of cap bytes a number of times. */
  function Filled(rounds: nat, cap: nat): nat {
    if rounds == 0 then 0 else Filled(rounds - 1, cap) + cap
  }

  /** They are the last ones, and those before them fill the area a whole number of times. */
  lemma {:induction false} TailRoundBytes(cap: nat, d: seq<Byte>) returns (rounds: nat)
    requires cap > 0 && d != []
    ensures var r := TailRound(cap, d);
            && 0 < |r| <= cap && |d| == Filled(rounds, cap) + |r| && r == d[|d| - |r|..]
    decreases |d|
  {
    if |d| <= cap {
      rounds := 0;
    } else {
      var t := d[cap..];
      var k := TailRoundBytes(cap, t);
      rounds := k + 1;
      assert TailRound(cap, d) == TailRound(cap, t) && Filled(rounds, cap) == Filled(k, cap) + cap;
      hide TailRound, Filled;
      var r := TailRound(cap, t);
      assert t[|t| - |r|..] == d[|d| - |r|..];
    }
  }

  lemma {:induction false} ConcatChunks(B: nat, d: seq<Byte>)
    requires B > 0
    ensures Flat(Chunks(B, d)) == d
    decreases |d|
  {
    if d != [] {
      if |d| <= B {
        assert [d][1..] == [];
      } else {
        ConcatChunks(B, d[B..]);
        var cs := Chunks(B, d);
        assert cs[1..] == Chunks(B, d[B..]);
        assert d == d[..B] + d[B..];
      }
    }
  }

  /** The number of blocks of a value is its length over B, rounded up. */
  lemma {:induction false} ChunksCount(B: nat, d: seq<Byte>)
    requires B > 0
    ensures |d| <= |Chunks(B, d)| * B
    ensures d != [] ==> (|Chunks(B, d)| - 1) * B < |d|
    decreases |d|
  {
    if |d| > B {
      ChunksCount(B, d[B..]);
      var c := |Chunks(B, d[B..])|;
      assert (c + 1) * B == c * B + B;
      assert c * B == (c - 1) * B + B;
    }
  }

  lemma FitsIff(N: nat, B: nat, d: seq<Byte>)
    requires B > 0
    ensures |Chunks(B, d)| <= N <==> |d| <= N * B
  {
    ChunksCount(B, d);
    var c := |Chunks(B, d)|;
    if c <= N {
      MulLe(c, N, B);
    } else {
      MulLe(N, c - 1, B);
    }
  }

  lemma MulLe(a: nat, b: nat, c: nat)
    requires a <= b
    ensures a * c <= b * c
  {
    assert (b - a) * c >= 0;
    assert b * c == a * c + (b - a) * c;
  }

  lemma {:induction false} ChunksDrop(N: nat, B: nat, d: seq<Byte>)
    requires B > 0 && N * B <= |d|
    ensures N <= |Chunks(B, d)|
    ensures Chunks(B, d)[N..] == Chunks(B, d[N * B..])
    decreases N
  {
    if N == 0 {
      assert d[0..] == d;
      assert Chunks(B, d)[0..] == Chunks(B, d);
    } else {
      assert N * B == (N - 1) * B + B;
      assert (N - 1) * B >= 0 by { MulLe(0, N - 1, B); }
      if |d| == B {
        assert (N - 1) * B == 0;
        if N > 1 { MulLe(1, N - 1, B); }
        assert d[N * B..] == [];
      } else {
        ChunksDrop(N - 1, B, d[B..]);
        assert d[B..][(N - 1) * B..] == d[N * B..];
        assert Chunks(B, d)[1..] == Chunks(B, d[B..]);
        assert Chunks(B, d)[N..] == Chunks(B, d)[1..][N - 1..];
      }
    }
  }

  lemma {:induction false} LastRoundBytes(N: nat, B: nat, d: seq<Byte>)
    requires N > 0 && B > 0 && N * B > 0
    ensures LastRound(N, Chunks(B, d)) == Chunks(B, TailRound(N * B, d))
    decreases |d|
  {
    FitsIff(N, B, d);
    if |d| > N * B {
      ChunksDrop(N, B, d);
      LastRoundBytes(N, B, d[N * B..]);
    }
  }

  // ---------------------------------------------------------------- invariant of the entries

  /** No two entries have the same key. */
  ghost predicate Distinct(es: seq<Entry>) {
    forall i, j :: 0 <= i < j < |es| ==> es[i].key != es[j].key
  }

  /** What every reachable content satisfies. */
  ghost predicate EntriesOk(es: seq<Entry>, N: nat, B: nat)
    requires B > 0
  {
    && Blocks(es) <= N
    && Distinct(es)
    && (forall i :: 0 <= i < |es| ==> EntryOk(es[i], B))
  }

  ghost predicate EntryOk(e: Entry, B: nat)
    requires B > 0
  {
    e.key != 0 && e.chunks != [] && e.chunks == Chunks(B, Flat(e.chunks))
  }

  lemma {:induction false} DropEntryMembers(es: seq<Entry>, k: nat)
    ensures forall e :: e in DropEntry(es, k) <==> e in es && e.key != k
    ensures !HasKey(es, k) ==> DropEntry(es, k) == es
  {
    if es != [] {
      var t := es[1..];
      assert es == [es[0]] + t;
      DropEntryMembers(t, k);
      if HasKey(t, k) {
        var i :| 0 <= i < |t| && t[i].key == k;
        assert es[i + 1].key == k;
      }
    }
  }

  lemma {:induction false} DropEntryDistinct(es: seq<Entry>, k: nat)
    requires Distinct(es)
    ensures Distinct(DropEntry(es, k))
  {
    if es != [] {
      var t, r := es[1..], DropEntry(es[1..], k);
      DropEntryDistinct(t, k);
      DropEntryMembers(t, k);
      forall j | 0 <= j < |r|
        ensures r[j].key != es[0].key
      {
        assert r[j] in t;
      }
    }
  }

  lemma HasKeyCons(es: seq<Entry>, k: nat)
    requires es != []
    ensures HasKey(es, k) <==> es[0].key == k || HasKey(es[1..], k)
  {
    var t := es[1..];
    if HasKey(t, k) {
      var i :| 0 <= i < |t| && t[i].key == k;
      assert es[i + 1].key == k;
    }
    if HasKey(es, k) {
      var i :| 0 <= i < |es| && es[i].key == k;
      assert i > 0 ==> t[i - 1].key == k;
    }
  }

  lemma {:induction false} FindUnique(es: seq<Entry>, e: Entry)
    requires Distinct(es) && e in es
    ensures HasKey(es, e.key) && Find(es, e.key) == e
  {
    var i :| 0 <= i < |es| && es[i] == e;
    if es[0] != e {
      var t := es[1..];
      assert t[i - 1] == e;
      FindUnique(t, e);
      HasKeyCons(es, e.key);
    }
  }

  /** No two entries of a sequence of blocks have the same key. */
  lemma {:induction false} EntriesDistinct(s: seq<Block>)
    ensures Distinct(Entries(s))
    decreases |s|
  {
    if s != [] {
      var k := s[0].key;
      var rest := Entries(Drop(s, k));
      EntriesDistinct(Drop(s, k));
      EntriesFind(Drop(s, k), k);
      FilterFilter(s, k, k);
      assert forall i :: 0 <= i < |rest| ==> rest[i].key != k;
      assert Entries(s)[1..] == rest;
    }
  }

  lemma {:induction false} DropEntryAppend(a: seq<Entry>, b: seq<Entry>, k: nat)
    ensures DropEntry(a + b, k) == DropEntry(a, k) + DropEntry(b, k)
  {
    if a == [] {
      assert a + b == b;
    } else {
      assert (a + b)[1..] == a[1..] + b;
      DropEntryAppend(a[1..], b, k);
    }
  }

  /** Dropping a key takes out its entry and leaves the others in their order. */
  lemma DropEntryExact(a: seq<Entry>, e: Entry, b: seq<Entry>)
    requires Distinct(a + [e] + b)
    ensures DropEntry(a + [e] + b, e.key) == a + b
  {
    hide DropEntry, HasKey, Distinct;
    OtherKeys(a, e, b);
    DropEntryMembers(b, e.key);
    DropAt(a, e, b);
  }

  lemma {:induction false} DropAt(a: seq<Entry>, e: Entry, b: seq<Entry>)
    requires !HasKey(a, e.key) && DropEntry(b, e.key) == b
    ensures DropEntry(a + [e] + b, e.key) == a + b
  {
    hide DropEntry, HasKey;
    if a == [] {
      assert a + [e] + b == [e] + b && a + b == b;
      DropCons(e, b, e.key);
    } else {
      HasKeyCons(a, e.key);
      DropAt(a[1..], e, b);
      assert a + [e] + b == [a[0]] + (a[1..] + [e] + b) && a + b == [a[0]] + (a[1..] + b);
      DropCons(a[0], a[1..] + [e] + b, e.key);
    }
  }

  lemma DropCons(x: Entry, t: seq<Entry>, k: nat)
    ensures DropEntry([x] + t, k) == if x.key == k then DropEntry(t, k) else [x] + DropEntry(t, k)
  {
    assert ([x] + t)[1..] == t;
  }

  lemma OtherKeys(a: seq<Entry>, e: Entry, b: seq<Entry>)
    requires Distinct(a + [e] + b)
    ensures !HasKey(a, e.key) && !HasKey(b, e.key)
  {
    var es := a + [e] + b;
    forall i | 0 <= i < |a|
      ensures a[i].key != e.key
    {
      assert es[i].key != es[|a|].key;
    }
    forall i | 0 <= i < |b|
      ensures b[i].key != e.key
    {
      assert es[|a|].key != es[|a| + 1 + i].key;
    }
  }

  lemma {:induction false} DropEntryBlocks(es: seq<Entry>, k: nat)
    requires Distinct(es)
    ensures Blocks(DropEntry(es, k)) + (if HasKey(es, k) then |Find(es, k).chunks| else 0) == Blocks(es)
  {
    if es != [] {
      var t := es[1..];
      HasKeyCons(es, k);
      DropEntryBlocks(t, k);
      assert es[0].key != k ==> DropEntry(es, k)[1..] == DropEntry(t, k);
    }
  }

  lemma DropEntryOk(es: seq<Entry>, k: nat, N: nat, B: nat)
    requires B > 0 && EntriesOk(es, N, B)
    ensures EntriesOk(DropEntry(es, k), N, B)
    ensures !HasKey(DropEntry(es, k), k)
  {
    DropEntryMembers(es, k);
    DropEntryDistinct(es, k);
    DropEntryBlocks(es, k);
    var r := DropEntry(es, k);
    forall i | 0 <= i < |r|
      ensures EntryOk(r[i], B)
      ensures r[i].key != k
    {
      assert r[i] in r;
    }
  }

  lemma {:induction false} BlocksAppend(a: seq<Entry>, b: seq<Entry>)
    ensures Blocks(a + b) == Blocks(a) + Blocks(b)
  {
    if a == [] {
      assert a + b == b;
    } else {
      assert (a + b)[1..] == a[1..] + b;
      BlocksAppend(a[1..], b);
    }
  }

  lemma AppendEntryOk(es: seq<Entry>, e: Entry, N: nat, B: nat)
    requires B > 0 && EntriesOk(es, N, B) && EntryOk(e, B)
    requires !HasKey(es, e.key)
    requires Blocks(es) + |e.chunks| <= N
    ensures EntriesOk(es + [e], N, B)
  {
    BlocksAppend(es, [e]);
    assert [e][1..] == [];
  }

  lemma SuffixKeys(es: seq<Entry>, m: nat, k: nat)
    requires m <= |es| && HasKey(es[m..], k)
    ensures HasKey(es, k)
  {
    var i :| 0 <= i < |es[m..]| && es[m..][i].key == k;
    assert es[m + i].key == k;
  }

  lemma SuffixOk(es: seq<Entry>, m: nat, N: nat, B: nat)
    requires B > 0 && EntriesOk(es, N, B) && m <= |es|
    ensures EntriesOk(es[m..], N, B)
    ensures forall k :: !HasKey(es, k) ==> !HasKey(es[m..], k)
  {
    hide Blocks, EntryOk, HasKey;
    BlocksAppend(es[..m], es[m..]);
    assert es == es[..m] + es[m..];
    forall k | HasKey(es[m..], k)
      ensures HasKey(es, k)
    {
      SuffixKeys(es, m, k);
    }
  }

  lemma EmptyOk(N: nat, B: nat, k: nat)
    requires B > 0
    ensures EntriesOk([], N, B) && !HasKey([], k)
  {
  }
}

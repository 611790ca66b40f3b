/** The two operations that visit every hash chain: the expiry sweep and the statistics. */
module CacheSweep {
  import opened CacheModel
  import opened CacheShape
  import opened Slices

  // ---------------------------------------------------------------- statistics

  /** Blocks in use, bytes stored and number of keys. */
  datatype Stat = Stat(blocks: nat, bytes: nat, keys: nat)

  function Plus(s: Stat, t: Stat): Stat {
    Stat(s.blocks + t.blocks, s.bytes + t.bytes, s.keys + t.keys)
  }

  function DataBytes(c: seq<Block>): nat {
    if c == [] then 0 else |c[0].data| + DataBytes(c[1..])
  }

  /** How often the key changes along a chain, pre being the key before it. */
  function Runs(c: seq<Block>, pre: nat): nat {
    if c == [] then 0 else (if c[0].key != pre then 1 else 0) + Runs(c[1..], c[0].key)
  }

  function ChainStat(c: seq<Block>): Stat {
    Stat(|c|, DataBytes(c), Runs(c, 0))
  }

  function ChainsStat(chain: seq<seq<Block>>, n: nat): Stat
    requires n <= |chain|
  {
    if n == 0 then Stat(0, 0, 0) else Plus(ChainsStat(chain, n - 1), ChainStat(chain[n - 1]))
  }

  function EntryBytes(es: seq<Entry>): nat {
    if es == [] then 0 else |Flat(es[0].chunks)| + EntryBytes(es[1..])
  }

  function EntriesStat(es: seq<Entry>): Stat {
    Stat(Blocks(es), EntryBytes(es), |es|)
  }

  lemma StatFields(es: seq<Entry>)
    ensures var s := EntriesStat(es); s.blocks == Blocks(es) && s.bytes == EntryBytes(es) && s.keys == |es|
  {
  }

  ghost predicate Sorted(c: seq<Block>) {
    forall i, j :: 0 <= i < j < |c| ==> c[i].key <= c[j].key
  }

  lemma {:induction false} DropSorted(c: seq<Block>, k: nat)
    requires Sorted(c)
    ensures Sorted(Drop(c, k))
  {
    if c != [] {
      DropSorted(c[1..], k);
      var d := Drop(c[1..], k);
      forall i | 0 <= i < |d|
        ensures c[0].key <= d[i].key
      {
        FilterMembers(c[1..], k, d[i]);
      }
    }
  }

  lemma {:induction false} BytesSplit(c: seq<Block>, k: nat)
    ensures DataBytes(c) == DataBytes(Keep(c, k)) + DataBytes(Drop(c, k))
  {
    if c != [] {
      BytesSplit(c[1..], k);
      assert c[0].key == k ==> Keep(c, k)[1..] == Keep(c[1..], k);
      assert c[0].key != k ==> Drop(c, k)[1..] == Drop(c[1..], k);
    }
  }

  lemma {:induction false} BytesConcat(c: seq<Block>)
    ensures DataBytes(c) == |Flat(Datas(c))|
  {
    if c != [] {
      BytesConcat(c[1..]);
      assert Datas(c)[1..] == Datas(c[1..]);
    }
  }

  lemma RunsPre(c: seq<Block>, pre: nat, pre': nat)
    requires c != [] ==> c[0].key != pre && c[0].key != pre'
    ensures Runs(c, pre) == Runs(c, pre')
  {
  }

  /** In a sorted chain a key accounts for exactly one run. */
  lemma {:induction false} RunsDrop(c: seq<Block>, pre: nat, k: nat)
    requires Sorted(c) && (forall i :: 0 <= i < |c| ==> pre <= c[i].key)
    ensures Runs(c, pre) == Runs(Drop(c, k), pre) + (if Keep(c, k) != [] && pre != k then 1 else 0)
  {
    if c != [] {
      RunsDrop(c[1..], c[0].key, k);
      if c[0].key == k {
        var d := Drop(c[1..], k);
        if d != [] {
          FilterMembers(c[1..], k, d[0]);
          RunsPre(d, pre, k);
        }
      } else {
        assert Drop(c, k)[1..] == Drop(c[1..], k);
        if pre == k {
          FilterNone(c[1..], k);
        }
      }
    }
  }

  lemma {:induction false} ChainsStatUpdate(chain: seq<seq<Block>>, n: nat, h: nat, c: seq<Block>, gone: Stat)
    requires n <= |chain| && h < |chain|
    requires ChainStat(chain[h]) == Plus(ChainStat(c), gone)
    ensures ChainsStat(chain, n) == if h < n then Plus(ChainsStat(chain[h := c], n), gone)
            else ChainsStat(chain[h := c], n)
  {
    hide ChainStat;
    if n > 0 {
      ChainsStatUpdate(chain, n - 1, h, c, gone);
      assert chain[h := c][n - 1] == if n - 1 == h then c else chain[n - 1];
    }
  }

  /** The part of the shape the statistics rely on. */
  ghost predicate Chained(H: nat, used: seq<Block>, chain: seq<seq<Block>>)
    requires |chain| == H > 0
  {
    && (forall q :: 0 <= q < |used| ==> used[q].key != 0)
    && (forall h {:trigger Sorted(chain[h])} :: 0 <= h < H ==>
          Sorted(chain[h]) && forall i :: 0 <= i < |chain[h]| ==> chain[h][i].key % H == h && chain[h][i] in used)
    && (forall k: nat :: SameFilter(H, chain, used, k))
  }

  lemma ShapeChained(H: nat, used: seq<Block>, chain: seq<seq<Block>>)
    requires H > 0 && Shape(H, used, chain)
    ensures Chained(H, used, chain)
  {
    forall h | 0 <= h < H
      ensures Sorted(chain[h]) && forall i :: 0 <= i < |chain[h]| ==> chain[h][i].key % H == h && chain[h][i] in used
    {
      assert ChainOk(H, h, chain[h], used);
    }
  }

  lemma ChainedDrop(H: nat, used: seq<Block>, chain: seq<seq<Block>>, k: nat)
    requires |chain| == H > 0 && Chained(H, used, chain)
    ensures Chained(H, Drop(used, k), chain[k % H := Drop(chain[k % H], k)])
  {
    var g := k % H;
    var used', chain' := Drop(used, k), chain[g := Drop(chain[g], k)];
    forall q | 0 <= q < |used'|
      ensures used'[q].key != 0
    {
      FilterMembers(used, k, used'[q]);
    }
    forall h | 0 <= h < H
      ensures Sorted(chain'[h])
      ensures forall i :: 0 <= i < |chain'[h]| ==> chain'[h][i].key % H == h && chain'[h][i] in used'
    {
      assert Sorted(chain[h]);
      DropSorted(chain[h], k);
      forall i | 0 <= i < |chain'[h]|
        ensures chain'[h][i].key % H == h && chain'[h][i] in used'
      {
        FilterMembers(chain[h], k, chain'[h][i]);
        FilterMembers(used, k, chain'[h][i]);
      }
    }
    forall j: nat
      ensures SameFilter(H, chain', used', j)
    {
      assert SameFilter(H, chain, used, j);
      FilterFilter(used, k, j);
      FilterFilter(chain[g], k, j);
    }
  }

  lemma {:induction false} NoChains(H: nat, chain: seq<seq<Block>>, n: nat)
    requires |chain| == H > 0 && Chained(H, [], chain) && n <= H
    ensures ChainsStat(chain, n) == Stat(0, 0, 0)
  {
    if n > 0 {
      NoChains(H, chain, n - 1);
      assert Sorted(chain[n - 1]);
    }
  }

  /** Counting along the chains gives the totals over the stored entries. */
  lemma {:induction false} StatsAgree(H: nat, used: seq<Block>, chain: seq<seq<Block>>)
    requires |chain| == H > 0 && Chained(H, used, chain)
    ensures ChainsStat(chain, H) == EntriesStat(Entries(used))
    decreases |used|
  {
    if used == [] {
      NoChains(H, chain, H);
    } else {
      var k := used[0].key;
      var c, own := chain[k % H], Keep(used, k);
      ChainedDrop(H, used, chain, k);
      StatsAgree(H, Drop(used, k), chain[k % H := Drop(c, k)]);
      assert SameFilter(H, chain, used, k);
      assert Sorted(c);
      RunsDrop(c, 0, k);
      BytesSplit(c, k);
      BytesConcat(own);
      KeepDropLength(c, k);
      ChainsStatUpdate(chain, H, k % H, Drop(c, k), Stat(|own|, DataBytes(own), 1));
      assert Entries(used)[1..] == Entries(Drop(used, k));
    }
  }

  // ---------------------------------------------------------------- the expiry sweep

  predicate NodeExpired(n: Block, now: int, timeout: nat) {
    now - n.uptime > timeout
  }

  /** The keys the sweep deletes along one chain. Deleting a key of several blocks ends it:
      the walk goes on from the key's second block, which was just taken out of the chain. */
  function Sweep(c: seq<Block>, now: int, timeout: nat): seq<nat> {
    if c == [] then []
    else if !NodeExpired(c[0], now, timeout) then Sweep(c[1..], now, timeout)
    else if |c| > 1 && c[1].key == c[0].key then [c[0].key]
    else [c[0].key] + Sweep(c[1..], now, timeout)
  }

  function DropAll(s: seq<Block>, ks: seq<nat>): seq<Block>
    decreases |ks|
  {
    if ks == [] then s else DropAll(Drop(s, ks[0]), ks[1..])
  }

  /** Whether the sweep deletes entry e of the content es: no expired key of several blocks
      comes before it in its bucket. */
  ghost predicate Swept(es: seq<Entry>, e: Entry, H: nat, now: int, timeout: nat)
    requires H > 0
  {
    && Expired(e, now, timeout)
    && forall f :: f in es && f.key % H == e.key % H && f.key < e.key && Expired(f, now, timeout) ==> |f.chunks| == 1
  }

  /** The entries of part that a sweep of es leaves. */
  ghost function Unswept(part: seq<Entry>, es: seq<Entry>, H: nat, now: int, timeout: nat): seq<Entry>
    requires H > 0
  {
    if part == [] then []
    else if Swept(es, part[0], H, now, timeout) then Unswept(part[1..], es, H, now, timeout)
    else [part[0]] + Unswept(part[1..], es, H, now, timeout)
  }

  function DropKeys(es: seq<Entry>, ks: seq<nat>): seq<Entry> {
    if es == [] then []
    else if es[0].key in ks then DropKeys(es[1..], ks)
    else [es[0]] + DropKeys(es[1..], ks)
  }

  /** Nodes of one key expire together. */
  ghost predicate SameUptimes(c: seq<Block>) {
    forall i, j :: 0 <= i < |c| && 0 <= j < |c| && c[i].key == c[j].key ==> c[i].uptime == c[j].uptime
  }

  ghost predicate HasExpired(c: seq<Block>, k: nat, now: int, timeout: nat) {
    exists i :: 0 <= i < |c| && c[i].key == k && NodeExpired(c[i], now, timeout)
  }

  /** An expired key of several blocks comes before k. */
  ghost predicate Blocked(c: seq<Block>, k: nat, now: int, timeout: nat) {
    exists i :: 0 <= i < |c| && c[i].key < k && NodeExpired(c[i], now, timeout) && |Keep(c, c[i].key)| != 1
  }

  lemma BlockedShift(c: seq<Block>, k: nat, now: int, timeout: nat)
    requires c != []
    requires forall i :: 0 < i < |c| && NodeExpired(c[i], now, timeout) ==> c[i].key != c[0].key
    requires NodeExpired(c[0], now, timeout) ==> |Keep(c, c[0].key)| == 1
    ensures Blocked(c, k, now, timeout) <==> Blocked(c[1..], k, now, timeout)
  {
    var t := c[1..];
    if Blocked(c, k, now, timeout) {
      var i :| 0 <= i < |c| && c[i].key < k && NodeExpired(c[i], now, timeout) && |Keep(c, c[i].key)| != 1;
      assert t[i - 1] == c[i] && |Keep(t, t[i - 1].key)| != 1;
    }
    if Blocked(t, k, now, timeout) {
      var i :| 0 <= i < |t| && t[i].key < k && NodeExpired(t[i], now, timeout) && |Keep(t, t[i].key)| != 1;
      assert c[i + 1] == t[i] && |Keep(c, c[i + 1].key)| != 1;
    }
  }

  lemma HasExpiredShift(c: seq<Block>, k: nat, now: int, timeout: nat)
    requires c != []
    ensures HasExpired(c, k, now, timeout) <==>
            (c[0].key == k && NodeExpired(c[0], now, timeout)) || HasExpired(c[1..], k, now, timeout)
  {
    var t := c[1..];
    if HasExpired(t, k, now, timeout) {
      var i :| 0 <= i < |t| && t[i].key == k && NodeExpired(t[i], now, timeout);
      assert c[i + 1] == t[i];
    }
    if HasExpired(c, k, now, timeout) {
      var i :| 0 <= i < |c| && c[i].key == k && NodeExpired(c[i], now, timeout);
      assert i > 0 ==> t[i - 1] == c[i];
    }
  }

  /** Which keys a sweep of one chain deletes. */
  lemma {:induction false} SweepMember(c: seq<Block>, k: nat, now: int, timeout: nat)
    requires Sorted(c) && SameUptimes(c)
    ensures k in Sweep(c, now, timeout) <==> HasExpired(c, k, now, timeout) && !Blocked(c, k, now, timeout)
  {
    if c != [] {
      var t, k0 := c[1..], c[0].key;
      SweepMember(t, k, now, timeout);
      HasExpiredShift(c, k, now, timeout);
      if NodeExpired(c[0], now, timeout) && |c| > 1 && c[1].key == k0 {
        assert Keep(c, k0) == [c[0], c[1]] + Keep(c[2..], k0);
      } else {
        if NodeExpired(c[0], now, timeout) {
          FilterNone(t, k0);
        }
        BlockedShift(c, k, now, timeout);
      }
    }
  }

  /** An entry is what its key's nodes say, and every node has its entry. */
  lemma {:induction false} EntriesMembers(s: seq<Block>, e: Entry)
    ensures e in Entries(s) <==>
            Keep(s, e.key) != [] && e == Entry(e.key, Datas(Keep(s, e.key)), Keep(s, e.key)[0].uptime)
    decreases |s|
  {
    if s != [] {
      var k0 := s[0].key;
      EntriesMembers(Drop(s, k0), e);
      FilterFilter(s, k0, e.key);
      var e0 := Entry(k0, Datas(Keep(s, k0)), s[0].uptime);
      assert Entries(s) == [e0] + Entries(Drop(s, k0));
    }
  }

  lemma ChainUptimes(H: nat, used: seq<Block>, chain: seq<seq<Block>>, h: int)
    requires H > 0 && Shape(H, used, chain) && 0 <= h < H
    ensures Sorted(chain[h]) && SameUptimes(chain[h])
  {
    assert ChainOk(H, h, chain[h], used);
  }

  lemma ExpiredIff(H: nat, used: seq<Block>, chain: seq<seq<Block>>, e: Entry, now: int, timeout: nat)
    requires H > 0 && Shape(H, used, chain) && e in Entries(used)
    ensures HasExpired(chain[e.key % H], e.key, now, timeout) <==> Expired(e, now, timeout)
  {
    var k, c := e.key, chain[e.key % H];
    EntriesMembers(used, e);
    assert SameFilter(H, chain, used, k);
    ChainUptimes(H, used, chain, k % H);
    var n := Keep(c, k)[0];
    FilterMembers(c, k, n);
    var i :| 0 <= i < |c| && c[i] == n;
    if Expired(e, now, timeout) {
      assert c[i].key == k && NodeExpired(c[i], now, timeout);
    }
  }

  lemma BlockedEntry(H: nat, used: seq<Block>, chain: seq<seq<Block>>, k: nat, now: int, timeout: nat)
    requires H > 0 && Shape(H, used, chain) && Blocked(chain[k % H], k, now, timeout)
    ensures exists f :: && f in Entries(used) && f.key % H == k % H && f.key < k
                        && Expired(f, now, timeout) && |f.chunks| != 1
  {
    var c := chain[k % H];
    assert ChainOk(H, k % H, c, used);
    var i :| 0 <= i < |c| && c[i].key < k && NodeExpired(c[i], now, timeout) && |Keep(c, c[i].key)| != 1;
    var j := c[i].key;
    assert SameFilter(H, chain, used, j);
    FilterMembers(used, j, c[i]);
    var f := Entry(j, Datas(Keep(used, j)), Keep(used, j)[0].uptime);
    EntriesMembers(used, f);
    FilterMembers(used, j, Keep(used, j)[0]);
    assert f in Entries(used) && f.key % H == k % H;
  }

  lemma EntryBlocks(H: nat, used: seq<Block>, chain: seq<seq<Block>>, k: nat, now: int, timeout: nat, f: Entry)
    requires H > 0 && Shape(H, used, chain)
    requires f in Entries(used) && f.key % H == k % H && f.key < k && Expired(f, now, timeout) && |f.chunks| != 1
    ensures Blocked(chain[k % H], k, now, timeout)
  {
    var c := chain[k % H];
    EntriesMembers(used, f);
    assert SameFilter(H, chain, used, f.key);
    var n := Keep(c, f.key)[0];
    FilterMembers(c, f.key, n);
    var i :| 0 <= i < |c| && c[i] == n;
    assert c[i].key < k && NodeExpired(c[i], now, timeout) && |Keep(c, c[i].key)| != 1;
  }

  lemma BlockedIff(H: nat, used: seq<Block>, chain: seq<seq<Block>>, k: nat, now: int, timeout: nat)
    requires H > 0 && Shape(H, used, chain)
    ensures Blocked(chain[k % H], k, now, timeout) <==>
            exists f :: && f in Entries(used) && f.key % H == k % H && f.key < k
                        && Expired(f, now, timeout) && |f.chunks| != 1
  {
    if Blocked(chain[k % H], k, now, timeout) {
      BlockedEntry(H, used, chain, k, now, timeout);
    }
    if f :| f in Entries(used) && f.key % H == k % H && f.key < k && Expired(f, now, timeout) && |f.chunks| != 1 {
      EntryBlocks(H, used, chain, k, now, timeout, f);
    }
  }

  lemma SweptIff(H: nat, used: seq<Block>, chain: seq<seq<Block>>, e: Entry, now: int, timeout: nat)
    requires H > 0 && Shape(H, used, chain) && e in Entries(used)
    ensures e.key in Sweep(chain[e.key % H], now, timeout) <==> Swept(Entries(used), e, H, now, timeout)
  {
    ChainUptimes(H, used, chain, e.key % H);
    SweepMember(chain[e.key % H], e.key, now, timeout);
    ExpiredIff(H, used, chain, e, now, timeout);
    BlockedIff(H, used, chain, e.key, now, timeout);
    forall f | f in Entries(used)
      ensures f.chunks != []
    {
      EntriesMembers(used, f);
    }
  }

  // ---------------------------------------------------------------- all buckets together

  /** The keys deleted by sweeping the first n buckets. */
  function SweepUpTo(chain: seq<seq<Block>>, n: nat, now: int, timeout: nat): seq<nat>
    requires n <= |chain|
  {
    if n == 0 then [] else SweepUpTo(chain, n - 1, now, timeout) + Sweep(chain[n - 1], now, timeout)
  }

  lemma {:induction false} SweepUpToMember(chain: seq<seq<Block>>, n: nat, k: nat, now: int, timeout: nat)
    requires n <= |chain|
    ensures k in SweepUpTo(chain, n, now, timeout) <==> exists h :: 0 <= h < n && k in Sweep(chain[h], now, timeout)
  {
    if n > 0 {
      SweepUpToMember(chain, n - 1, k, now, timeout);
    }
  }

  lemma {:induction false} DropAllAppend(s: seq<Block>, a: seq<nat>, b: seq<nat>)
    ensures DropAll(s, a + b) == DropAll(DropAll(s, a), b)
    decreases |a|
  {
    if a == [] {
      assert a + b == b;
    } else {
      assert (a + b)[1..] == a[1..] + b;
      DropAllAppend(Drop(s, a[0]), a[1..], b);
    }
  }

  lemma {:induction false} DropKeysCons(es: seq<Entry>, k: nat, ks: seq<nat>)
    ensures DropKeys(DropEntry(es, k), ks) == DropKeys(es, [k] + ks)
  {
    if es != [] {
      DropKeysCons(es[1..], k, ks);
    }
  }

  lemma {:induction false} DropKeysNone(es: seq<Entry>)
    ensures DropKeys(es, []) == es
  {
    if es != [] {
      DropKeysNone(es[1..]);
    }
  }

  lemma {:induction false} EntriesDropAll(s: seq<Block>, ks: seq<nat>)
    ensures Entries(DropAll(s, ks)) == DropKeys(Entries(s), ks)
    decreases |ks|
  {
    if ks == [] {
      DropKeysNone(Entries(s));
    } else {
      EntriesDropAll(Drop(s, ks[0]), ks[1..]);
      EntriesDrop(s, ks[0]);
      DropKeysCons(Entries(s), ks[0], ks[1..]);
      assert [ks[0]] + ks[1..] == ks;
    }
  }

  lemma {:induction false} DropKeysUnswept(part: seq<Entry>, es: seq<Entry>, ks: seq<nat>, H: nat, now: int,
                                           timeout: nat)
    requires H > 0
    requires forall e :: e in part ==> (e.key in ks <==> Swept(es, e, H, now, timeout))
    ensures DropKeys(part, ks) == Unswept(part, es, H, now, timeout)
  {
    if part != [] {
      assert forall e :: e in part[1..] ==> e in part;
      DropKeysUnswept(part[1..], es, ks, H, now, timeout);
    }
  }

  /** Sweeping every bucket leaves the entries that are not swept. */
  lemma SweepAll(H: nat, used: seq<Block>, chain: seq<seq<Block>>, now: int, timeout: nat)
    requires H > 0 && Shape(H, used, chain)
    ensures Entries(DropAll(used, SweepUpTo(chain, H, now, timeout))) ==
            Unswept(Entries(used), Entries(used), H, now, timeout)
  {
    var es, ks := Entries(used), SweepUpTo(chain, H, now, timeout);
    EntriesDropAll(used, ks);
    forall e | e in es
      ensures e.key in ks <==> Swept(es, e, H, now, timeout)
    {
      SweptIff(H, used, chain, e, now, timeout);
      SweepUpToMember(chain, H, e.key, now, timeout);
      forall h | 0 <= h < H && e.key in Sweep(chain[h], now, timeout)
        ensures h == e.key % H
      {
        ChainUptimes(H, used, chain, h);
        SweepMember(chain[h], e.key, now, timeout);
        assert ChainOk(H, h, chain[h], used);
      }
    }
    DropKeysUnswept(es, es, ks, H, now, timeout);
  }

  lemma {:induction false} UnsweptMember(part: seq<Entry>, es: seq<Entry>, H: nat, now: int, timeout: nat, e: Entry)
    requires H > 0
    ensures e in Unswept(part, es, H, now, timeout) <==> e in part && !Swept(es, e, H, now, timeout)
  {
    if part != [] {
      UnsweptMember(part[1..], es, H, now, timeout, e);
      assert part == [part[0]] + part[1..];
    }
  }

  /** The sweep never deletes a live entry, and it deletes every expired one exactly when no
      expired key of several blocks precedes another expired key in its bucket. */
  lemma SweepComplete(es: seq<Entry>, H: nat, now: int, timeout: nat)
    requires H > 0 && (forall e :: e in es ==> e.chunks != [])
    ensures forall e :: e in es && !Expired(e, now, timeout) ==> e in Unswept(es, es, H, now, timeout)
    ensures (forall e :: e in Unswept(es, es, H, now, timeout) ==> !Expired(e, now, timeout)) <==>
            (forall e, f | e in es && f in es && e.key % H == f.key % H && f.key < e.key ::
               Expired(e, now, timeout) && Expired(f, now, timeout) ==> |f.chunks| == 1)
  {
    var left := Unswept(es, es, H, now, timeout);
    forall e
      ensures e in left <==> e in es && !Swept(es, e, H, now, timeout)
    {
      UnsweptMember(es, es, H, now, timeout, e);
    }
    if e :| e in left && Expired(e, now, timeout) {
      assert e in es && !Swept(es, e, H, now, timeout);
    }
  }

  /** A sweep under way in chain pre + left: nothing in pre is expired. */
  ghost predicate Sweeping(pre: seq<Block>, left: seq<Block>, now: int, timeout: nat) {
    && Sorted(pre + left) && SameUptimes(pre + left)
    && forall i :: 0 <= i < |pre| ==> !NodeExpired(pre[i], now, timeout)
  }

  lemma SweepKeeps(pre: seq<Block>, left: seq<Block>, now: int, timeout: nat)
    requires Sweeping(pre, left, now, timeout) && left != [] && !NodeExpired(left[0], now, timeout)
    ensures Sweeping(pre + [left[0]], left[1..], now, timeout)
    ensures pre + [left[0]] + left[1..] == pre + left
    ensures Sweep(left, now, timeout) == Sweep(left[1..], now, timeout)
  {
    assert pre + [left[0]] + left[1..] == pre + left;
  }

  lemma LaterKeys(pre: seq<Block>, left: seq<Block>, i: nat)
    requires Sorted(pre + left) && 0 < i < |left| && left[1].key != left[0].key
    ensures left[i].key != left[0].key
  {
    var c := pre + left;
    assert c[|pre|] == left[0] && c[|pre| + 1] == left[1] && c[|pre| + i] == left[i];
  }

  lemma EarlierKeys(pre: seq<Block>, left: seq<Block>, now: int, timeout: nat, i: nat)
    requires Sweeping(pre, left, now, timeout) && left != [] && NodeExpired(left[0], now, timeout) && i < |pre|
    ensures pre[i].key != left[0].key
  {
    var c := pre + left;
    assert c[|pre|] == left[0] && c[i] == pre[i];
  }

  lemma DropUptimes(c: seq<Block>, k: nat)
    requires SameUptimes(c)
    ensures SameUptimes(Drop(c, k))
  {
    var d := Drop(c, k);
    forall i | 0 <= i < |d|
      ensures d[i] in c
    {
      FilterMembers(c, k, d[i]);
    }
  }

  lemma SweepDeletes(pre: seq<Block>, left: seq<Block>, now: int, timeout: nat)
    requires Sweeping(pre, left, now, timeout) && left != [] && NodeExpired(left[0], now, timeout)
    requires |left| > 1 ==> left[1].key != left[0].key
    ensures Drop(pre + left, left[0].key) == pre + left[1..]
    ensures Sweeping(pre, left[1..], now, timeout)
    ensures Sweep(left, now, timeout) == [left[0].key] + Sweep(left[1..], now, timeout)
  {
    var c, k := pre + left, left[0].key;
    forall i | 0 <= i < |pre|
      ensures pre[i].key != k
    {
      EarlierKeys(pre, left, now, timeout, i);
    }
    var t := left[1..];
    forall i | 0 <= i < |t|
      ensures t[i].key != k
    {
      LaterKeys(pre, left, i + 1);
    }
    FilterAppend(pre, left, k);
    FilterNone(pre, k);
    FilterNone(t, k);
    DropSorted(c, k);
    DropUptimes(c, k);
  }

  lemma SweepStart(H: nat, used: seq<Block>, chain: seq<seq<Block>>, h: int, now: int, timeout: nat)
    requires H > 0 && Shape(H, used, chain) && 0 <= h < H
    ensures Sweeping([], chain[h], now, timeout) && [] + chain[h] == chain[h]
  {
    ChainUptimes(H, used, chain, h);
    assert [] + chain[h] == chain[h];
  }

  lemma SweepStops(used: seq<Block>, left: seq<Block>, now: int, timeout: nat)
    requires |left| > 1 && NodeExpired(left[0], now, timeout) && left[1].key == left[0].key
    ensures DropAll(used, Sweep(left, now, timeout)) == Drop(used, left[0].key)
  {
    var k := left[0].key;
    assert Sweep(left, now, timeout) == [k];
    assert [k][1..] == [];
    assert DropAll(used, [k]) == DropAll(Drop(used, k), []);
  }

  lemma DropAllStep(used: seq<Block>, k: nat, ks: seq<nat>)
    ensures DropAll(used, [k] + ks) == DropAll(Drop(used, k), ks)
  {
    assert ([k] + ks)[1..] == ks;
  }

  lemma SweepEnd(used: seq<Block>, now: int, timeout: nat)
    ensures DropAll(used, Sweep([], now, timeout)) == used
  {
  }

  lemma SweepNone(used: seq<Block>, chain: seq<seq<Block>>, now: int, timeout: nat)
    ensures DropAll(used, SweepUpTo(chain, 0, now, timeout)) == used
  {
  }

  /** Key 0 marks free blocks; deleting it does nothing. */
  lemma DropZero(H: nat, used: seq<Block>, chain: seq<seq<Block>>)
    requires H > 0 && Shape(H, used, chain)
    ensures Drop(used, 0) == used && Drop(chain[0 % H], 0) == chain[0 % H]
    ensures chain[0 % H := chain[0 % H]] == chain
  {
    FilterNone(used, 0);
    assert ChainOk(H, 0 % H, chain[0 % H], used);
    FilterNone(chain[0 % H], 0);
  }
}

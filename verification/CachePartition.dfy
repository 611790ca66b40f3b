/** What the invariant says of the headers alone: one ring of all blocks with the free ones first, and
    chains that share out the others. */
module CachePartition {
  import opened Bytes
  import opened CacheModel
  import opened CacheShape
  import opened CacheLinks

  // ---------------------------------------------------------------- a permutation misses nothing

  ghost function Below(n: nat): (r: set<int>)
    ensures |r| == n
    ensures forall x :: x in r <==> 0 <= x < n
  {
    if n == 0 then {} else Below(n - 1) + {n - 1}
  }

  lemma {:induction false} DistinctSize(s: seq<int>)
    requires forall p, q :: 0 <= p < q < |s| ==> s[p] != s[q]
    ensures |set x | x in s| == |s|
  {
    if s != [] {
      var t := s[..|s| - 1];
      DistinctSize(t);
      assert (set x | x in s) == (set x | x in t) + {s[|s| - 1]};
    }
  }

  lemma {:induction false} SubsetSize(a: set<int>, b: set<int>)
    requires a <= b && |a| == |b|
    ensures a == b
  {
    assert b == a + (b - a) && |b - a| == |b| - |a|;
  }

  lemma PermOnto(lru: seq<int>, n: nat, i: int) returns (p: nat)
    requires Perm(lru, n) && 0 <= i < n
    ensures p < n && lru[p] == i
  {
    DistinctSize(lru);
    SubsetSize((set x | x in lru), Below(n));
    assert i in Below(n);
    p :| 0 <= p < |lru| && lru[p] == i;
  }

  // ---------------------------------------------------------------- the ring

  /** The block k steps along m_lru_next from i. */
  ghost function Ahead(b: seq<SBlockHead>, i: int, k: nat): int {
    if k == 0 then i
    else
      var j := Ahead(b, i, k - 1);
      if 0 <= j < |b| then b[j].m_lru_next else NIL
  }

  lemma {:induction false} AheadIs(b: seq<SBlockHead>, lru: seq<int>, head: int, tail: int, k: nat)
    requires LruOk(b, lru, head, tail) && k <= |lru|
    ensures Ahead(b, head, k) == lru[if k == |lru| then 0 else k]
  {
    if k > 0 {
      AheadIs(b, lru, head, tail, k - 1);
      assert RingLink(b, lru, k - 1);
    }
  }

  /** m_lru_next and m_lru_pre are inverse to each other on every block, and following m_lru_next
      from the head visits each block once, the tail last, and closes the circle. */
  lemma Ring(b: seq<SBlockHead>, lru: seq<int>, head: int, tail: int, i: int)
    requires LruOk(b, lru, head, tail) && 0 <= i < |b|
    ensures var n, p := b[i].m_lru_next, b[i].m_lru_pre;
            0 <= n < |b| && 0 <= p < |b| && b[n].m_lru_pre == i && b[p].m_lru_next == i
    ensures exists k: nat :: k < |b| && Ahead(b, head, k) == i
    ensures forall k: nat, l: nat :: k < l < |b| ==> Ahead(b, head, k) != Ahead(b, head, l)
    ensures Ahead(b, head, |b| - 1) == tail && Ahead(b, head, |b|) == head
  {
    var m := PermOnto(lru, |b|, i);
    assert RingLink(b, lru, m) && RingLink(b, lru, if m == 0 then |lru| - 1 else m - 1);
    AheadIs(b, lru, head, tail, m);
    AheadIs(b, lru, head, tail, |b| - 1);
    AheadIs(b, lru, head, tail, |b|);
    forall k: nat, l: nat | k < l < |b|
      ensures Ahead(b, head, k) != Ahead(b, head, l)
    {
      AheadIs(b, lru, head, tail, k);
      AheadIs(b, lru, head, tail, l);
    }
  }

  /** In recency order the free blocks come first: the key of the k-th block is 0 exactly for k below
      the number of free blocks. */
  lemma FreeFirst(H: nat, B: nat, b: seq<SBlockHead>, heads: seq<SHashHead>, d: seq<Byte>,
                  head: int, tail: int, free: seq<int>, used: seq<Block>, chain: seq<seq<Block>>, k: nat)
    requires InvOn(H, B, b, heads, d, head, tail, free, used, chain, 0) && k < |b|
    ensures 0 <= Ahead(b, head, k) < |b|
    ensures b[Ahead(b, head, k)].m_key == 0 <==> k < |b| - |used|
  {
    var lru := free + Idxs(used);
    AheadIs(b, lru, head, tail, k);
    if k < |free| {
      assert FreeAt(b, free[k]);
    } else {
      LruPosition(free, used, k - |free|);
      assert NodeAt(b, d, B, used[k - |free|]);
    }
  }

  // ---------------------------------------------------------------- the chains

  /** The block k steps along m_next from i. */
  ghost function Along(b: seq<SBlockHead>, i: int, k: nat): int {
    if k == 0 then i
    else
      var j := Along(b, i, k - 1);
      if 0 <= j < |b| then b[j].m_next else NIL
  }

  lemma {:induction false} AlongIs(b: seq<SBlockHead>, head: SHashHead, c: seq<Block>, k: nat)
    requires BucketLinked(b, head, c) && k <= |c|
    ensures Along(b, head.m_head, k) == IdxAt(c, k)
  {
    if k > 0 {
      AlongIs(b, head, c, k - 1);
    }
  }

  /** Block i is met after k steps on the chain of bucket h. */
  ghost predicate Met(b: seq<SBlockHead>, heads: seq<SHashHead>, i: int, h: int, k: nat) {
    0 <= h < |heads| && k < heads[h].m_len && Along(b, heads[h].m_head, k) == i
  }

  /** The chain of bucket h has m_len blocks and ends there; its keys belong to the bucket and ascend. */
  lemma Chained(H: nat, B: nat, b: seq<SBlockHead>, heads: seq<SHashHead>, d: seq<Byte>,
                head: int, tail: int, free: seq<int>, used: seq<Block>, chain: seq<seq<Block>>, h: int, k: nat)
    requires InvOn(H, B, b, heads, d, head, tail, free, used, chain, 0) && 0 <= h < |heads| && k <= heads[h].m_len
    ensures var i := Along(b, heads[h].m_head, k);
            if k == heads[h].m_len then i == NIL
            else
              && 0 <= i < |b| && b[i].m_key != 0 && b[i].m_key % H == h
              && var j := Along(b, heads[h].m_head, k + 1);
                 (k + 1 < heads[h].m_len ==> 0 <= j < |b| && b[i].m_key <= b[j].m_key)
  {
    InvSizes(H, B, b, heads, d, head, tail, free, used, chain, 0);
    assert BucketLinked(b, heads[h], chain[h]);
    AlongIs(b, heads[h], chain[h], k);
    if k < heads[h].m_len {
      var q := ChainWalk(H, B, b, heads, d, head, tail, free, used, chain, 0, h, k);
      AlongIs(b, heads[h], chain[h], k + 1);
      if k + 1 < heads[h].m_len {
        var r := ChainWalk(H, B, b, heads, d, head, tail, free, used, chain, 0, h, k + 1);
      }
    }
  }

  lemma MetNode(H: nat, B: nat, b: seq<SBlockHead>, heads: seq<SHashHead>, d: seq<Byte>,
                head: int, tail: int, free: seq<int>, used: seq<Block>, chain: seq<seq<Block>>, i: int, h: int, k: nat)
    requires InvOn(H, B, b, heads, d, head, tail, free, used, chain, 0)
    ensures |heads| == |chain|
    ensures Met(b, heads, i, h, k) <==> 0 <= h < |chain| && k < |chain[h]| && chain[h][k].idx == i
  {
    InvSizes(H, B, b, heads, d, head, tail, free, used, chain, 0);
    if 0 <= h < |chain| && k < |chain[h]| {
      assert BucketLinked(b, heads[h], chain[h]);
      AlongIs(b, heads[h], chain[h], k);
    }
  }

  /** Every block is either free, with key 0 and on no chain, or on exactly one chain, once: that of its
      key's bucket. */
  lemma Partition(H: nat, B: nat, b: seq<SBlockHead>, heads: seq<SHashHead>, d: seq<Byte>,
                  head: int, tail: int, free: seq<int>, used: seq<Block>, chain: seq<seq<Block>>, i: int)
    requires InvOn(H, B, b, heads, d, head, tail, free, used, chain, 0) && 0 <= i < |b|
    ensures b[i].m_key == 0 ==> forall h: int, k: nat :: !Met(b, heads, i, h, k)
    ensures b[i].m_key != 0 ==> exists k: nat :: Met(b, heads, i, b[i].m_key % H, k)
    ensures forall h: int, k: nat, h': int, k': nat ::
              Met(b, heads, i, h, k) && Met(b, heads, i, h', k') ==> h == h' && k == k'
  {
    InvShape(H, B, b, heads, d, head, tail, free, used, chain, 0);
    hide InvOn, Met, NodeAt, Shape;
    forall h: int, k: nat | Met(b, heads, i, h, k)
      ensures b[i].m_key != 0 && b[i].m_key % H == h
    {
      MetKey(H, B, b, heads, d, head, tail, free, used, chain, i, h, k);
    }
    forall h: int, k: nat, h': int, k': nat | Met(b, heads, i, h, k) && Met(b, heads, i, h', k')
      ensures h == h' && k == k'
    {
      MetOnce(H, B, b, heads, d, head, tail, free, used, chain, i, h, k, k');
    }
    if b[i].m_key != 0 {
      var k := UsedMet(H, B, b, heads, d, head, tail, free, used, chain, i);
    }
  }

  lemma MetKey(H: nat, B: nat, b: seq<SBlockHead>, heads: seq<SHashHead>, d: seq<Byte>,
               head: int, tail: int, free: seq<int>, used: seq<Block>, chain: seq<seq<Block>>, i: int, h: int, k: nat)
    requires InvOn(H, B, b, heads, d, head, tail, free, used, chain, 0) && Met(b, heads, i, h, k)
    ensures 0 <= i < |b| && b[i].m_key != 0 && b[i].m_key % H == h
  {
    MetNode(H, B, b, heads, d, head, tail, free, used, chain, i, h, k);
    var q := ChainWalk(H, B, b, heads, d, head, tail, free, used, chain, 0, h, k);
  }

  lemma MetOnce(H: nat, B: nat, b: seq<SBlockHead>, heads: seq<SHashHead>, d: seq<Byte>,
                head: int, tail: int, free: seq<int>, used: seq<Block>, chain: seq<seq<Block>>, i: int, h: int,
                k: nat, l: nat)
    requires InvOn(H, B, b, heads, d, head, tail, free, used, chain, 0)
    requires Met(b, heads, i, h, k) && Met(b, heads, i, h, l)
    ensures k == l
  {
    MetNode(H, B, b, heads, d, head, tail, free, used, chain, i, h, k);
    MetNode(H, B, b, heads, d, head, tail, free, used, chain, i, h, l);
    assert ChainOk(H, h, chain[h], used);
  }

  lemma FreeKey(b: seq<SBlockHead>, free: seq<int>, used: seq<Block>, p: nat)
    requires FreesAt(b, free, 0) && p < |free| + |used|
    ensures var i := (free + Idxs(used))[p]; p < |free| ==> 0 <= i < |b| && b[i].m_key == 0
  {
    if p < |free| {
      assert FreeAt(b, free[p]);
    }
  }

  lemma UsedMet(H: nat, B: nat, b: seq<SBlockHead>, heads: seq<SHashHead>, d: seq<Byte>,
                head: int, tail: int, free: seq<int>, used: seq<Block>, chain: seq<seq<Block>>, i: int) returns (k: nat)
    requires InvOn(H, B, b, heads, d, head, tail, free, used, chain, 0) && 0 <= i < |b| && b[i].m_key != 0
    ensures Met(b, heads, i, b[i].m_key % H, k)
  {
    var p := PermOnto(free + Idxs(used), |b|, i);
    FreeKey(b, free, used, p);
    var q := p - |free|;
    LruPosition(free, used, q);
    assert NodeAt(b, d, B, used[q]);
    var n := used[q];
    var h := n.key % H;
    assert SameFilter(H, chain, used, n.key);
    FilterMembers(used, n.key, n);
    FilterMembers(chain[h], n.key, n);
    k :| 0 <= k < |chain[h]| && chain[h][k] == n;
    MetNode(H, B, b, heads, d, head, tail, free, used, chain, i, h, k);
  }
}

/** How the block headers, the hash heads and the LRU links lay out a cache:
    the joint shape invariant, and what relinking one block does to it. */
module CacheShape {
  import opened CacheModel
  import opened Slices

  const NIL := -1

  /** Header of one block, as kept in shared memory. */
  datatype SBlockHead = SBlockHead(
    m_key: nat, m_idx: int, m_len: nat,
    m_next: int, m_lru_pre: int, m_lru_next: int, m_uptime: int)

  /** Head of one hash bucket. */
  datatype SHashHead = SHashHead(m_len: nat, m_head: int)

  // ---------------------------------------------------------------- the LRU ring

  /** lru lists each of n blocks once. */
  ghost predicate Perm(lru: seq<int>, n: nat) {
    && |lru| == n
    && (forall p :: 0 <= p < n ==> 0 <= lru[p] < n)
    && (forall p, q :: 0 <= p < q < n ==> lru[p] != lru[q])
  }

  lemma PermDistinct(lru: seq<int>, n: nat, p: nat, q: nat)
    requires Perm(lru, n) && p < n && q < n
    requires lru[p] == lru[q]
    ensures p == q
  {
  }

  /** The block at position p and its successor on the ring point at each other. */
  ghost predicate RingLink(b: seq<SBlockHead>, lru: seq<int>, p: int)
    requires Perm(lru, |b|) && 0 <= p < |lru|
  {
    var s := lru[if p + 1 == |lru| then 0 else p + 1];
    b[lru[p]].m_lru_next == s && b[s].m_lru_pre == lru[p]
  }

  /** The blocks form one circular doubly linked list in the order lru. */
  ghost predicate LruOk(b: seq<SBlockHead>, lru: seq<int>, head: int, tail: int) {
    && |b| > 0
    && Perm(lru, |b|)
    && head == lru[0] && tail == lru[|lru| - 1]
    && forall p {:trigger RingLink(b, lru, p)} :: 0 <= p < |lru| ==> RingLink(b, lru, p)
  }

  /** b and c agree on everything but the LRU links. */
  ghost predicate SameButLru(b: seq<SBlockHead>, c: seq<SBlockHead>) {
    && |b| == |c|
    && forall i :: 0 <= i < |b| ==>
         c[i] == b[i].(m_lru_pre := c[i].m_lru_pre, m_lru_next := c[i].m_lru_next)
  }

  /** b and c agree on the LRU links. */
  ghost predicate SameLru(b: seq<SBlockHead>, c: seq<SBlockHead>) {
    && |b| == |c|
    && forall i :: 0 <= i < |b| ==> c[i].m_lru_pre == b[i].m_lru_pre && c[i].m_lru_next == b[i].m_lru_next
  }

  lemma LruFrame(b: seq<SBlockHead>, c: seq<SBlockHead>, lru: seq<int>, head: int, tail: int)
    requires LruOk(b, lru, head, tail) && SameLru(b, c)
    ensures LruOk(c, lru, head, tail)
  {
    forall p | 0 <= p < |lru|
      ensures RingLink(c, lru, p)
    {
      assert RingLink(b, lru, p);
    }
  }

  // ---------------------------------------------------------------- hash chains

  function IdxAt(c: seq<Block>, i: nat): int {
    if i < |c| then c[i].idx else NIL
  }

  /** The bucket's head and the m_next links spell out the chain c. */
  ghost predicate BucketLinked(b: seq<SBlockHead>, head: SHashHead, c: seq<Block>) {
    && head.m_len == |c| && head.m_head == IdxAt(c, 0)
    && forall i :: 0 <= i < |c| ==> 0 <= c[i].idx < |b| && b[c[i].idx].m_next == IdxAt(c, i + 1)
  }

  /** Chain h is sorted by key, holds keys of bucket h only, and no block twice. */
  ghost predicate ChainOk(H: nat, h: int, c: seq<Block>, used: seq<Block>)
    requires H > 0
  {
    && (forall i :: 0 <= i < |c| ==> c[i].key % H == h && c[i] in used)
    && (forall i, j :: 0 <= i < j < |c| ==> c[i].key <= c[j].key && c[i].idx != c[j].idx)
  }

  /** A key's nodes appear in its chain in the order they have on the LRU list. */
  ghost predicate SameFilter(H: nat, chain: seq<seq<Block>>, used: seq<Block>, k: nat)
    requires |chain| == H > 0
  {
    Keep(chain[k % H], k) == Keep(used, k)
  }

  /** Keys of used nodes are not 0, and nodes of one key share one uptime. */
  ghost predicate KeysOk(used: seq<Block>) {
    && (forall q :: 0 <= q < |used| ==> used[q].key != 0)
    && (forall p, q :: 0 <= p < |used| && 0 <= q < |used| && used[p].key == used[q].key ==>
          used[p].uptime == used[q].uptime)
  }

  ghost predicate ChainsOk(H: nat, used: seq<Block>, chain: seq<seq<Block>>)
    requires H > 0
  {
    && |chain| == H
    && (forall h {:trigger ChainOk(H, h, chain[h], used)} :: 0 <= h < H ==> ChainOk(H, h, chain[h], used))
  }

  ghost predicate FiltersOk(H: nat, used: seq<Block>, chain: seq<seq<Block>>)
    requires |chain| == H > 0
  {
    forall k: nat :: SameFilter(H, chain, used, k)
  }

  ghost predicate Shape(H: nat, used: seq<Block>, chain: seq<seq<Block>>)
    requires H > 0
  {
    KeysOk(used) && ChainsOk(H, used, chain) && FiltersOk(H, used, chain)
  }

  lemma UsedDistinct(N: nat, free: seq<int>, used: seq<Block>, p: nat, q: nat)
    requires Perm(free + Idxs(used), N)
    requires p < |used| && q < |used| && used[p].idx == used[q].idx
    ensures p == q
  {
    var lru := free + Idxs(used);
    PermDistinct(lru, N, |free| + p, |free| + q);
  }

  /** When a filter starts with the node at q, no node of that key comes before q. */
  lemma NoneBefore(N: nat, free: seq<int>, used: seq<Block>, q: nat)
    requires Perm(free + Idxs(used), N)
    requires q < |used| && Keep(used, used[q].key) != [] && Keep(used, used[q].key)[0] == used[q]
    ensures Keep(used[..q], used[q].key) == []
  {
    var k := used[q].key;
    if Keep(used[..q], k) != [] {
      var p := FirstKept(used, q, k);
      UsedDistinct(N, free, used, p, q);
    }
  }

  // ---------------------------------------------------------------- taking a node out

  lemma LruPosition(free: seq<int>, used: seq<Block>, q: nat)
    requires q < |used|
    ensures RemoveAt(free + Idxs(used), |free| + q) == free + Idxs(RemoveAt(used, q))
    ensures (free + Idxs(used))[|free| + q] == used[q].idx
  {
  }

  lemma RemoveMembers(s: seq<Block>, p: nat, n: Block)
    requires p < |s|
    ensures n in RemoveAt(s, p) ==> n in s
    ensures n in s && n != s[p] ==> n in RemoveAt(s, p)
  {
    assert s == s[..p] + [s[p]] + s[p + 1..];
  }

  lemma KeysRemove(used: seq<Block>, q: nat)
    requires KeysOk(used) && q < |used|
    ensures KeysOk(RemoveAt(used, q))
  {
    var u := RemoveAt(used, q);
    assert forall i :: 0 <= i < |u| ==> u[i] == used[if i < q then i else i + 1];
  }

  lemma ChainRemoveSelf(H: nat, h: int, c: seq<Block>, used: seq<Block>, p: nat, q: nat)
    requires H > 0 && ChainOk(H, h, c, used)
    requires q < |used| && p < |c| && c[p] == used[q]
    ensures ChainOk(H, h, RemoveAt(c, p), RemoveAt(used, q))
  {
    var c' := RemoveAt(c, p);
    assert forall i :: 0 <= i < p ==> c'[i] == c[i] && c[i].idx != c[p].idx;
    assert forall i :: p <= i < |c'| ==> c'[i] == c[i + 1] && c[i + 1].idx != c[p].idx;
    forall i | 0 <= i < |c'|
      ensures c'[i] in RemoveAt(used, q)
    {
      assert c'[i] in used;
      RemoveMembers(used, q, c'[i]);
    }
  }

  lemma ChainRemoveOther(H: nat, g: int, c: seq<Block>, used: seq<Block>, q: nat)
    requires H > 0 && ChainOk(H, g, c, used)
    requires q < |used| && used[q].key % H != g
    ensures ChainOk(H, g, c, RemoveAt(used, q))
  {
    forall i | 0 <= i < |c|
      ensures c[i] in RemoveAt(used, q)
    {
      assert c[i].key % H == g;
      RemoveMembers(used, q, c[i]);
    }
  }

  lemma FilterRemoveSame(H: nat, N: nat, free: seq<int>, used: seq<Block>, chain: seq<seq<Block>>, p: nat, q: nat,
                         h: int)
    requires |chain| == H > 0 && q < |used| && h == used[q].key % H
    requires SameFilter(H, chain, used, used[q].key)
    requires Perm(free + Idxs(used), N)
    requires p < |chain[h]| && chain[h][p] == used[q] && Keep(chain[h][..p], used[q].key) == []
    ensures SameFilter(H, chain[h := RemoveAt(chain[h], p)], RemoveAt(used, q), used[q].key)
  {
    hide Keep, Drop;
    var k := used[q].key;
    FilterRemoveAt(chain[h], p, k);
    assert Keep(used, k)[0] == used[q];
    NoneBefore(N, free, used, q);
    FilterRemoveAt(used, q, k);
    assert Keep(used, k) == [used[q]] + Keep(used[q + 1..], k);
    assert Keep(used, k) == [used[q]] + Keep(chain[h][p + 1..], k);
    assert Keep(used, k)[1..] == Keep(used[q + 1..], k);
    assert Keep(used, k)[1..] == Keep(chain[h][p + 1..], k);
  }

  lemma FilterRemoveDiff(H: nat, used: seq<Block>, chain: seq<seq<Block>>, p: nat, q: nat, h: int, k: nat)
    requires |chain| == H > 0 && q < |used| && h == used[q].key % H
    requires SameFilter(H, chain, used, k) && k != used[q].key
    requires p < |chain[h]| && chain[h][p] == used[q]
    ensures SameFilter(H, chain[h := RemoveAt(chain[h], p)], RemoveAt(used, q), k)
  {
    hide Keep, Drop;
    FilterRemoveAt(used, q, k);
    FilterRemoveAt(chain[h], p, k);
  }

  /** Removing the first node of a key from both its chain and the LRU list keeps the shape. */
  lemma ShapeRemove(H: nat, N: nat, free: seq<int>, used: seq<Block>, chain: seq<seq<Block>>, p: nat, q: nat, h: int)
    requires H > 0 && Shape(H, used, chain)
    requires Perm(free + Idxs(used), N)
    requires q < |used| && h == used[q].key % H
    requires p < |chain[h]| && chain[h][p] == used[q] && Keep(chain[h][..p], used[q].key) == []
    ensures Shape(H, RemoveAt(used, q), chain[h := RemoveAt(chain[h], p)])
  {
    KeysRemove(used, q);
    var used', chain' := RemoveAt(used, q), chain[h := RemoveAt(chain[h], p)];
    forall k: nat
      ensures SameFilter(H, chain', used', k)
    {
      assert SameFilter(H, chain, used, k);
      if k == used[q].key {
        FilterRemoveSame(H, N, free, used, chain, p, q, h);
      } else {
        FilterRemoveDiff(H, used, chain, p, q, h, k);
      }
    }
    forall g | 0 <= g < H
      ensures ChainOk(H, g, chain'[g], used')
    {
      assert ChainOk(H, g, chain[g], used);
      if g == h {
        ChainRemoveSelf(H, g, chain[g], used, p, q);
      } else {
        ChainRemoveOther(H, g, chain[g], used, q);
      }
    }
  }

  // ---------------------------------------------------------------- putting a node in

  lemma FiltersInsert(H: nat, used: seq<Block>, chain: seq<seq<Block>>, n: Block, p: nat, k: nat)
    requires |chain| == H > 0 && SameFilter(H, chain, used, k)
    requires var c := chain[n.key % H];
             p <= |c| && (forall i :: p <= i < |c| ==> n.key < c[i].key)
    ensures var h := n.key % H;
            var c := chain[h];
            SameFilter(H, chain[h := c[..p] + [n] + c[p..]], used + [n], k)
  {
    hide Keep, Drop;
    var c := chain[n.key % H];
    FilterAppend(used, [n], k);
    FilterOne(n, k);
    FilterThree(c[..p], n, c[p..], k);
    FilterAppend(c[..p], c[p..], k);
    assert c == c[..p] + c[p..];
    if k == n.key {
      FilterNone(c[p..], k);
    } else {
      assert Keep(c[..p], k) + [] == Keep(c[..p], k);
      assert Keep(used, k) + [] == Keep(used, k);
    }
  }

  lemma ChainInsert(H: nat, used: seq<Block>, chain: seq<seq<Block>>, n: Block, p: nat, g: nat)
    requires H > 0 && ChainsOk(H, used, chain) && g < H
    requires forall q :: 0 <= q < |used| ==> used[q].idx != n.idx
    requires var c := chain[n.key % H];
             && p <= |c|
             && (forall i :: 0 <= i < p ==> c[i].key <= n.key)
             && (forall i :: p <= i < |c| ==> n.key < c[i].key)
    ensures var h := n.key % H;
            var c := chain[h];
            ChainOk(H, g, chain[h := c[..p] + [n] + c[p..]][g], used + [n])
  {
    var h := n.key % H;
    var c := chain[g];
    assert ChainOk(H, g, c, used);
    if g == h {
      var c' := c[..p] + [n] + c[p..];
      WithAt(c, p, n);
      forall i | 0 <= i < |c|
        ensures c[i].idx != n.idx
      {
        assert c[i] in used;
      }
    }
  }

  /** Putting a free block in at its place in the chain and at the LRU end keeps the shape. */
  lemma ShapeInsert(H: nat, N: nat, free: seq<int>, used: seq<Block>, chain: seq<seq<Block>>, n: Block, p: nat, h: int)
    requires H > 0 && Shape(H, used, chain)
    requires Perm(free + Idxs(used), N)
    requires free != [] && n.idx == free[0] && n.key != 0 && h == n.key % H
    requires forall q :: 0 <= q < |used| && used[q].key == n.key ==> used[q].uptime == n.uptime
    requires var c := chain[h];
             && p <= |c|
             && (forall i :: 0 <= i < p ==> c[i].key <= n.key)
             && (forall i :: p <= i < |c| ==> n.key < c[i].key)
    ensures var c := chain[h]; Shape(H, used + [n], chain[h := c[..p] + [n] + c[p..]])
  {
    var used', chain' := used + [n], chain[h := chain[h][..p] + [n] + chain[h][p..]];
    forall k: nat
      ensures SameFilter(H, chain', used', k)
    {
      assert SameFilter(H, chain, used, k);
      FiltersInsert(H, used, chain, n, p, k);
    }
    forall q | 0 <= q < |used|
      ensures used[q].idx != n.idx
    {
      LruPosition(free, used, q);
      if used[q].idx == n.idx {
        PermDistinct(free + Idxs(used), N, 0, |free| + q);
      }
    }
    forall g | 0 <= g < H
      ensures ChainOk(H, g, chain'[g], used')
    {
      ChainInsert(H, used, chain, n, p, g);
    }
  }

  // ---------------------------------------------------------------- moving a key to the end

  /** Moving all nodes of key k to the LRU end, in order, keeps the shape. */
  lemma ShapeTouch(H: nat, used: seq<Block>, chain: seq<seq<Block>>, k: nat)
    requires H > 0 && Shape(H, used, chain)
    ensures Shape(H, Drop(used, k) + Keep(used, k), chain)
  {
    hide Keep, Drop;
    var u := Drop(used, k) + Keep(used, k);
    forall n
      ensures n in u <==> n in used
    {
      FilterMembers(used, k, n);
    }
    forall q | 0 <= q < |u|
      ensures u[q] in used
    {
      assert u[q] in u;
    }
    forall j: nat
      ensures SameFilter(H, chain, u, j)
    {
      assert SameFilter(H, chain, used, j);
      FilterAppend(Drop(used, k), Keep(used, k), j);
      FilterFilter(used, k, j);
      assert Keep(used, j) + [] == Keep(used, j) && [] + Keep(used, j) == Keep(used, j);
    }
    forall g | 0 <= g < H
      ensures ChainOk(H, g, chain[g], u)
    {
      assert ChainOk(H, g, chain[g], used);
    }
  }
}

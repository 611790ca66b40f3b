/** What each group of in-place link updates does to the invariant, on snapshots of the arrays: a block cut out
    of the ring and spliced in elsewhere, unlinked from or linked into its chain, filled in, or read. Methods of
    the cache take a snapshot before and after their writes, and these lemmas carry the invariant across. */
module CacheLinks {
  import opened Bytes
  import opened CacheModel
  import opened CacheShape
  import opened Slices

  // ---------------------------------------------------------------- relinking the ring

  /** The ring has no fixed start: the first block may count as the last. */
  lemma RotateLeft(b: seq<SBlockHead>, lru: seq<int>, head: int, tail: int)
    requires LruOk(b, lru, head, tail) && |lru| > 1
    ensures LruOk(b, lru[1..] + [lru[0]], lru[1], lru[0])
  {
    var r := lru[1..] + [lru[0]];
    assert forall i :: 0 <= i < |lru| ==> r[i] == lru[if i + 1 == |lru| then 0 else i + 1];
    forall p | 0 <= p < |r|
      ensures RingLink(b, r, p)
    {
      assert RingLink(b, lru, if p + 1 == |lru| then 0 else p + 1);
    }
  }

  lemma RotateRight(b: seq<SBlockHead>, lru: seq<int>, head: int, tail: int)
    requires LruOk(b, lru, head, tail) && |lru| > 1
    ensures LruOk(b, [lru[|lru| - 1]] + lru[..|lru| - 1], lru[|lru| - 1], lru[|lru| - 2])
  {
    var n := |lru|;
    var r := [lru[n - 1]] + lru[..n - 1];
    assert forall i :: 0 <= i < n ==> r[i] == lru[if i == 0 then n - 1 else i - 1];
    forall p | 0 <= p < |r|
      ensures RingLink(b, r, p)
    {
      assert RingLink(b, lru, if p == 0 then n - 1 else p - 1);
    }
  }

  lemma RingAround(b: seq<SBlockHead>, lru: seq<int>, head: int, tail: int, p: nat)
    requires LruOk(b, lru, head, tail) && 0 < p < |lru| - 1
    ensures Perm(lru, |b|) && head == lru[0] && tail == lru[|lru| - 1]
    ensures b[lru[p]].m_lru_pre == lru[p - 1] && b[lru[p]].m_lru_next == lru[p + 1]
    ensures forall i :: 0 <= i < |lru| ==> 0 <= lru[i] < |b| && (i != p ==> lru[i] != lru[p])
    ensures lru[0] != lru[|lru| - 1] && lru[p - 1] != lru[p + 1]
    ensures lru[p - 1] != lru[|lru| - 1] && lru[p + 1] != lru[0]
  {
    assert RingLink(b, lru, p - 1) && RingLink(b, lru, p);
  }

  /** The ring after the block at position p was cut out and spliced in between tail and head. */
  ghost predicate Spliced(b: seq<SBlockHead>, c: seq<SBlockHead>, lru: seq<int>, p: nat)
    requires |b| == |c| && Perm(lru, |b|) && 0 < p < |lru| - 1
  {
    forall i :: 0 <= i < |b| ==>
      && c[i].m_lru_next == (if i == lru[p] then lru[0]
                             else if i == lru[p - 1] then lru[p + 1]
                             else if i == lru[|lru| - 1] then lru[p]
                             else b[i].m_lru_next)
      && c[i].m_lru_pre == (if i == lru[p] then lru[|lru| - 1]
                            else if i == lru[p + 1] then lru[p - 1]
                            else if i == lru[0] then lru[p]
                            else b[i].m_lru_pre)
  }

  /** The writes that cut the block out, up to c, and those that put it back in, up to e. */
  lemma SpliceWritten(b: seq<SBlockHead>, c: seq<SBlockHead>, e: seq<SBlockHead>, lru: seq<int>, p: nat)
    requires Perm(lru, |b|) && 0 < p < |lru| - 1
    requires forall i :: 0 <= i < |lru| ==> 0 <= lru[i] < |b| && (i != p ==> lru[i] != lru[p])
    requires lru[0] != lru[|lru| - 1] && lru[p - 1] != lru[p + 1]
    requires lru[p - 1] != lru[|lru| - 1] && lru[p + 1] != lru[0]
    requires var pre, next := lru[p - 1], lru[p + 1];
             c == b[pre := b[pre].(m_lru_next := next)][next := b[next].(m_lru_pre := pre)]
    requires var h, t, i := lru[0], lru[|lru| - 1], lru[p];
             e == c[i := c[i].(m_lru_pre := t, m_lru_next := h)]
                   [t := c[t].(m_lru_next := i)][h := c[h].(m_lru_pre := i)]
    ensures SameButLru(b, e) && Spliced(b, e, lru, p)
  {
    hide Perm;
    var pre, next, h, t, x := lru[p - 1], lru[p + 1], lru[0], lru[|lru| - 1], lru[p];
    forall i | 0 <= i < |b|
      ensures e[i].m_lru_next == if i == x then h else if i == pre then next else if i == t then x else b[i].m_lru_next
      ensures e[i].m_lru_pre == if i == x then t else if i == next then pre else if i == h then x else b[i].m_lru_pre
      ensures e[i] == b[i].(m_lru_pre := e[i].m_lru_pre, m_lru_next := e[i].m_lru_next)
    {
      var f := if i == pre then b[i].(m_lru_next := next) else if i == next then b[i].(m_lru_pre := pre) else b[i];
      assert c[i] == f;
    }
  }

  lemma SplicedTail(b: seq<SBlockHead>, c: seq<SBlockHead>, lru: seq<int>, head: int, tail: int, p: nat)
    requires |b| == |c| && LruOk(b, lru, head, tail) && 0 < p < |lru| - 1
    requires Spliced(b, c, lru, p)
    ensures LruOk(c, RemoveAt(lru, p) + [lru[p]], lru[0], lru[p])
  {
    var n := |lru|;
    var r := RemoveAt(lru, p) + [lru[p]];
    CutAt(lru, p);
    assert forall i :: 0 <= i < n ==> r[i] == lru[if i < p then i else if i == n - 1 then p else i + 1];
    hide RemoveAt;
    forall i | 0 <= i < n
      ensures RingLink(c, r, i)
    {
      SplicedLink(b, c, lru, head, tail, p, r, i);
    }
  }

  lemma SplicedLink(b: seq<SBlockHead>, c: seq<SBlockHead>, lru: seq<int>, head: int, tail: int, p: nat, r: seq<int>,
                    i: nat)
    requires |b| == |c| && LruOk(b, lru, head, tail) && 0 < p < |lru| - 1 && i < |lru|
    requires Spliced(b, c, lru, p) && Perm(r, |c|)
    requires forall j :: 0 <= j < |lru| ==> r[j] == lru[if j < p then j else if j == |lru| - 1 then p else j + 1]
    ensures RingLink(c, r, i)
  {
    assert RingLink(b, lru, if i < p then i else if i == |lru| - 1 then p else i + 1);
  }

  lemma SplicedHead(b: seq<SBlockHead>, c: seq<SBlockHead>, lru: seq<int>, head: int, tail: int, p: nat)
    requires |b| == |c| && LruOk(b, lru, head, tail) && 0 < p < |lru| - 1
    requires Spliced(b, c, lru, p)
    ensures LruOk(c, [lru[p]] + RemoveAt(lru, p), lru[p], lru[|lru| - 1])
  {
    hide LruOk, Spliced, Perm;
    var r := RemoveAt(lru, p) + [lru[p]];
    SplicedTail(b, c, lru, head, tail, p);
    RotateRight(c, r, lru[0], lru[p]);
    assert [r[|lru| - 1]] + r[..|lru| - 1] == [lru[p]] + RemoveAt(lru, p);
  }

  // ---------------------------------------------------------------- headers, heads and data

  /** Slot i of the value area starts with the bytes s. */
  ghost predicate SlotHas(d: seq<Byte>, B: nat, i: int, s: seq<Byte>) {
    0 <= i && |s| <= B && i * B + |s| <= |d| && d[i * B..i * B + |s|] == s
  }

  /** The header and data area of block n.idx hold node n. */
  ghost predicate NodeAt(b: seq<SBlockHead>, d: seq<Byte>, B: nat, n: Block) {
    && 0 <= n.idx < |b|
    && b[n.idx].m_key == n.key && b[n.idx].m_len == |n.data| && b[n.idx].m_uptime == n.uptime
    && SlotHas(d, B, n.idx, n.data)
  }

  ghost predicate NodesAt(b: seq<SBlockHead>, d: seq<Byte>, B: nat, used: seq<Block>) {
    forall q {:trigger NodeAt(b, d, B, used[q])} :: 0 <= q < |used| ==> NodeAt(b, d, B, used[q])
  }

  ghost predicate FreeAt(b: seq<SBlockHead>, i: int) {
    0 <= i < |b| && b[i].m_key == 0 && b[i].m_next == NIL && b[i].m_len == 0
  }

  /** All free blocks are marked free, apart from the first skip ones. */
  ghost predicate FreesAt(b: seq<SBlockHead>, free: seq<int>, skip: nat) {
    forall i {:trigger FreeAt(b, free[i])} :: skip <= i < |free| ==> FreeAt(b, free[i])
  }

  ghost predicate BucketsLinked(b: seq<SBlockHead>, heads: seq<SHashHead>, chain: seq<seq<Block>>) {
    && |heads| == |chain|
    && forall h {:trigger BucketLinked(b, heads[h], chain[h])} ::
         0 <= h < |chain| ==> BucketLinked(b, heads[h], chain[h])
  }

  ghost predicate IdxOk(b: seq<SBlockHead>) {
    forall i :: 0 <= i < |b| ==> b[i].m_idx == i
  }

  lemma {:induction false} MulStep(i: int, j: int, B: nat)
    requires i < j
    ensures i * B + B <= j * B
    decreases j - i
  {
    if i + 1 < j {
      MulStep(i, j - 1, B);
      assert (j - 1) * B + B == j * B;
    } else {
      assert (i + 1) * B == i * B + B;
    }
  }

  lemma MulNonneg(i: int, B: nat)
    requires 0 <= i
    ensures 0 <= i * B
  {
  }

  lemma SlotWritten(d: seq<Byte>, e: seq<Byte>, B: nat, i: int, s: seq<Byte>, j: int, t: seq<Byte>)
    requires 0 <= i * B && i * B + |s| <= |d| && |s| <= B && 0 <= i
    requires e == d[..i * B] + s + d[i * B + |s|..]
    requires i != j && SlotHas(d, B, j, t)
    ensures SlotHas(e, B, j, t)
  {
    var x, y := i * B, j * B;
    if i < j {
      MulStep(i, j, B);
      assert e[y..y + |t|] == d[y..y + |t|];
    } else {
      MulStep(j, i, B);
      assert e[y..y + |t|] == d[y..y + |t|];
    }
  }

  lemma SlotSelf(d: seq<Byte>, e: seq<Byte>, B: nat, i: int, s: seq<Byte>)
    requires 0 <= i * B && i * B + |s| <= |d| && |s| <= B && 0 <= i
    requires e == d[..i * B] + s + d[i * B + |s|..]
    ensures SlotHas(e, B, i, s)
  {
    var x := i * B;
    assert e[x..x + |s|] == s;
  }

  /** Relinking the LRU ring touches neither chains nor values. */
  lemma RelinkFrame(b: seq<SBlockHead>, c: seq<SBlockHead>, heads: seq<SHashHead>, chain: seq<seq<Block>>,
                    d: seq<Byte>, B: nat, used: seq<Block>, free: seq<int>, skip: nat)
    requires SameButLru(b, c)
    ensures BucketsLinked(b, heads, chain) ==> BucketsLinked(c, heads, chain)
    ensures NodesAt(b, d, B, used) ==> NodesAt(c, d, B, used)
    ensures FreesAt(b, free, skip) ==> FreesAt(c, free, skip)
    ensures IdxOk(b) ==> IdxOk(c)
  {
    if BucketsLinked(b, heads, chain) {
      forall h | 0 <= h < |chain|
        ensures BucketLinked(c, heads[h], chain[h])
      {
        assert BucketLinked(b, heads[h], chain[h]);
      }
    }
    if NodesAt(b, d, B, used) {
      forall q | 0 <= q < |used|
        ensures NodeAt(c, d, B, used[q])
      {
        assert NodeAt(b, d, B, used[q]);
      }
    }
    if FreesAt(b, free, skip) {
      forall i | skip <= i < |free|
        ensures FreeAt(c, free[i])
      {
        assert FreeAt(b, free[i]);
      }
    }
  }

  // ---------------------------------------------------------------- unlinking a block

  /** What DeleteHash writes before moving the block: the predecessor (or the bucket) skips it,
      and its header is cleared. */
  ghost predicate Unlinked(b: seq<SBlockHead>, c: seq<SBlockHead>, cur: int, pre: int) {
    && |b| == |c| && 0 <= cur < |b| && pre < |b| && cur != pre
    && c[cur] == b[cur].(m_key := 0, m_next := NIL, m_len := 0)
    && (pre >= 0 ==> c[pre] == b[pre].(m_next := b[cur].m_next))
    && forall i :: 0 <= i < |b| && i != cur && i != pre ==> c[i] == b[i]
  }

  lemma UnlinkBucket(b: seq<SBlockHead>, c: seq<SBlockHead>, head: SHashHead, head': SHashHead, ns: seq<Block>, p: nat)
    requires BucketLinked(b, head, ns) && p < |ns|
    requires forall i, j :: 0 <= i < j < |ns| ==> ns[i].idx != ns[j].idx
    requires Unlinked(b, c, ns[p].idx, if p == 0 then NIL else ns[p - 1].idx)
    requires head'.m_len == head.m_len - 1
    requires head'.m_head == if p == 0 then b[ns[p].idx].m_next else head.m_head
    ensures BucketLinked(c, head', RemoveAt(ns, p))
  {
    var r := RemoveAt(ns, p);
    CutAt(ns, p);
    assert r == ns[..p] + ns[p + 1..];
    hide RemoveAt;
    assert b[ns[p].idx].m_next == IdxAt(ns, p + 1);
    forall i | 0 <= i < |r|
      ensures 0 <= r[i].idx < |c| && c[r[i].idx].m_next == IdxAt(r, i + 1)
    {
      if i + 1 < p {
        assert ns[i].idx != ns[p - 1].idx && ns[i].idx != ns[p].idx && b[ns[i].idx].m_next == IdxAt(ns, i + 1);
      } else if i >= p {
        assert b[ns[i + 1].idx].m_next == IdxAt(ns, i + 2) && ns[i + 1].idx != ns[p].idx;
        assert p > 0 ==> ns[i + 1].idx != ns[p - 1].idx;
      }
    }
  }

  lemma UnlinkedLru(b: seq<SBlockHead>, c: seq<SBlockHead>, lru: seq<int>, head: int, tail: int, cur: int, pre: int)
    requires LruOk(b, lru, head, tail) && Unlinked(b, c, cur, pre)
    ensures LruOk(c, lru, head, tail)
  {
    LruFrame(b, c, lru, head, tail);
  }

  /** A bucket none of whose blocks changed keeps its links. */
  lemma BucketFrame(b: seq<SBlockHead>, c: seq<SBlockHead>, head: SHashHead, ns: seq<Block>)
    requires BucketLinked(b, head, ns) && |b| == |c|
    requires forall i :: 0 <= i < |ns| ==> c[ns[i].idx].m_next == b[ns[i].idx].m_next
    ensures BucketLinked(c, head, ns)
  {
  }

  lemma UnlinkOk(H: nat, N: nat, B: nat, b: seq<SBlockHead>, c: seq<SBlockHead>, heads: seq<SHashHead>,
                 heads': seq<SHashHead>, d: seq<Byte>, free: seq<int>, used: seq<Block>, chain: seq<seq<Block>>,
                 h: int, p: nat, q: nat)
    requires H > 0 && |b| == N && Perm(free + Idxs(used), N) && ChainsOk(H, used, chain)
    requires BucketsLinked(b, heads, chain) && NodesAt(b, d, B, used) && FreesAt(b, free, 0) && IdxOk(b)
    requires q < |used| && h == used[q].key % H && p < |chain[h]| && chain[h][p] == used[q]
    requires Unlinked(b, c, used[q].idx, if p == 0 then NIL else chain[h][p - 1].idx)
    requires |heads'| == |heads| && forall g :: 0 <= g < |heads| && g != h ==> heads'[g] == heads[g]
    requires heads'[h].m_len == heads[h].m_len - 1
    requires heads'[h].m_head == if p == 0 then b[used[q].idx].m_next else heads[h].m_head
    ensures BucketsLinked(c, heads', chain[h := RemoveAt(chain[h], p)])
    ensures NodesAt(c, d, B, RemoveAt(used, q))
    ensures FreesAt(c, [used[q].idx] + free, 0)
    ensures IdxOk(c) && SameLru(b, c)
  {
    var cur, pre := used[q].idx, if p == 0 then NIL else chain[h][p - 1].idx;
    assert ChainOk(H, h, chain[h], used);
    var chain' := chain[h := RemoveAt(chain[h], p)];
    forall g | 0 <= g < |chain'|
      ensures BucketLinked(c, heads'[g], chain'[g])
    {
      assert BucketLinked(b, heads[g], chain[g]);
      if g == h {
        UnlinkBucket(b, c, heads[h], heads'[h], chain[h], p);
      } else {
        UnlinkOther(H, N, b, c, heads[g], free, used, chain, h, p, q, g);
      }
    }
    UnlinkNodes(N, B, b, c, d, free, used, q, pre);
    UnlinkFrees(H, N, b, c, free, used, chain, h, p, q);
  }

  lemma ChainMembers(H: nat, used: seq<Block>, chain: seq<seq<Block>>, g: int)
    requires H > 0 && ChainsOk(H, used, chain) && 0 <= g < H
    ensures forall i :: 0 <= i < |chain[g]| ==> chain[g][i] in used
  {
    assert ChainOk(H, g, chain[g], used);
  }

  lemma UnlinkOther(H: nat, N: nat, b: seq<SBlockHead>, c: seq<SBlockHead>, head: SHashHead,
                    free: seq<int>, used: seq<Block>, chain: seq<seq<Block>>, h: int, p: nat, q: nat, g: int)
    requires H > 0 && Perm(free + Idxs(used), N) && ChainsOk(H, used, chain)
    requires q < |used| && h == used[q].key % H && p < |chain[h]| && chain[h][p] == used[q]
    requires 0 <= g < H && g != h && BucketLinked(b, head, chain[g])
    requires Unlinked(b, c, used[q].idx, if p == 0 then NIL else chain[h][p - 1].idx)
    ensures BucketLinked(c, head, chain[g])
  {
    assert |chain| == H;
    hide ChainsOk, Perm;
    ChainMembers(H, used, chain, g);
    forall i | 0 <= i < |chain[g]|
      ensures c[chain[g][i].idx].m_next == b[chain[g][i].idx].m_next
    {
      ChainsApart(H, N, free, used, chain, g, i, h, p);
      if p > 0 {
        ChainsApart(H, N, free, used, chain, g, i, h, p - 1);
      }
    }
    BucketFrame(b, c, head, chain[g]);
  }

  /** Different buckets share no block. */
  lemma ChainsApart(H: nat, N: nat, free: seq<int>, used: seq<Block>, chain: seq<seq<Block>>, g: int, i: nat, h: int,
                    j: nat)
    requires H > 0 && Perm(free + Idxs(used), N) && ChainsOk(H, used, chain)
    requires 0 <= g < H && 0 <= h < H && g != h && i < |chain[g]| && j < |chain[h]|
    ensures chain[g][i].idx != chain[h][j].idx
  {
    var m, n := chain[g][i], chain[h][j];
    assert ChainOk(H, g, chain[g], used) && ChainOk(H, h, chain[h], used);
    var x :| 0 <= x < |used| && used[x] == m;
    var y :| 0 <= y < |used| && used[y] == n;
    if m.idx == n.idx {
      UsedDistinct(N, free, used, x, y);
    }
  }

  lemma UnlinkNodes(N: nat, B: nat, b: seq<SBlockHead>, c: seq<SBlockHead>, d: seq<Byte>,
                    free: seq<int>, used: seq<Block>, q: nat, pre: int)
    requires Perm(free + Idxs(used), N) && NodesAt(b, d, B, used) && q < |used|
    requires Unlinked(b, c, used[q].idx, pre)
    ensures NodesAt(c, d, B, RemoveAt(used, q))
  {
    var u := RemoveAt(used, q);
    forall i | 0 <= i < |u|
      ensures NodeAt(c, d, B, u[i])
    {
      var at := if i < q then i else i + 1;
      assert u[i] == used[at] && NodeAt(b, d, B, used[at]);
      if used[at].idx == used[q].idx {
        UsedDistinct(N, free, used, at, q);
      }
    }
  }

  lemma UnlinkFrees(H: nat, N: nat, b: seq<SBlockHead>, c: seq<SBlockHead>,
                    free: seq<int>, used: seq<Block>, chain: seq<seq<Block>>, h: int, p: nat, q: nat)
    requires H > 0 && Perm(free + Idxs(used), N) && ChainsOk(H, used, chain)
    requires FreesAt(b, free, 0)
    requires q < |used| && h == used[q].key % H && p < |chain[h]| && chain[h][p] == used[q]
    requires Unlinked(b, c, used[q].idx, if p == 0 then NIL else chain[h][p - 1].idx)
    ensures FreesAt(c, [used[q].idx] + free, 0)
  {
    assert ChainOk(H, h, chain[h], used);
    var f := [used[q].idx] + free;
    forall i | 0 <= i < |f|
      ensures FreeAt(c, f[i])
    {
      if i > 0 {
        assert FreeAt(b, free[i - 1]) && f[i] == free[i - 1];
        FreeNotUsed(N, free, used, i - 1, q);
        if p > 0 {
          var x :| 0 <= x < |used| && used[x] == chain[h][p - 1];
          FreeNotUsed(N, free, used, i - 1, x);
        }
      }
    }
  }

  lemma FreeNotUsed(N: nat, free: seq<int>, used: seq<Block>, i: nat, q: nat)
    requires Perm(free + Idxs(used), N) && i < |free| && q < |used|
    ensures free[i] != used[q].idx
  {
    LruPosition(free, used, q);
    assert (free + Idxs(used))[i] == free[i];
  }

  // ---------------------------------------------------------------- the whole invariant

  /** The invariant on snapshots: b and heads are the headers, d the value area. */
  ghost predicate InvOn(H: nat, B: nat, b: seq<SBlockHead>, heads: seq<SHashHead>, d: seq<Byte>,
                        head: int, tail: int, free: seq<int>, used: seq<Block>, chain: seq<seq<Block>>, skip: nat)
  {
    && H > 0 && B > 0
    && Shape(H, used, chain)
    && LruOk(b, free + Idxs(used), head, tail)
    && BucketsLinked(b, heads, chain)
    && NodesAt(b, d, B, used)
    && FreesAt(b, free, skip)
    && IdxOk(b)
  }

  lemma InvShape(H: nat, B: nat, b: seq<SBlockHead>, heads: seq<SHashHead>, d: seq<Byte>,
                 head: int, tail: int, free: seq<int>, used: seq<Block>, chain: seq<seq<Block>>, skip: nat)
    requires InvOn(H, B, b, heads, d, head, tail, free, used, chain, skip)
    ensures H > 0 && Shape(H, used, chain)
  {
  }

  lemma InvSizes(H: nat, B: nat, b: seq<SBlockHead>, heads: seq<SHashHead>, d: seq<Byte>,
                 head: int, tail: int, free: seq<int>, used: seq<Block>, chain: seq<seq<Block>>, skip: nat)
    requires InvOn(H, B, b, heads, d, head, tail, free, used, chain, skip)
    ensures H > 0 && B > 0 && |chain| == H && |heads| == H
    ensures |free| + |used| == |b| > 0
    ensures head == if free != [] then free[0] else used[0].idx
    ensures 0 <= head < |b|
    ensures forall h :: 0 <= h < H ==> heads[h].m_head == IdxAt(chain[h], 0) && heads[h].m_len == |chain[h]|
  {
    assert (free + Idxs(used))[0] == if free != [] then free[0] else used[0].idx;
    forall h | 0 <= h < H
      ensures heads[h].m_head == IdxAt(chain[h], 0) && heads[h].m_len == |chain[h]|
    {
      assert BucketLinked(b, heads[h], chain[h]);
    }
  }

  /** What a walk sees at position p of chain h. */
  lemma ChainWalk(H: nat, B: nat, b: seq<SBlockHead>, heads: seq<SHashHead>, d: seq<Byte>,
                  head: int, tail: int, free: seq<int>, used: seq<Block>, chain: seq<seq<Block>>, skip: nat, h: int,
                  p: nat)
    returns (q: nat)
    requires InvOn(H, B, b, heads, d, head, tail, free, used, chain, skip)
    requires 0 <= h < |chain| && p < |chain[h]|
    ensures q < |used| && used[q] == chain[h][p] && NodeAt(b, d, B, used[q])
    ensures b[used[q].idx].m_next == IdxAt(chain[h], p + 1) && b[used[q].idx].m_idx == used[q].idx
    ensures used[q].key % H == h && used[q].key != 0
    ensures forall i :: p < i < |chain[h]| ==> chain[h][p].key <= chain[h][i].key
  {
    assert ChainOk(H, h, chain[h], used) && BucketLinked(b, heads[h], chain[h]);
    q :| 0 <= q < |used| && used[q] == chain[h][p];
    assert NodeAt(b, d, B, used[q]);
  }

  lemma RemovedMembers(s: seq<Block>, q: nat)
    requires q < |s|
    ensures forall n :: n in s ==> n in RemoveAt(s, q) || n == s[q]
  {
    forall n | n in s && n != s[q]
      ensures n in RemoveAt(s, q)
    {
      RemoveMembers(s, q, n);
    }
  }

  /** One block of the key goes from used, at q, and from its chain, at p. */
  lemma DropStep(used: seq<Block>, q: nat, c: seq<Block>, p: nat, key: nat)
    requires q < |used| && p < |c| && used[q] == c[p] && c[p].key == key
    requires forall i :: 0 <= i < p ==> c[i].key < key
    ensures Keep(c[..p], key) == []
    ensures Drop(RemoveAt(used, q), key) == Drop(used, key) && Drop(RemoveAt(c, p), key) == Drop(c, key)
    ensures |RemoveAt(c, p)| == |c| - 1 && forall i :: 0 <= i < p ==> RemoveAt(c, p)[i] == c[i]
    ensures forall n :: n in used ==> n in RemoveAt(used, q) || n == used[q]
  {
    hide Keep, Drop;
    FilterNone(c[..p], key);
    FilterRemoveAt(used, q, key);
    FilterRemoveAt(c, p, key);
    RemovedMembers(used, q);
  }

  lemma FreeBlock(H: nat, B: nat, b: seq<SBlockHead>, heads: seq<SHashHead>, d: seq<Byte>,
                  head: int, tail: int, free: seq<int>, used: seq<Block>, chain: seq<seq<Block>>, cur: int)
    requires InvOn(H, B, b, heads, d, head, tail, free, used, chain, 0) && cur in free
    ensures 0 <= cur < |b| && b[cur].m_key == 0 && b[cur].m_next == NIL
  {
    var i :| 0 <= i < |free| && free[i] == cur;
    assert FreeAt(b, free[i]);
  }

  /** A walk that meets no further block is at the end of its chain. */
  lemma ChainEnd(H: nat, B: nat, b: seq<SBlockHead>, heads: seq<SHashHead>, d: seq<Byte>,
                 head: int, tail: int, free: seq<int>, used: seq<Block>, chain: seq<seq<Block>>, skip: nat, h: int,
                 p: nat)
    requires InvOn(H, B, b, heads, d, head, tail, free, used, chain, skip)
    requires 0 <= h < |chain| && p <= |chain[h]| && IdxAt(chain[h], p) == NIL
    ensures p == |chain[h]|
  {
    assert BucketLinked(b, heads[h], chain[h]);
  }

  /** When the walk for a key stops without a match ahead, the key has no blocks. */
  lemma WalkDone(H: nat, B: nat, b: seq<SBlockHead>, heads: seq<SHashHead>, d: seq<Byte>,
                 head: int, tail: int, free: seq<int>, used: seq<Block>, chain: seq<seq<Block>>, skip: nat, key: nat,
                 p: nat)
    requires InvOn(H, B, b, heads, d, head, tail, free, used, chain, skip)
    requires p <= |chain[key % H]|
    requires forall i :: 0 <= i < p ==> chain[key % H][i].key < key
    requires p < |chain[key % H]| ==> IdxAt(chain[key % H], p) == NIL || chain[key % H][p].key > key
    ensures Drop(used, key) == used && Keep(used, key) == []
    ensures Drop(chain[key % H], key) == chain[key % H]
  {
    var h := key % H;
    var c := chain[h];
    assert SameFilter(H, chain, used, key);
    assert ChainOk(H, h, c, used) && BucketLinked(b, heads[h], c);
    FilterNone(c, key);
    FilterEmpty(used, key);
  }

  /** What the header updates of one block rely on. */
  lemma ReleasePre(H: nat, B: nat, b: seq<SBlockHead>, heads: seq<SHashHead>, d: seq<Byte>,
                   head: int, tail: int, free: seq<int>, used: seq<Block>, chain: seq<seq<Block>>, h: int, p: nat,
                   q: nat)
    requires InvOn(H, B, b, heads, d, head, tail, free, used, chain, 0)
    requires q < |used| && h == used[q].key % H && p < |chain[h]| && chain[h][p] == used[q]
    ensures LruOk(b, free + Idxs(used), head, tail)
    ensures (free + Idxs(used))[|free| + q] == used[q].idx
    ensures RemoveAt(free + Idxs(used), |free| + q) == free + Idxs(RemoveAt(used, q))
    ensures 0 <= h < |heads| && 0 <= used[q].idx < |b| && heads[h].m_len > 0
    ensures p > 0 ==> 0 <= chain[h][p - 1].idx < |b| && chain[h][p - 1].idx != used[q].idx
    ensures b[used[q].idx].m_next == IdxAt(chain[h], p + 1)
    ensures IdxAt(RemoveAt(chain[h], p), p) == IdxAt(chain[h], p + 1)
  {
    LruPosition(free, used, q);
    assert ChainOk(H, h, chain[h], used) && BucketLinked(b, heads[h], chain[h]);
  }

  /** From the invariant, through clearing a header and moving the block to the head, to the invariant. */
  lemma ReleaseOk(H: nat, B: nat, b: seq<SBlockHead>, c: seq<SBlockHead>, e: seq<SBlockHead>,
                  heads: seq<SHashHead>, heads': seq<SHashHead>, d: seq<Byte>,
                  head: int, tail: int, head': int, tail': int,
                  free: seq<int>, used: seq<Block>, chain: seq<seq<Block>>, h: int, p: nat, q: nat)
    requires InvOn(H, B, b, heads, d, head, tail, free, used, chain, 0)
    requires q < |used| && h == used[q].key % H && p < |chain[h]| && chain[h][p] == used[q]
    requires Keep(chain[h][..p], used[q].key) == []
    requires Unlinked(b, c, used[q].idx, if p == 0 then NIL else chain[h][p - 1].idx)
    requires |heads'| == |heads| && forall g :: 0 <= g < |heads| && g != h ==> heads'[g] == heads[g]
    requires heads'[h].m_len == heads[h].m_len - 1
    requires heads'[h].m_head == if p == 0 then b[used[q].idx].m_next else heads[h].m_head
    requires SameButLru(c, e)
    requires LruOk(e, [used[q].idx] + (free + Idxs(RemoveAt(used, q))), head', tail')
    ensures InvOn(H, B, e, heads', d, head', tail', [used[q].idx] + free, RemoveAt(used, q),
                  chain[h := RemoveAt(chain[h], p)], 0)
  {
    var free', used', chain' := [used[q].idx] + free, RemoveAt(used, q), chain[h := RemoveAt(chain[h], p)];
    UnlinkOk(H, |b|, B, b, c, heads, heads', d, free, used, chain, h, p, q);
    ShapeRemove(H, |b|, free, used, chain, p, q, h);
    RelinkFrame(c, e, heads', chain', d, B, used', free', 0);
    assert [used[q].idx] + (free + Idxs(used')) == free' + Idxs(used');
  }

  // ---------------------------------------------------------------- linking a block

  /** What InsertHash writes before moving the block: it sits between pre (or the bucket) and next. */
  ghost predicate Linked(b: seq<SBlockHead>, c: seq<SBlockHead>, idx: int, pre: int, next: int) {
    && |b| == |c| && 0 <= idx < |b| && pre < |b| && idx != pre
    && c[idx] == b[idx].(m_next := next)
    && (pre >= 0 ==> c[pre] == b[pre].(m_next := idx))
    && forall i :: 0 <= i < |b| && i != idx && i != pre ==> c[i] == b[i]
  }

  lemma LinkBucket(b: seq<SBlockHead>, c: seq<SBlockHead>, head: SHashHead, head': SHashHead, ns: seq<Block>,
                   n: Block, p: nat)
    requires BucketLinked(b, head, ns) && p <= |ns|
    requires forall i, j :: 0 <= i < j < |ns| ==> ns[i].idx != ns[j].idx
    requires forall i :: 0 <= i < |ns| ==> ns[i].idx != n.idx
    requires Linked(b, c, n.idx, if p == 0 then NIL else ns[p - 1].idx, IdxAt(ns, p))
    requires head'.m_len == head.m_len + 1
    requires head'.m_head == if p == 0 then n.idx else head.m_head
    ensures BucketLinked(c, head', ns[..p] + [n] + ns[p..])
  {
    var r := ns[..p] + [n] + ns[p..];
    WithAt(ns, p, n);
    forall i | 0 <= i < |r|
      ensures 0 <= r[i].idx < |c| && c[r[i].idx].m_next == IdxAt(r, i + 1)
    {
      LinkedNode(b, c, head, ns, n, p, r, i);
    }
  }

  lemma LinkedNode(b: seq<SBlockHead>, c: seq<SBlockHead>, head: SHashHead, ns: seq<Block>, n: Block, p: nat,
                   r: seq<Block>, i: nat)
    requires BucketLinked(b, head, ns) && p <= |ns| && i < |r| == |ns| + 1
    requires forall i, j :: 0 <= i < j < |ns| ==> ns[i].idx != ns[j].idx
    requires forall i :: 0 <= i < |ns| ==> ns[i].idx != n.idx
    requires Linked(b, c, n.idx, if p == 0 then NIL else ns[p - 1].idx, IdxAt(ns, p))
    requires forall i :: 0 <= i < |r| ==> r[i] == if i < p then ns[i] else if i == p then n else ns[i - 1]
    ensures 0 <= r[i].idx < |c| && c[r[i].idx].m_next == IdxAt(r, i + 1)
  {
    if i < p - 1 {
      assert ns[i].idx != ns[p - 1].idx && b[ns[i].idx].m_next == IdxAt(ns, i + 1);
    } else if i > p {
      assert b[ns[i - 1].idx].m_next == IdxAt(ns, i);
      assert p > 0 ==> ns[i - 1].idx != ns[p - 1].idx;
    }
  }

  lemma LinkedSame(b: seq<SBlockHead>, c: seq<SBlockHead>, idx: int, pre: int, next: int, i: int)
    requires Linked(b, c, idx, pre, next) && 0 <= i < |b| && i != idx && i != pre
    ensures c[i] == b[i]
  {
  }

  lemma OtherApart(H: nat, N: nat, free: seq<int>, used: seq<Block>, chain: seq<seq<Block>>, h: int, p: nat,
                   g: int, i: nat)
    requires H > 0 && Perm(free + Idxs(used), N) && ChainsOk(H, used, chain) && free != []
    requires 0 <= h < H && p <= |chain[h]| && 0 <= g < H && g != h && i < |chain[g]|
    ensures chain[g][i].idx != free[0] && (p > 0 ==> chain[g][i].idx != chain[h][p - 1].idx)
  {
    ChainMembers(H, used, chain, g);
    hide ChainsOk, Perm;
    var x :| 0 <= x < |used| && used[x] == chain[g][i];
    FreeNotUsed(N, free, used, 0, x);
    if p > 0 {
      ChainsApart(H, N, free, used, chain, g, i, h, p - 1);
    }
  }

  lemma LinkOther(H: nat, N: nat, b: seq<SBlockHead>, c: seq<SBlockHead>, head: SHashHead, free: seq<int>,
                  used: seq<Block>, chain: seq<seq<Block>>, h: int, n: Block, p: nat, g: int, next: int)
    requires H > 0 && Perm(free + Idxs(used), N) && ChainsOk(H, used, chain)
    requires free != [] && n.idx == free[0] && 0 <= h < H && p <= |chain[h]|
    requires 0 <= g < H && g != h && BucketLinked(b, head, chain[g])
    requires Linked(b, c, n.idx, if p == 0 then NIL else chain[h][p - 1].idx, next)
    ensures BucketLinked(c, head, chain[g])
  {
    assert |chain| == H && |b| == |c|;
    hide ChainsOk, Perm, Linked;
    ChainMembers(H, used, chain, g);
    var pre := if p == 0 then NIL else chain[h][p - 1].idx;
    forall i | 0 <= i < |chain[g]|
      ensures c[chain[g][i].idx].m_next == b[chain[g][i].idx].m_next
    {
      OtherApart(H, N, free, used, chain, h, p, g, i);
      LinkedSame(b, c, n.idx, pre, next, chain[g][i].idx);
    }
    BucketFrame(b, c, head, chain[g]);
  }

  lemma LinkNodes(N: nat, B: nat, b: seq<SBlockHead>, c: seq<SBlockHead>, d: seq<Byte>, used: seq<Block>, n: Block,
                  pre: int, next: int)
    requires NodesAt(b, d, B, used) && NodeAt(b, d, B, n)
    requires Linked(b, c, n.idx, pre, next)
    ensures NodesAt(c, d, B, used + [n])
  {
    var u := used + [n];
    forall i | 0 <= i < |u|
      ensures NodeAt(c, d, B, u[i])
    {
      assert i < |used| ==> NodeAt(b, d, B, used[i]);
    }
  }

  lemma LinkFrees(H: nat, N: nat, b: seq<SBlockHead>, c: seq<SBlockHead>, free: seq<int>, used: seq<Block>,
                  chain: seq<seq<Block>>, h: int, n: Block, p: nat, next: int)
    requires H > 0 && Perm(free + Idxs(used), N) && ChainsOk(H, used, chain)
    requires FreesAt(b, free, 1) && free != [] && n.idx == free[0] && 0 <= h < H && p <= |chain[h]|
    requires Linked(b, c, n.idx, if p == 0 then NIL else chain[h][p - 1].idx, next)
    ensures FreesAt(c, free[1..], 0)
  {
    assert ChainOk(H, h, chain[h], used);
    forall i | 0 <= i < |free| - 1
      ensures FreeAt(c, free[1..][i])
    {
      assert FreeAt(b, free[i + 1]);
      assert (free + Idxs(used))[i + 1] == free[i + 1] && (free + Idxs(used))[0] == free[0];
      PermDistinctIf(free + Idxs(used), N, 0, i + 1);
      if p > 0 {
        var x :| 0 <= x < |used| && used[x] == chain[h][p - 1];
        FreeNotUsed(N, free, used, i + 1, x);
      }
    }
  }

  lemma PermDistinctIf(lru: seq<int>, n: nat, p: nat, q: nat)
    requires Perm(lru, n) && p < q < n
    ensures lru[p] != lru[q]
  {
  }

  lemma LruPerm(b: seq<SBlockHead>, lru: seq<int>, head: int, tail: int)
    requires LruOk(b, lru, head, tail)
    ensures Perm(lru, |b|)
  {
  }

  lemma LinkBuckets(H: nat, N: nat, b: seq<SBlockHead>, c: seq<SBlockHead>, heads: seq<SHashHead>,
                    heads': seq<SHashHead>, free: seq<int>, used: seq<Block>, chain: seq<seq<Block>>, h: int,
                    n: Block, p: nat)
    requires H > 0 && Perm(free + Idxs(used), N) && ChainsOk(H, used, chain) && BucketsLinked(b, heads, chain)
    requires free != [] && n.idx == free[0] && 0 <= h < H && p <= |chain[h]|
    requires Linked(b, c, n.idx, if p == 0 then NIL else chain[h][p - 1].idx, IdxAt(chain[h], p))
    requires |heads'| == |heads| && forall g :: 0 <= g < |heads| && g != h ==> heads'[g] == heads[g]
    requires heads'[h].m_len == heads[h].m_len + 1
    requires heads'[h].m_head == if p == 0 then n.idx else heads[h].m_head
    ensures BucketsLinked(c, heads', chain[h := chain[h][..p] + [n] + chain[h][p..]])
  {
    var chain' := chain[h := chain[h][..p] + [n] + chain[h][p..]];
    assert ChainOk(H, h, chain[h], used);
    forall g | 0 <= g < |chain'|
      ensures BucketLinked(c, heads'[g], chain'[g])
    {
      assert BucketLinked(b, heads[g], chain[g]);
      if g == h {
        forall i | 0 <= i < |chain[h]|
          ensures chain[h][i].idx != n.idx
        {
          var x :| 0 <= x < |used| && used[x] == chain[h][i];
          FreeNotUsed(N, free, used, 0, x);
        }
        LinkBucket(b, c, heads[h], heads'[h], chain[h], n, p);
      } else {
        LinkOther(H, N, b, c, heads[g], free, used, chain, h, n, p, g, IdxAt(chain[h], p));
      }
    }
  }

  /** What the link updates of one block rely on. */
  lemma InsertPre(H: nat, B: nat, b: seq<SBlockHead>, heads: seq<SHashHead>, d: seq<Byte>,
                  head: int, tail: int, free: seq<int>, used: seq<Block>, chain: seq<seq<Block>>, h: int, p: nat)
    requires InvOn(H, B, b, heads, d, head, tail, free, used, chain, 1)
    requires free != [] && 0 <= h < |chain| && p <= |chain[h]|
    ensures LruOk(b, free + Idxs(used), head, tail)
    ensures (free + Idxs(used))[0] == free[0]
    ensures 0 <= free[0] < |b|
    ensures p > 0 ==> 0 <= chain[h][p - 1].idx < |b| && chain[h][p - 1].idx != free[0]
  {
    assert ChainOk(H, h, chain[h], used) && BucketLinked(b, heads[h], chain[h]);
    if p > 0 {
      var x :| 0 <= x < |used| && used[x] == chain[h][p - 1];
      FreeNotUsed(|b|, free, used, 0, x);
    }
  }

  /** Where the walk of InsertHash stops. */
  lemma InsertionPoint(H: nat, B: nat, b: seq<SBlockHead>, heads: seq<SHashHead>, d: seq<Byte>,
                       head: int, tail: int, free: seq<int>, used: seq<Block>, chain: seq<seq<Block>>, h: int, p: nat,
                       key: nat)
    requires InvOn(H, B, b, heads, d, head, tail, free, used, chain, 1)
    requires 0 <= h < |chain| && p <= |chain[h]|
    requires p < |chain[h]| ==> IdxAt(chain[h], p) == NIL || chain[h][p].key > key
    ensures forall i :: p <= i < |chain[h]| ==> key < chain[h][i].key
  {
    assert ChainOk(H, h, chain[h], used) && BucketLinked(b, heads[h], chain[h]);
  }

  /** From a filled-in free block, through linking it and moving it to the tail, to the invariant. */
  lemma InsertOk(H: nat, B: nat, b: seq<SBlockHead>, c: seq<SBlockHead>, e: seq<SBlockHead>,
                 heads: seq<SHashHead>, heads': seq<SHashHead>, d: seq<Byte>,
                 head: int, tail: int, head': int, tail': int,
                 free: seq<int>, used: seq<Block>, chain: seq<seq<Block>>, h: int, n: Block, p: nat)
    requires InvOn(H, B, b, heads, d, head, tail, free, used, chain, 1)
    requires free != [] && n.idx == free[0] && n.key != 0 && h == n.key % H && NodeAt(b, d, B, n)
    requires forall q :: 0 <= q < |used| && used[q].key == n.key ==> used[q].uptime == n.uptime
    requires p <= |chain[h]|
    requires forall i :: 0 <= i < p ==> chain[h][i].key <= n.key
    requires forall i :: p <= i < |chain[h]| ==> n.key < chain[h][i].key
    requires Linked(b, c, n.idx, if p == 0 then NIL else chain[h][p - 1].idx, IdxAt(chain[h], p))
    requires |heads'| == |heads| && forall g :: 0 <= g < |heads| && g != h ==> heads'[g] == heads[g]
    requires heads'[h].m_len == heads[h].m_len + 1
    requires heads'[h].m_head == if p == 0 then n.idx else heads[h].m_head
    requires SameButLru(c, e)
    requires LruOk(e, RemoveAt(free + Idxs(used), 0) + [n.idx], head', tail')
    ensures InvOn(H, B, e, heads', d, head', tail', free[1..], used + [n],
                  chain[h := chain[h][..p] + [n] + chain[h][p..]], 0)
  {
    hide Keep, LruOk;
    var N := |b|;
    var free', used', chain' := free[1..], used + [n], chain[h := chain[h][..p] + [n] + chain[h][p..]];
    LruPerm(b, free + Idxs(used), head, tail);
    LinkBuckets(H, N, b, c, heads, heads', free, used, chain, h, n, p);
    LinkNodes(N, B, b, c, d, used, n, if p == 0 then NIL else chain[h][p - 1].idx, IdxAt(chain[h], p));
    LinkFrees(H, N, b, c, free, used, chain, h, n, p, IdxAt(chain[h], p));
    ShapeInsert(H, N, free, used, chain, n, p, h);
    RelinkFrame(c, e, heads', chain', d, B, used', free', 0);
    assert RemoveAt(free + Idxs(used), 0) + [n.idx] == free' + Idxs(used');
  }

  /** Filling in the header and the data area of the first free block. */
  lemma FillOk(H: nat, B: nat, b: seq<SBlockHead>, c: seq<SBlockHead>, heads: seq<SHashHead>, d: seq<Byte>,
               e: seq<Byte>, head: int, tail: int, free: seq<int>, used: seq<Block>, chain: seq<seq<Block>>, n: Block)
    requires InvOn(H, B, b, heads, d, head, tail, free, used, chain, 0)
    requires free != [] && n.idx == free[0] && 0 <= n.idx < |b|
    requires c == b[n.idx := b[n.idx].(m_key := n.key, m_uptime := n.uptime, m_len := |n.data|)]
    requires |n.data| <= B && 0 <= n.idx * B && n.idx * B + |n.data| <= |d|
    requires e == d[..n.idx * B] + n.data + d[n.idx * B + |n.data|..]
    ensures InvOn(H, B, c, heads, e, head, tail, free, used, chain, 1)
    ensures NodeAt(c, e, B, n)
  {
    var N, lru := |b|, free + Idxs(used);
    SlotSelf(d, e, B, n.idx, n.data);
    LruFrame(b, c, lru, head, tail);
    forall q | 0 <= q < |used|
      ensures NodeAt(c, e, B, used[q])
    {
      assert NodeAt(b, d, B, used[q]);
      FreeNotUsed(N, free, used, 0, q);
      SlotWritten(d, e, B, n.idx, n.data, used[q].idx, used[q].data);
    }
    forall i | 1 <= i < |free|
      ensures FreeAt(c, free[i])
    {
      assert FreeAt(b, free[i]);
      assert lru[i] == free[i] && lru[0] == free[0];
      PermDistinctIf(lru, N, 0, i);
    }
    forall h | 0 <= h < |chain|
      ensures BucketLinked(c, heads[h], chain[h])
    {
      assert BucketLinked(b, heads[h], chain[h]);
      BucketFrame(b, c, heads[h], chain[h]);
    }
  }

  lemma HeadKey(H: nat, B: nat, b: seq<SBlockHead>, heads: seq<SHashHead>, d: seq<Byte>,
                head: int, tail: int, free: seq<int>, used: seq<Block>, chain: seq<seq<Block>>)
    requires InvOn(H, B, b, heads, d, head, tail, free, used, chain, 0)
    ensures |free| + |used| == |b| > 0 && 0 <= head < |b|
    ensures free != [] ==> head == free[0] && b[head].m_key == 0
    ensures free == [] ==> head == used[0].idx && b[head].m_key == used[0].key != 0
    ensures b[head].m_idx == head
  {
    InvSizes(H, B, b, heads, d, head, tail, free, used, chain, 0);
    if free != [] {
      assert FreeAt(b, free[0]);
    } else {
      assert NodeAt(b, d, B, used[0]);
    }
  }

  // ---------------------------------------------------------------- a value being stored

  /** The used blocks while a value is stored: the other keys' blocks, then the value's own. */
  ghost predicate Storing(used: seq<Block>, rest: seq<Block>, own: seq<Block>, key: nat, now: int) {
    && used == rest + own
    && Keep(rest, key) == []
    && forall i :: 0 <= i < |own| ==> own[i].key == key && own[i].uptime == now
  }

  /** Evicting the least recently used entry of a full cache. */
  lemma EvictStep(N: nat, used: seq<Block>, rest: seq<Block>, own: seq<Block>, key: nat, now: int, cs: seq<seq<Byte>>)
    returns (rest': seq<Block>, own': seq<Block>)
    requires Storing(used, rest, own, key, now) && |used| == N > 0 && cs != []
    ensures Storing(Drop(used, used[0].key), rest', own', key, now)
    ensures Store(N, Entries(rest), Datas(own), cs) == Store(N, Entries(rest'), Datas(own') + [cs[0]], cs[1..])
  {
    var k := used[0].key;
    FilterAppend(rest, own, k);
    EntriesBlocks(rest);
    if rest != [] {
      FilterEmpty(rest, key);
      FilterNone(own, k);
      FilterFilter(rest, k, key);
      rest', own' := Drop(rest, k), own;
      assert Entries(rest)[1..] == Entries(rest');
    } else {
      FilterAll(own, key);
      rest', own' := [], [];
      assert Datas(own') + [cs[0]] == [cs[0]];
    }
  }

  lemma NoEvictStep(N: nat, used: seq<Block>, rest: seq<Block>, own: seq<Block>, key: nat, now: int, cs: seq<seq<Byte>>)
    requires Storing(used, rest, own, key, now) && |used| < N && cs != []
    ensures Store(N, Entries(rest), Datas(own), cs) == Store(N, Entries(rest), Datas(own) + [cs[0]], cs[1..])
  {
    EntriesBlocks(rest);
  }

  lemma StoringStart(used: seq<Block>, key: nat, now: int)
    ensures Storing(Drop(used, key), Drop(used, key), [], key, now)
  {
    FilterFilter(used, key, key);
    assert Drop(used, key) + [] == Drop(used, key);
  }

  lemma StoringEntries(used: seq<Block>, rest: seq<Block>, own: seq<Block>, key: nat, now: int)
    requires Storing(used, rest, own, key, now)
    ensures Entries(used) == WithOwn(Entries(rest), key, Datas(own), now)
  {
    if own == [] {
      assert used == rest;
    } else {
      EntriesAppend(rest, own, key, now);
    }
  }

  lemma StoringUptimes(used: seq<Block>, rest: seq<Block>, own: seq<Block>, key: nat, now: int)
    requires Storing(used, rest, own, key, now)
    ensures forall q :: 0 <= q < |used| && used[q].key == key ==> used[q].uptime == now
  {
    FilterEmpty(rest, key);
  }

  lemma StoringAppend(used: seq<Block>, rest: seq<Block>, own: seq<Block>, key: nat, now: int, n: Block)
    requires Storing(used, rest, own, key, now) && n.key == key && n.uptime == now
    ensures Storing(used + [n], rest, own + [n], key, now)
    ensures Datas(own + [n]) == Datas(own) + [n.data]
  {
    assert used + [n] == rest + (own + [n]);
  }

  lemma ChunksStep(B: nat, d: seq<Byte>)
    requires B > 0 && d != []
    ensures Chunks(B, d) == [d[..if |d| <= B then |d| else B]] + Chunks(B, d[if |d| <= B then |d| else B..])
  {
    if |d| <= B {
      assert d[..|d|] == d && d[|d|..] == [];
    }
  }

  lemma StoreDone(N: nat, B: nat, rest: seq<Entry>, own: seq<seq<Byte>>)
    requires B > 0
    ensures Store(N, rest, own, Chunks(B, [])) == (rest, own)
  {
  }

  // ---------------------------------------------------------------- a value being read

  /** A read under way: the first p nodes of chain c were visited, those of the key moved to the end. */
  ghost predicate Touching(used: seq<Block>, rest: seq<Block>, done: seq<Block>, c: seq<Block>, p: nat, key: nat) {
    && p <= |c|
    && done == Keep(c[..p], key)
    && Keep(rest, key) == Keep(c[p..], key)
    && Drop(rest, key) == Drop(used, key)
    && (done == [] ==> rest == used)
  }

  lemma TouchStart(H: nat, used: seq<Block>, chain: seq<seq<Block>>, key: nat)
    requires H > 0 && Shape(H, used, chain)
    ensures Touching(used, used, [], chain[key % H], 0, key)
  {
    assert SameFilter(H, chain, used, key);
    assert chain[key % H][0..] == chain[key % H];
  }

  lemma TouchSkip(used: seq<Block>, rest: seq<Block>, done: seq<Block>, c: seq<Block>, p: nat, key: nat)
    requires Touching(used, rest, done, c, p, key) && p < |c| && c[p].key != key
    ensures Touching(used, rest, done, c, p + 1, key)
  {
    assert c[..p + 1] == c[..p] + [c[p]];
    FilterAppend(c[..p], [c[p]], key);
    FilterOne(c[p], key);
    assert done + [] == done;
    assert c[p..][1..] == c[p + 1..];
  }

  lemma TouchNext(N: nat, free: seq<int>, used: seq<Block>, rest: seq<Block>, done: seq<Block>, c: seq<Block>, p: nat,
                  key: nat)
    returns (q: nat)
    requires Touching(used, rest, done, c, p, key) && p < |c| && c[p].key == key
    requires Perm(free + Idxs(rest + done), N)
    ensures q < |rest| && rest[q] == c[p]
    ensures Touching(used, RemoveAt(rest, q), done + [c[p]], c, p + 1, key)
  {
    hide Keep, Drop, Perm;
    var n := c[p];
    assert c[p..] == [n] + c[p + 1..];
    FilterAppend([n], c[p + 1..], key);
    assert c[..p + 1] == c[..p] + [n];
    FilterAppend(c[..p], [n], key);
    FilterOne(n, key);
    assert Keep(rest, key)[0] == n;
    FilterMembers(rest, key, n);
    q :| 0 <= q < |rest| && rest[q] == n;
    FilterAppend(rest, done, key);
    NoneBefore(N, free, rest + done, q);
    assert (rest + done)[..q] == rest[..q];
    FilterRemoveAt(rest, q, key);
    assert Keep(rest, key) == [n] + Keep(rest[q + 1..], key);
    assert Keep(rest, key)[1..] == Keep(rest[q + 1..], key);
    assert Keep(rest, key)[1..] == Keep(c[p + 1..], key);
  }

  lemma TouchPosition(free: seq<int>, rest: seq<Block>, done: seq<Block>, q: nat)
    requires q < |rest|
    ensures var lru := free + Idxs(rest + done);
            && |free| + q < |lru| && lru[|free| + q] == rest[q].idx
            && RemoveAt(lru, |free| + q) + [rest[q].idx] == free + Idxs(RemoveAt(rest, q) + (done + [rest[q]]))
  {
  }

  lemma TouchEnd(H: nat, used: seq<Block>, chain: seq<seq<Block>>, rest: seq<Block>, done: seq<Block>, p: nat, key: nat)
    requires H > 0 && Shape(H, used, chain)
    requires Touching(used, rest, done, chain[key % H], p, key)
    requires forall i :: p <= i < |chain[key % H]| ==> chain[key % H][i].key != key
    ensures done == Keep(used, key) && rest == Drop(used, key)
  {
    hide Keep, Drop;
    var c := chain[key % H];
    FilterNone(c[p..], key);
    FilterEmpty(rest, key);
    assert SameFilter(H, chain, used, key);
    assert c == c[..p] + c[p..];
    FilterAppend(c[..p], c[p..], key);
  }

  lemma ReadEntries(H: nat, used: seq<Block>, chain: seq<seq<Block>>, key: nat)
    requires H > 0 && Shape(H, used, chain)
    ensures Keep(used, key) == [] ==> !HasKey(Entries(used), key)
    ensures Keep(used, key) != [] ==>
              && HasKey(Entries(used), key)
              && Find(Entries(used), key) == Entry(key, Datas(Keep(used, key)), Keep(used, key)[0].uptime)
              && Entries(Drop(used, key) + Keep(used, key))
                 == DropEntry(Entries(used), key) + [Find(Entries(used), key)]
    ensures Entries(Drop(used, key)) == DropEntry(Entries(used), key)
  {
    EntriesFind(used, key);
    EntriesDrop(used, key);
    var own := Keep(used, key);
    if own != [] {
      forall i | 0 <= i < |own|
        ensures own[i] in used && own[i].key == key
      {
        FilterMembers(used, key, own[i]);
      }
      FilterFilter(used, key, key);
      EntriesAppend(Drop(used, key), own, key, own[0].uptime);
    }
  }

  lemma TouchedOk(H: nat, B: nat, b: seq<SBlockHead>, e: seq<SBlockHead>, heads: seq<SHashHead>, d: seq<Byte>,
                  head: int, tail: int, head': int, tail': int, free: seq<int>, used: seq<Block>,
                  chain: seq<seq<Block>>, key: nat)
    requires InvOn(H, B, b, heads, d, head, tail, free, used, chain, 0)
    requires SameButLru(b, e)
    requires LruOk(e, free + Idxs(Drop(used, key) + Keep(used, key)), head', tail')
    ensures InvOn(H, B, e, heads, d, head', tail', free, Drop(used, key) + Keep(used, key), chain, 0)
  {
    ShapeTouch(H, used, chain, key);
    RelinkFrame(b, e, heads, chain, d, B, used, free, 0);
    var u := Drop(used, key) + Keep(used, key);
    forall q | 0 <= q < |u|
      ensures NodeAt(e, d, B, u[q])
    {
      assert u[q] in u;
      FilterMembers(used, key, u[q]);
      var x :| 0 <= x < |used| && used[x] == u[q];
      assert NodeAt(e, d, B, used[x]);
    }
  }

  lemma RelinkTwice(b: seq<SBlockHead>, c: seq<SBlockHead>, e: seq<SBlockHead>)
    requires SameButLru(b, c) && SameButLru(c, e)
    ensures SameButLru(b, e)
  {
  }

  lemma ReadSlot(b: seq<SBlockHead>, d: seq<Byte>, B: nat, n: Block)
    requires NodeAt(b, d, B, n)
    ensures 0 <= n.idx * B <= n.idx * B + |n.data| <= |d|
    ensures d[n.idx * B..n.idx * B + |n.data|] == n.data
  {
    MulNonneg(n.idx, B);
  }

  lemma ReadStart(H: nat, B: nat, b: seq<SBlockHead>, heads: seq<SHashHead>, d: seq<Byte>,
                  head: int, tail: int, free: seq<int>, used: seq<Block>, chain: seq<seq<Block>>, key: nat)
    requires InvOn(H, B, b, heads, d, head, tail, free, used, chain, 0)
    ensures Touching(used, used, [], chain[key % H], 0, key)
    ensures SameButLru(b, b)
    ensures LruOk(b, free + Idxs(used + []), head, tail)
  {
    TouchStart(H, used, chain, key);
    assert used + [] == used;
  }

  lemma HeaderSame(b: seq<SBlockHead>, c: seq<SBlockHead>, d: seq<Byte>, B: nat, n: Block)
    requires SameButLru(b, c) && NodeAt(b, d, B, n)
    ensures |c| == |b| && 0 <= n.idx < |c| && NodeAt(c, d, B, n)
    ensures c[n.idx].m_key == n.key && c[n.idx].m_len == |n.data| && c[n.idx].m_uptime == n.uptime
    ensures c[n.idx].m_next == b[n.idx].m_next && c[n.idx].m_idx == b[n.idx].m_idx
  {
  }

  /** A key's blocks expire together: only its first block can be found expired. */
  lemma ExpiresFirst(H: nat, used: seq<Block>, rest: seq<Block>, done: seq<Block>, chain: seq<seq<Block>>, p: nat,
                     q: nat)
    requires H > 0 && Shape(H, used, chain) && q < |used|
    requires Touching(used, rest, done, chain[used[q].key % H], p, used[q].key)
    ensures done != [] ==> done[0].uptime == used[q].uptime
    ensures Keep(used, used[q].key) != [] && Keep(used, used[q].key)[0].uptime == used[q].uptime
  {
    hide Keep, Drop;
    var key := used[q].key;
    var c := chain[key % H];
    FilterMembers(used, key, used[q]);
    FilterMembers(used, key, Keep(used, key)[0]);
    if done != [] {
      assert c == c[..p] + c[p..];
      FilterAppend(c[..p], c[p..], key);
      assert SameFilter(H, chain, used, key);
      assert done[0] == Keep(used, key)[0];
    }
  }

  lemma ExpiredReply(H: nat, used: seq<Block>, chain: seq<seq<Block>>, key: nat, now: int, timeout: nat)
    requires H > 0 && Shape(H, used, chain)
    requires Keep(used, key) != [] && now - Keep(used, key)[0].uptime > timeout
    ensures GetReply(Entries(used), key, now, timeout) == Timeout
    ensures GetSpec(Entries(used), key, now, timeout) == Entries(Drop(used, key))
  {
    ReadEntries(H, used, chain, key);
  }

  /** Where the walk of Get stops, no block of the key is ahead. */
  lemma ReadEnd(H: nat, B: nat, b: seq<SBlockHead>, heads: seq<SHashHead>, d: seq<Byte>,
                head: int, tail: int, free: seq<int>, used: seq<Block>, chain: seq<seq<Block>>, p: nat, key: nat)
    requires InvOn(H, B, b, heads, d, head, tail, free, used, chain, 0) && p <= |chain[key % H]|
    requires p < |chain[key % H]| ==> IdxAt(chain[key % H], p) == NIL || chain[key % H][p].key > key
    ensures forall i :: p <= i < |chain[key % H]| ==> chain[key % H][i].key != key
  {
    assert ChainOk(H, key % H, chain[key % H], used) && BucketLinked(b, heads[key % H], chain[key % H]);
  }

  /** What a completed read amounts to. */
  lemma ReadDone(H: nat, B: nat, b: seq<SBlockHead>, e: seq<SBlockHead>, heads: seq<SHashHead>, d: seq<Byte>,
                 head: int, tail: int, head': int, tail': int, free: seq<int>, used: seq<Block>, chain: seq<seq<Block>>,
                 rest: seq<Block>, done: seq<Block>, p: nat, key: nat, now: int, timeout: nat)
    requires InvOn(H, B, b, heads, d, head, tail, free, used, chain, 0)
    requires SameButLru(b, e) && LruOk(e, free + Idxs(rest + done), head', tail')
    requires Touching(used, rest, done, chain[key % H], p, key)
    requires p < |chain[key % H]| ==> IdxAt(chain[key % H], p) == NIL || chain[key % H][p].key > key
    requires done != [] ==> now - done[0].uptime <= timeout
    ensures InvOn(H, B, e, heads, d, head', tail', free, rest + done, chain, 0)
    ensures GetReply(Entries(used), key, now, timeout) == if done == [] then NoExist else Ok(Flat(Datas(done)))
    ensures GetSpec(Entries(used), key, now, timeout) == Entries(rest + done)
  {
    var c := chain[key % H];
    InvShape(H, B, b, heads, d, head, tail, free, used, chain, 0);
    ReadEnd(H, B, b, heads, d, head, tail, free, used, chain, p, key);
    hide InvOn, LruOk, SameButLru, Touching, Shape, Keep, Drop, Entries, Flat;
    TouchEnd(H, used, chain, rest, done, p, key);
    TouchedOk(H, B, b, e, heads, d, head, tail, head', tail', free, used, chain, key);
    ReadEntries(H, used, chain, key);
    if done == [] {
      assert rest + done == used;
    }
  }

  // ---------------------------------------------------------------- the empty cache

  /** Header i of n blocks after initialisation. */
  function InitHead(n: nat, i: nat, uptime: int): SBlockHead {
    SBlockHead(0, i, 0, NIL, if i == 0 then n - 1 else i - 1, if i == n - 1 then 0 else i + 1, uptime)
  }

  lemma InitOk(H: nat, B: nat, b: seq<SBlockHead>, heads: seq<SHashHead>, d: seq<Byte>, free: seq<int>,
               chain: seq<seq<Block>>)
    requires H > 0 && B > 0 && |b| > 0
    requires forall i :: 0 <= i < |b| ==> b[i] == InitHead(|b|, i, b[i].m_uptime)
    requires |heads| == H && forall h :: 0 <= h < H ==> heads[h] == SHashHead(0, NIL)
    requires |free| == |b| && forall i :: 0 <= i < |b| ==> free[i] == i
    requires |chain| == H && forall h :: 0 <= h < H ==> chain[h] == []
    ensures InvOn(H, B, b, heads, d, 0, |b| - 1, free, [], chain, 0)
  {
    var lru := free + Idxs([]);
    assert lru == free;
    assert FiltersOk(H, [], chain);
    forall p | 0 <= p < |lru|
      ensures RingLink(b, lru, p)
    {
    }
    forall h | 0 <= h < H
      ensures ChainOk(H, h, chain[h], []) && BucketLinked(b, heads[h], chain[h])
    {
    }
    forall i | 0 <= i < |free|
      ensures FreeAt(b, free[i])
    {
      assert b[i] == InitHead(|b|, i, b[i].m_uptime);
    }
  }
}

/** The cache itself: block headers, hash heads and value area are arrays relinked in place. */
module ShmCache {
  import opened Bytes
  import opened CacheModel
  import opened CacheShape
  import opened CacheLinks
  import opened CacheSweep
  import opened Slices

  const ERR_OK := 0
  const ERR_KEY_NO_EXIST := -1
  const ERR_KEY_TIMEOUT := -2
  const ERR_KEY_ZERO := -3

  /** The return code and the bytes Get hands out for a reply. */
  function ReplyCode(r: Reply): (int, seq<Byte>) {
    match r
    case Ok(data) => (ERR_OK, data)
    case NoExist => (ERR_KEY_NO_EXIST, [])
    case Timeout => (ERR_KEY_TIMEOUT, [])
  }

  /** A read answers 0 with the bytes of the entry of the key exactly when there is one that is not expired,
      -2 when there is an expired one, and -1 when there is none. */
  ghost predicate Answers(es: seq<Entry>, key: nat, now: int, timeout: nat, ret: int, data: seq<Byte>) {
    && (ret == 0 <==> exists e :: e in es && e.key == key && now - e.uptime <= timeout)
    && (ret == -2 <==> exists e :: e in es && e.key == key && now - e.uptime > timeout)
    && (ret == -1 <==> forall e :: e in es ==> e.key != key)
    && (ret == 0 ==> forall e :: e in es && e.key == key ==> data == Flat(e.chunks))
    && (ret != 0 ==> data == [])
  }

  lemma ReplyAnswers(es: seq<Entry>, key: nat, now: int, timeout: nat)
    requires Distinct(es)
    ensures var r := ReplyCode(GetReply(es, key, now, timeout));
            Answers(es, key, now, timeout, r.0, r.1)
  {
    forall e | e in es && e.key == key
      ensures HasKey(es, key) && Find(es, key) == e
    {
      FindUnique(es, e);
    }
  }

  class Cache {
    const H: nat
    const N: nat
    const B: nat
    const timeout: nat
    const m_block: array<SBlockHead>
    const m_hash: array<SHashHead>
    const m_data: array<Byte>
    var m_lru_head: int
    var m_lru_tail: int

    /** Free blocks, least recently used first. */
    ghost var free: seq<int>
    /** Used blocks, least recently used first. */
    ghost var used: seq<Block>
    /** The nodes of each hash chain. */
    ghost var chain: seq<seq<Block>>

    /** A new cache of blockNum blocks: all of them free, in index order. */
    constructor Init(hashMask: nat, blockNum: nat, blockSize: nat, timeout: nat)
      requires hashMask > 0 && blockNum > 0 && blockSize > 0
      ensures Valid() && Content() == []
      ensures H == hashMask && N == blockNum && B == blockSize && this.timeout == timeout
    {
      H, N, B, this.timeout := hashMask, blockNum, blockSize, timeout;
      m_block := new SBlockHead[blockNum];
      m_hash := new SHashHead[hashMask];
      m_data := new Byte[blockNum * blockSize];
      new;
      for idx := 0 to blockNum
        invariant forall i :: 0 <= i < idx ==> m_block[i] == InitHead(blockNum, i, m_block[i].m_uptime)
      {
        var pre := if idx == 0 then blockNum - 1 else idx - 1;
        var next := if idx == blockNum - 1 then 0 else idx + 1;
        m_block[idx] := m_block[idx].(m_idx := idx, m_len := 0, m_next := NIL, m_key := 0,
                                      m_lru_pre := pre, m_lru_next := next);
      }
      for idx := 0 to hashMask
        invariant forall i :: 0 <= i < blockNum ==> m_block[i] == InitHead(blockNum, i, m_block[i].m_uptime)
        invariant forall h :: 0 <= h < idx ==> m_hash[h] == SHashHead(0, NIL)
      {
        m_hash[idx] := m_hash[idx].(m_len := 0, m_head := NIL);
      }
      m_lru_head, m_lru_tail := 0, blockNum - 1;
      free, used, chain := seq(blockNum, i => i), [], seq(hashMask, _ => []);
      InitOk(H, B, m_block[..], m_hash[..], m_data[..], free, chain);
    }

    method MoveLRUTail(idx: int, ghost lru: seq<int>, ghost p: nat)
      requires LruOk(m_block[..], lru, m_lru_head, m_lru_tail)
      requires p < |lru| && lru[p] == idx
      modifies m_block, `m_lru_head, `m_lru_tail
      ensures LruOk(m_block[..], RemoveAt(lru, p) + [idx], m_lru_head, m_lru_tail)
      ensures SameButLru(old(m_block[..]), m_block[..])
    {
      ghost var b := m_block[..];
      if m_lru_tail == idx {
        PermDistinct(lru, |b|, p, |lru| - 1);
        assert RemoveAt(lru, p) + [idx] == lru;
        return;
      }
      if m_lru_head == idx {
        PermDistinct(lru, |b|, p, 0);
        assert RingLink(b, lru, 0);
        RotateLeft(b, lru, m_lru_head, m_lru_tail);
        assert RemoveAt(lru, p) + [idx] == lru[1..] + [lru[0]];
        m_lru_tail := m_lru_head;
        m_lru_head := m_block[idx].m_lru_next;
        return;
      }
      Splice(idx, lru, p);
      SplicedTail(b, m_block[..], lru, m_lru_head, m_lru_tail, p);
      m_lru_tail := idx;
    }

    /** The link updates both move operations share. */
    method Splice(idx: int, ghost lru: seq<int>, ghost p: nat)
      requires LruOk(m_block[..], lru, m_lru_head, m_lru_tail)
      requires 0 < p < |lru| - 1 && lru[p] == idx
      modifies m_block
      ensures SameButLru(old(m_block[..]), m_block[..])
      ensures Spliced(old(m_block[..]), m_block[..], lru, p)
    {
      hide LruOk, Perm;
      ghost var b := m_block[..];
      RingAround(b, lru, m_lru_head, m_lru_tail, p);
      var pre, next := m_block[idx].m_lru_pre, m_block[idx].m_lru_next;
      m_block[pre] := m_block[pre].(m_lru_next := next);
      m_block[next] := m_block[next].(m_lru_pre := pre);
      ghost var c := m_block[..];
      assert c == b[pre := b[pre].(m_lru_next := next)][next := b[next].(m_lru_pre := pre)];
      m_block[idx] := m_block[idx].(m_lru_pre := m_lru_tail);
      m_block[idx] := m_block[idx].(m_lru_next := m_lru_head);
      m_block[m_lru_tail] := m_block[m_lru_tail].(m_lru_next := idx);
      m_block[m_lru_head] := m_block[m_lru_head].(m_lru_pre := idx);
      SpliceWritten(b, c, m_block[..], lru, p);
    }

    method MoveLRUHead(idx: int, ghost lru: seq<int>, ghost p: nat)
      requires LruOk(m_block[..], lru, m_lru_head, m_lru_tail)
      requires p < |lru| && lru[p] == idx
      modifies m_block, `m_lru_head, `m_lru_tail
      ensures LruOk(m_block[..], [idx] + RemoveAt(lru, p), m_lru_head, m_lru_tail)
      ensures SameButLru(old(m_block[..]), m_block[..])
    {
      ghost var b := m_block[..];
      if m_lru_head == idx {
        PermDistinct(lru, |b|, p, 0);
        assert [idx] + RemoveAt(lru, p) == lru;
        return;
      }
      if m_lru_tail == idx {
        PermDistinct(lru, |b|, p, |lru| - 1);
        assert RingLink(b, lru, |lru| - 2);
        RotateRight(b, lru, m_lru_head, m_lru_tail);
        assert [idx] + RemoveAt(lru, p) == [lru[|lru| - 1]] + lru[..|lru| - 1];
        m_lru_head := m_lru_tail;
        m_lru_tail := m_block[idx].m_lru_pre;
        return;
      }
      Splice(idx, lru, p);
      SplicedHead(b, m_block[..], lru, m_lru_head, m_lru_tail, p);
      m_lru_head := idx;
    }

    // ------------------------------------------------------------ invariant and content

    /** The invariant, with the header of the first skip free blocks being filled in. */
    ghost predicate Inv(skip: nat)
      reads this, m_block, m_hash, m_data
    {
      && m_block.Length == N && m_hash.Length == H && m_data.Length == N * B
      && InvOn(H, B, m_block[..], m_hash[..], m_data[..], m_lru_head, m_lru_tail, free, used, chain, skip)
    }

    ghost predicate Valid()
      reads this, m_block, m_hash, m_data
    {
      Inv(0)
    }

    /** The stored entries, least recently used first. */
    ghost function Content(): seq<Entry>
      reads this
    {
      Entries(used)
    }

    /** The header updates of DeleteHash for one block of the key. */
    method ClearHeader(h: int, cur: int, pre: int) returns (tmp: int)
      requires 0 <= h < m_hash.Length && 0 <= cur < m_block.Length && pre < m_block.Length
      requires pre != NIL ==> 0 <= pre != cur
      requires m_hash[h].m_len > 0
      modifies m_block, m_hash
      ensures Unlinked(old(m_block[..]), m_block[..], cur, pre)
      ensures forall g :: 0 <= g < m_hash.Length && g != h ==> m_hash[g] == old(m_hash[g])
      ensures m_hash[h].m_len == old(m_hash[h].m_len) - 1
      ensures m_hash[h].m_head == if pre == NIL then old(m_block[cur].m_next) else old(m_hash[h].m_head)
      ensures tmp == old(m_block[cur].m_next)
    {
      if pre != NIL {
        m_block[pre] := m_block[pre].(m_next := m_block[cur].m_next);
      } else {
        m_hash[h] := m_hash[h].(m_head := m_block[cur].m_next);
      }
      tmp := m_block[cur].m_next;
      m_block[cur] := m_block[cur].(m_key := 0);
      m_block[cur] := m_block[cur].(m_next := NIL);
      m_block[cur] := m_block[cur].(m_len := 0);
      m_hash[h] := m_hash[h].(m_len := m_hash[h].m_len - 1);
    }

    /** Clears the header of a block and makes it the least recently used one; c is the state between. */
    method ClearAndMove(h: int, cur: int, pre: int, ghost lru: seq<int>, ghost p: nat)
      returns (tmp: int, ghost c: seq<SBlockHead>)
      requires 0 <= h < m_hash.Length && 0 <= cur < m_block.Length && pre < m_block.Length
      requires pre != NIL ==> 0 <= pre != cur
      requires m_hash[h].m_len > 0
      requires LruOk(m_block[..], lru, m_lru_head, m_lru_tail) && p < |lru| && lru[p] == cur
      modifies m_block, m_hash, `m_lru_head, `m_lru_tail
      ensures Unlinked(old(m_block[..]), c, cur, pre) && SameButLru(c, m_block[..])
      ensures LruOk(m_block[..], [cur] + RemoveAt(lru, p), m_lru_head, m_lru_tail)
      ensures forall g :: 0 <= g < m_hash.Length && g != h ==> m_hash[g] == old(m_hash[g])
      ensures m_hash[h].m_len == old(m_hash[h].m_len) - 1
      ensures m_hash[h].m_head == if pre == NIL then old(m_block[cur].m_next) else old(m_hash[h].m_head)
      ensures tmp == old(m_block[cur].m_next)
    {
      ghost var b := m_block[..];
      tmp := ClearHeader(h, cur, pre);
      c := m_block[..];
      UnlinkedLru(b, c, lru, m_lru_head, m_lru_tail, cur, pre);
      MoveLRUHead(cur, lru, p);
    }

    /** Takes block cur, at position p of its chain and q of the used blocks, back to the free ones. */
    method Release(h: int, cur: int, pre: int, ghost p: nat, ghost q: nat) returns (tmp: int)
      requires Valid() && H > 0 && 0 <= h < |chain|
      requires q < |used| && used[q].key % H == h
      requires p < |chain[h]| && chain[h][p] == used[q] && used[q].idx == cur
      requires Keep(chain[h][..p], used[q].key) == []
      requires pre == if p == 0 then NIL else chain[h][p - 1].idx
      modifies this, m_block, m_hash
      ensures Valid()
      ensures used == RemoveAt(old(used), q) && free == [cur] + old(free)
      ensures chain == old(chain)[h := RemoveAt(old(chain)[h], p)]
      ensures tmp == IdxAt(chain[h], p)
    {
      hide InvOn, LruOk, Unlinked, SameButLru, Keep;
      ghost var b, heads, d := m_block[..], m_hash[..], m_data[..];
      ghost var head, tail := m_lru_head, m_lru_tail;
      ReleasePre(H, B, b, heads, d, head, tail, free, used, chain, h, p, q);
      ghost var c;
      tmp, c := ClearAndMove(h, cur, pre, free + Idxs(used), |free| + q);
      ReleaseOk(H, B, b, c, m_block[..], heads, m_hash[..], d, head, tail, m_lru_head, m_lru_tail, free, used, chain,
                h, p, q);
      free, used, chain := [cur] + free, RemoveAt(used, q), chain[h := RemoveAt(chain[h], p)];
    }

    /** Frees every block of the key, first to last. */
    method DeleteHash(key: nat)
      requires Valid()
      modifies this, m_block, m_hash
      ensures Valid()
      ensures used == Drop(old(used), key)
      ensures |chain| == |old(chain)| == H > 0
      ensures chain == old(chain)[key % H := Drop(old(chain)[key % H], key)]
      ensures forall n :: n in old(used) && n.key == key ==> n.idx in free
    {
      hide InvOn, LruOk, Keep, Drop, Shape, RemoveAt, NodeAt;
      InvShape(H, B, m_block[..], m_hash[..], m_data[..], m_lru_head, m_lru_tail, free, used, chain, 0);
      InvSizes(H, B, m_block[..], m_hash[..], m_data[..], m_lru_head, m_lru_tail, free, used, chain, 0);
      var h := key % H;
      var cur := m_hash[h].m_head;
      var pre, tmp := NIL, NIL;
      ghost var p: nat := 0;
      while cur != NIL
        invariant Valid() && |chain| == H
        invariant p <= |chain[h]| && cur == IdxAt(chain[h], p)
        invariant pre == if p == 0 then NIL else chain[h][p - 1].idx
        invariant forall i :: 0 <= i < p ==> chain[h][i].key < key
        invariant Drop(used, key) == Drop(old(used), key)
        invariant chain == old(chain)[h := chain[h]] && Drop(chain[h], key) == Drop(old(chain)[h], key)
        invariant forall n :: n in old(used) ==> n in used || n.idx in free
        decreases |chain[h]| - p
      {
        ghost var q := ChainWalk(H, B, m_block[..], m_hash[..], m_data[..], m_lru_head, m_lru_tail, free, used, chain,
                                 0, h, p);
        if m_block[cur].m_key == key {
          DropStep(used, q, chain[h], p, key);
          tmp := Release(h, cur, pre, p, q);
          cur := tmp;
        } else if key > m_block[cur].m_key {
          pre := cur;
          cur := m_block[cur].m_next;
          p := p + 1;
        } else {
          break;
        }
      }
      WalkDone(H, B, m_block[..], m_hash[..], m_data[..], m_lru_head, m_lru_tail, free, used, chain, 0, key, p);
      forall n | n in old(used) && n.key == key
        ensures n.idx in free
      {
        FilterMembers(used, key, n);
      }
    }

    /** The link updates of InsertHash; c is the state before the block moves to the tail. */
    method LinkAndMove(h: int, idx: int, pre: int, next: int, ghost lru: seq<int>) returns (ghost c: seq<SBlockHead>)
      requires 0 <= h < m_hash.Length && 0 <= idx < m_block.Length && pre < m_block.Length
      requires pre != NIL ==> 0 <= pre != idx
      requires LruOk(m_block[..], lru, m_lru_head, m_lru_tail) && lru[0] == idx
      modifies m_block, m_hash, `m_lru_head, `m_lru_tail
      ensures Linked(old(m_block[..]), c, idx, pre, next) && SameButLru(c, m_block[..])
      ensures LruOk(m_block[..], RemoveAt(lru, 0) + [idx], m_lru_head, m_lru_tail)
      ensures forall g :: 0 <= g < m_hash.Length && g != h ==> m_hash[g] == old(m_hash[g])
      ensures m_hash[h] == old(m_hash[h]).(m_head := if pre == NIL then idx else old(m_hash[h]).m_head)
    {
      ghost var b := m_block[..];
      m_block[idx] := m_block[idx].(m_next := next);
      assert pre != idx;
      if pre != NIL {
        m_block[pre] := m_block[pre].(m_next := idx);
      } else {
        m_hash[h] := m_hash[h].(m_head := idx);
      }
      c := m_block[..];
      LruFrame(b, c, lru, m_lru_head, m_lru_tail);
      MoveLRUTail(idx, lru, 0);
    }

    /** Walks a chain from its first block to the first one with a larger key. */
    method FindPlace(first: int, key: nat, h: int, ghost heads: seq<SHashHead>)
      returns (pre: int, next: int, ghost p: nat)
      requires InvOn(H, B, m_block[..], heads, m_data[..], m_lru_head, m_lru_tail, free, used, chain, 1)
      requires 0 <= h < |chain| && first == IdxAt(chain[h], 0)
      ensures p <= |chain[h]| && next == IdxAt(chain[h], p) && pre == if p == 0 then NIL else chain[h][p - 1].idx
      ensures forall i :: 0 <= i < p ==> chain[h][i].key <= key
      ensures forall i :: p <= i < |chain[h]| ==> key < chain[h][i].key
    {
      hide InvOn;
      var cur := first;
      pre, next, p := NIL, NIL, 0;
      while cur != NIL
        invariant p <= |chain[h]| && cur == IdxAt(chain[h], p)
        invariant pre == if p == 0 then NIL else chain[h][p - 1].idx
        invariant next == NIL
        invariant forall i :: 0 <= i < p ==> chain[h][i].key <= key
        decreases |chain[h]| - p
      {
        ghost var q := ChainWalk(H, B, m_block[..], heads, m_data[..], m_lru_head, m_lru_tail, free, used, chain, 1,
                                 h, p);
        if key >= m_block[cur].m_key {
          pre := cur;
          cur := m_block[cur].m_next;
          p := p + 1;
        } else {
          next := m_block[cur].m_idx;
          break;
        }
      }
      InsertionPoint(H, B, m_block[..], heads, m_data[..], m_lru_head, m_lru_tail, free, used, chain, h, p, key);
    }

    /** Links a filled-in block behind the last block of its key or of a smaller key. */
    method InsertHash(idx: int, ghost n: Block)
      requires Inv(1) && free != [] && idx == free[0]
      requires n.idx == idx && n.key != 0 && NodeAt(m_block[..], m_data[..], B, n)
      requires forall q :: 0 <= q < |used| && used[q].key == n.key ==> used[q].uptime == n.uptime
      modifies this, m_block, m_hash
      ensures Valid()
      ensures used == old(used) + [n] && free == old(free)[1..]
    {
      hide InvOn, LruOk, Keep, Drop, Linked, SameButLru;
      ghost var b, heads, d := m_block[..], m_hash[..], m_data[..];
      ghost var head, tail := m_lru_head, m_lru_tail;
      InvSizes(H, B, b, heads, d, head, tail, free, used, chain, 1);
      var key := m_block[idx].m_key;
      assert key == n.key;
      hide NodeAt;
      var h := key % H;
      var cur := m_hash[h].m_head;
      m_hash[h] := m_hash[h].(m_len := m_hash[h].m_len + 1);
      var pre, next;
      ghost var p;
      pre, next, p := FindPlace(cur, key, h, heads);
      InsertPre(H, B, b, heads, d, head, tail, free, used, chain, h, p);
      assert m_block[..] == b;
      ghost var c := LinkAndMove(h, idx, pre, next, free + Idxs(used));
      InsertOk(H, B, b, c, m_block[..], heads, m_hash[..], d, head, tail, m_lru_head, m_lru_tail, free, used, chain,
               h, n, p);
      free, used, chain := free[1..], used + [n], chain[h := chain[h][..p] + [n] + chain[h][p..]];
    }

    /** Evicts whole keys from the least recently used end until the head block is free. */
    method MakeRoom(key: nat, now: int, ghost rest: seq<Block>, ghost own: seq<Block>, ghost cs: seq<seq<Byte>>)
      returns (ghost rest': seq<Block>, ghost own': seq<Block>)
      requires Valid() && cs != []
      requires Storing(used, rest, own, key, now)
      modifies this, m_block, m_hash
      ensures Valid() && free != []
      ensures Storing(used, rest', own', key, now)
      ensures Store(N, Entries(rest), Datas(own), cs) == Store(N, Entries(rest'), Datas(own') + [cs[0]], cs[1..])
    {
      hide InvOn, LruOk, Keep, Drop, Storing, Store, Entries;
      HeadKey(H, B, m_block[..], m_hash[..], m_data[..], m_lru_head, m_lru_tail, free, used, chain);
      rest', own' := rest, own;
      if free != [] {
        NoEvictStep(N, used, rest, own, key, now, cs);
      }
      var b := m_block[m_lru_head];
      while b.m_key != 0
        invariant Valid() && 0 <= m_lru_head < N && b == m_block[m_lru_head]
        invariant free == [] ==> rest' == rest && own' == own
        invariant Storing(used, rest', own', key, now)
        invariant free != [] ==>
                    Store(N, Entries(rest), Datas(own), cs) ==
                    Store(N, Entries(rest'), Datas(own') + [cs[0]], cs[1..])
        decreases |used|
      {
        HeadKey(H, B, m_block[..], m_hash[..], m_data[..], m_lru_head, m_lru_tail, free, used, chain);
        rest', own' := EvictStep(N, used, rest, own, key, now, cs);
        ghost var before := |used|;
        DeleteHash(b.m_key);
        HeadKey(H, B, m_block[..], m_hash[..], m_data[..], m_lru_head, m_lru_tail, free, used, chain);
        b := m_block[m_lru_head];
      }
      HeadKey(H, B, m_block[..], m_hash[..], m_data[..], m_lru_head, m_lru_tail, free, used, chain);
    }

    /** Fills the least recently used block, which is free, with the next bytes of a value. */
    method StoreBlock(key: nat, bytes: seq<Byte>, now: int, ghost rest: seq<Block>, ghost own: seq<Block>)
      returns (ghost n: Block)
      requires Valid() && free != [] && key != 0 && |bytes| <= B
      requires Storing(used, rest, own, key, now)
      modifies this, m_block, m_hash, m_data
      ensures Valid()
      ensures n == Block(old(free)[0], key, bytes, now)
      ensures used == old(used) + [n]
    {
      hide InvOn, LruOk, Keep, Drop, Storing, SlotHas, NodeAt;
      ghost var b, d := m_block[..], m_data[..];
      HeadKey(H, B, b, m_hash[..], d, m_lru_head, m_lru_tail, free, used, chain);
      StoringUptimes(used, rest, own, key, now);
      var block := m_lru_head;
      if m_block[block].m_key != 0 {
        assert false;
      }
      n := Block(block, key, bytes, now);
      m_block[block] := m_block[block].(m_key := key);
      m_block[block] := m_block[block].(m_uptime := now);
      var off := m_block[block].m_idx * B;
      MulStep(block, N, B);
      MulNonneg(block, B);
      CopyInto(m_data, off, bytes);
      assert m_data[..] == d[..off] + bytes + d[off + |bytes|..];
      m_block[block] := m_block[block].(m_len := |bytes|);
      assert m_block[..] == b[block := b[block].(m_key := key, m_uptime := now, m_len := |bytes|)];
      FillOk(H, B, b, m_block[..], m_hash[..], d, m_data[..], m_lru_head, m_lru_tail, free, used, chain, n);
      InsertHash(m_block[block].m_idx, n);
    }

    /** Stores a value under a key, in blocks of at most B bytes. */
    method Set(key: nat, data: seq<Byte>, now: int) returns (ret: int)
      requires Valid()
      modifies this, m_block, m_hash, m_data
      ensures Valid()
      ensures ret == if key == 0 then -3 else 0
      ensures Content() == SetSpec(N, B, old(Content()), key, data, now)
    {
      hide InvOn, LruOk, Keep, Drop, Storing, Store, Entries, DropEntry;
      InvSizes(H, B, m_block[..], m_hash[..], m_data[..], m_lru_head, m_lru_tail, free, used, chain, 0);
      if key == 0 {
        return ERR_KEY_ZERO;
      }
      EntriesDrop(used, key);
      ghost var rest: seq<Block>, own: seq<Block> := Drop(used, key), [];
      ghost var target := Store(N, Entries(rest), [], Chunks(B, data));
      DeleteHash(key);
      StoringStart(old(used), key, now);
      var copyed, data_len := 0, |data|;
      assert data[0..] == data && Datas(own) == [];
      while data_len > 0
        invariant Valid() && 0 <= data_len && copyed + data_len == |data|
        invariant Storing(used, rest, own, key, now)
        invariant target == Store(N, Entries(rest), Datas(own), Chunks(B, data[copyed..]))
      {
        ghost var left := data[copyed..];
        ChunksStep(B, left);
        rest, own := MakeRoom(key, now, rest, own, Chunks(B, left));
        var size := if data_len <= B then data_len else B;
        ghost var before := used;
        ghost var n := StoreBlock(key, data[copyed..copyed + size], now, rest, own);
        assert n.data == left[..size];
        StoringAppend(before, rest, own, key, now, n);
        own := own + [n];
        data_len := data_len - size;
        copyed := copyed + size;
        assert data[copyed..] == left[size..];
      }
      assert data[copyed..] == [];
      StoreDone(N, B, Entries(rest), Datas(own));
      StoringEntries(used, rest, own, key, now);
      return ERR_OK;
    }

    /** Appends the bytes of block cur, which is the next one of the key, and makes it the most recently used. */
    method ReadBlock(cur: int, data: seq<Byte>, ghost b: seq<SBlockHead>, ghost c: seq<Block>, ghost p: nat,
                     ghost key: nat, ghost rest: seq<Block>, ghost done: seq<Block>)
      returns (data': seq<Byte>, ghost rest': seq<Block>, ghost done': seq<Block>)
      requires p < |c| && c[p].key == key && c[p].idx == cur && NodeAt(b, m_data[..], B, c[p])
      requires SameButLru(b, m_block[..]) && 0 <= cur < m_block.Length && m_block[cur].m_idx == cur
      requires LruOk(m_block[..], free + Idxs(rest + done), m_lru_head, m_lru_tail)
      requires Touching(used, rest, done, c, p, key) && data == Flat(Datas(done))
      modifies m_block, `m_lru_head, `m_lru_tail
      ensures SameButLru(b, m_block[..])
      ensures LruOk(m_block[..], free + Idxs(rest' + done'), m_lru_head, m_lru_tail)
      ensures Touching(used, rest', done', c, p + 1, key) && data' == Flat(Datas(done')) && done' == done + [c[p]]
    {
      hide LruOk, Touching, NodeAt, SameButLru, Perm, Flat;
      ghost var n, d, e := c[p], m_data[..], m_block[..];
      HeaderSame(b, e, d, B, n);
      ReadSlot(e, d, B, n);
      var off := m_block[cur].m_idx * B;
      data' := data + m_data[off..off + m_block[cur].m_len];
      FlatAppend(Datas(done), n.data);
      assert Datas(done + [n]) == Datas(done) + [n.data];
      LruPerm(e, free + Idxs(rest + done), m_lru_head, m_lru_tail);
      ghost var r := TouchNext(m_block.Length, free, used, rest, done, c, p, key);
      TouchPosition(free, rest, done, r);
      MoveLRUTail(m_block[cur].m_idx, free + Idxs(rest + done), |free| + r);
      RelinkTwice(b, e, m_block[..]);
      rest', done' := RemoveAt(rest, r), done + [n];
    }

    /** Reads the value of a key, making it the most recently used; an expired key is deleted. */
    method Get(key: nat, now: int) returns (ret: int, data: seq<Byte>)
      requires Valid()
      modifies this, m_block, m_hash
      ensures Valid()
      ensures Answers(old(Content()), key, now, timeout, ret, data)
      ensures (ret, data) == ReplyCode(GetReply(old(Content()), key, now, timeout))
      ensures Content() == GetSpec(old(Content()), key, now, timeout)
    {
      hide InvOn, LruOk, Keep, Drop, Entries, DropEntry, Touching, NodeAt, SameButLru, Shape, Perm, GetReply, GetSpec,
           Answers;
      ghost var b, heads, d := m_block[..], m_hash[..], m_data[..];
      ghost var head, tail, ns := m_lru_head, m_lru_tail, used;
      EntriesDistinct(used);
      ReplyAnswers(Content(), key, now, timeout);
      InvSizes(H, B, b, heads, d, head, tail, free, used, chain, 0);
      var h := key % H;
      var cur := m_hash[h].m_head;
      ret, data := ERR_KEY_NO_EXIST, [];
      assert data == Flat(Datas([]));
      hide Flat, RemoveAt;
      ghost var p: nat := 0;
      ghost var rest, done: seq<Block> := used, [];
      ReadStart(H, B, b, heads, d, head, tail, free, used, chain, key);
      InvShape(H, B, b, heads, d, head, tail, free, used, chain, 0);
      while cur != NIL
        invariant free == old(free) && used == ns && chain == old(chain) && m_hash[..] == heads && m_data[..] == d
        invariant p <= |chain[h]| && cur == IdxAt(chain[h], p)
        invariant Touching(used, rest, done, chain[h], p, key)
        invariant SameButLru(b, m_block[..]) && |b| == m_block.Length
        invariant LruOk(m_block[..], free + Idxs(rest + done), m_lru_head, m_lru_tail)
        invariant done == [] ==> m_block[..] == b && m_lru_head == head && m_lru_tail == tail
        invariant data == Flat(Datas(done))
        invariant ret == if done == [] then ERR_KEY_NO_EXIST else ERR_OK
        invariant done != [] ==> now - done[0].uptime <= timeout
        decreases |chain[h]| - p
      {
        ghost var q := ChainWalk(H, B, b, heads, d, head, tail, free, used, chain, 0, h, p);
        ghost var n := chain[h][p];
        HeaderSame(b, m_block[..], d, B, n);
        if m_block[cur].m_key == key {
          ExpiresFirst(H, used, rest, done, chain, p, q);
          if now - m_block[cur].m_uptime > timeout {
            ExpiredReply(H, used, chain, key, now, timeout);
            DeleteHash(key);
            return ERR_KEY_TIMEOUT, data;
          }
          ret := ERR_OK;
          data, rest, done := ReadBlock(cur, data, b, chain[h], p, key, rest, done);
          HeaderSame(b, m_block[..], d, B, n);
        } else if m_block[cur].m_key > key {
          break;
        } else {
          TouchSkip(used, rest, done, chain[h], p, key);
        }
        cur := m_block[cur].m_next;
        p := p + 1;
      }
      ReadDone(H, B, b, m_block[..], heads, d, head, tail, m_lru_head, m_lru_tail, free, used, chain, rest, done, p,
               key, now, timeout);
      used := rest + done;
    }

    /** Deletes a key. */
    method Del(key: nat) returns (ret: int)
      requires Valid()
      modifies this, m_block, m_hash
      ensures Valid()
      ensures ret == 0
      ensures Content() == DropEntry(old(Content()), key)
    {
      hide InvOn, Drop, Keep;
      EntriesDrop(used, key);
      DeleteHash(key);
      return ERR_OK;
    }

    /** Block, byte and key counts, found by walking every chain. */
    method GetStat() returns (stat: Stat)
      requires Valid()
      ensures stat == EntriesStat(Content())
      ensures stat.blocks == Blocks(Content()) && stat.bytes == EntryBytes(Content()) && stat.keys == |Content()|
    {
      StatFields(Content());
      hide InvOn, Shape, Entries, EntriesStat;
      InvSizes(H, B, m_block[..], m_hash[..], m_data[..], m_lru_head, m_lru_tail, free, used, chain, 0);
      InvShape(H, B, m_block[..], m_hash[..], m_data[..], m_lru_head, m_lru_tail, free, used, chain, 0);
      var use_block: nat, use_size: nat, has_key: nat := 0, 0, 0;
      for i := 0 to H
        invariant Stat(use_block, use_size, has_key) == ChainsStat(chain, i)
      {
        var head := m_hash[i];
        if head.m_len != 0 {
          use_block := use_block + head.m_len;
          var cur, pre_key := head.m_head, 0;
          ghost var c, p: nat := chain[i], 0;
          assert c[0..] == c;
          while cur != NIL
            invariant p <= |c| && cur == IdxAt(c, p)
            invariant use_size + DataBytes(c[p..]) == ChainsStat(chain, i).bytes + DataBytes(c)
            invariant has_key + Runs(c[p..], pre_key) == ChainsStat(chain, i).keys + Runs(c, 0)
            decreases |c| - p
          {
            ghost var q := ChainWalk(H, B, m_block[..], m_hash[..], m_data[..], m_lru_head, m_lru_tail, free, used,
                                     chain, 0, i, p);
            var block := m_block[cur];
            use_size := use_size + block.m_len;
            if pre_key != block.m_key {
              has_key := has_key + 1;
            }
            pre_key := block.m_key;
            cur := block.m_next;
            assert c[p..][1..] == c[p + 1..];
            p := p + 1;
          }
          ChainEnd(H, B, m_block[..], m_hash[..], m_data[..], m_lru_head, m_lru_tail, free, used, chain, 0, i, p);
        }
      }
      ShapeChained(H, used, chain);
      StatsAgree(H, used, chain);
      stat := Stat(use_block, use_size, has_key);
    }

    /** Walks chain h, deleting each expired key it meets. */
    method CheckBucket(h: int, now: int)
      requires Valid() && 0 <= h < m_hash.Length
      requires |chain| == H
      modifies this, m_block, m_hash
      ensures Valid() && |chain| == H
      ensures used == DropAll(old(used), Sweep(old(chain)[h], now, timeout))
      ensures chain == old(chain)[h := chain[h]]
    {
      hide InvOn, Shape, Drop, Keep, Sweep, DropAll, Sweeping, FreesAt;
      InvSizes(H, B, m_block[..], m_hash[..], m_data[..], m_lru_head, m_lru_tail, free, used, chain, 0);
      InvShape(H, B, m_block[..], m_hash[..], m_data[..], m_lru_head, m_lru_tail, free, used, chain, 0);
      SweepStart(H, used, chain, h, now, timeout);
      ghost var goal := DropAll(used, Sweep(chain[h], now, timeout));
      ghost var pre: seq<Block>, left := [], chain[h];
      ghost var ended := false;
      var cur := m_hash[h].m_head;
      while cur != NIL
        invariant Valid() && |chain| == H && chain == old(chain)[h := chain[h]]
        invariant !ended ==> chain[h] == pre + left && cur == IdxAt(left, 0) && Sweeping(pre, left, now, timeout)
        invariant !ended ==> goal == DropAll(used, Sweep(left, now, timeout))
        invariant ended ==> (cur in free || cur == NIL) && goal == used
        decreases if ended then 0 else |left| + 1, if cur == NIL then 0 else 1
      {
        InvShape(H, B, m_block[..], m_hash[..], m_data[..], m_lru_head, m_lru_tail, free, used, chain, 0);
        ghost var q: nat, key: nat := 0, 0;
        if ended {
          FreeBlock(H, B, m_block[..], m_hash[..], m_data[..], m_lru_head, m_lru_tail, free, used, chain, cur);
          DropZero(H, used, chain);
        } else {
          q := ChainWalk(H, B, m_block[..], m_hash[..], m_data[..], m_lru_head, m_lru_tail, free, used, chain, 0, h,
                         |pre|);
          assert chain[h][|pre|] == left[0];
          if |left| > 1 {
            ghost var q' := ChainWalk(H, B, m_block[..], m_hash[..], m_data[..], m_lru_head, m_lru_tail, free, used,
                                      chain, 0, h, |pre| + 1);
            assert chain[h][|pre| + 1] == left[1] && left[1] in used;
          }
        }
        var block := m_block[cur];
        ghost var was := used;
        cur := block.m_next;
        if now - block.m_uptime > timeout {
          DeleteHash(block.m_key);
          if !ended {
            if |left| > 1 && left[1].key == left[0].key {
              SweepStops(was, left, now, timeout);
              ended := true;
            } else {
              SweepDeletes(pre, left, now, timeout);
              DropAllStep(was, left[0].key, Sweep(left[1..], now, timeout));
              left := left[1..];
            }
          }
        } else if !ended {
          SweepKeeps(pre, left, now, timeout);
          pre, left := pre + [left[0]], left[1..];
        }
      }
      if !ended {
        ChainEnd(H, B, m_block[..], m_hash[..], m_data[..], m_lru_head, m_lru_tail, free, used, chain, 0, h, |pre|);
        assert left == [];
        SweepEnd(used, now, timeout);
      }
    }

    /** Deletes expired keys, bucket by bucket. */
    method Check(now: int)
      requires Valid()
      modifies this, m_block, m_hash
      ensures Valid()
      ensures Content() == Unswept(old(Content()), old(Content()), H, now, timeout)
    {
      hide InvOn, Shape, Drop, Keep, Sweep, DropAll, Entries, Unswept;
      InvSizes(H, B, m_block[..], m_hash[..], m_data[..], m_lru_head, m_lru_tail, free, used, chain, 0);
      InvShape(H, B, m_block[..], m_hash[..], m_data[..], m_lru_head, m_lru_tail, free, used, chain, 0);
      SweepAll(H, used, chain, now, timeout);
      SweepNone(used, chain, now, timeout);
      for idx := 0 to H
        invariant Valid() && |chain| == |old(chain)| == H
        invariant forall h :: idx <= h < H ==> chain[h] == old(chain)[h]
        invariant used == DropAll(old(used), SweepUpTo(old(chain), idx, now, timeout))
      {
        DropAllAppend(old(used), SweepUpTo(old(chain), idx, now, timeout), Sweep(chain[idx], now, timeout));
        CheckBucket(idx, now);
      }
    }
  }
}

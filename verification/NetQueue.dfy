/** The message queue as one thread at a time sees it: a byte ring updated in place. */
module NetQueue {
  import opened Bytes
  import opened NetQueueModel

  class Queue {
    const m_buffer: array<Byte>
    var m_head: nat
    var m_tail: nat
    var m_enqueue_num: nat
    var m_dequeue_num: nat

    /** The messages in the queue, oldest first. */
    ghost var msgs: seq<Msg>

    ghost predicate Valid()
      reads this, m_buffer
    {
      var L := m_buffer.Length;
      && L <= MAX_BUFFER
      && (if L == 0 then m_head == 0 && msgs == [] else m_head < L && |Stream(msgs)| < L)
      && m_tail == Wrap(L, m_head + |Stream(msgs)|)
      && RingHas(m_buffer[..], m_head, Stream(msgs))
    }

    constructor (buffer_size: nat)
      requires buffer_size <= MAX_BUFFER
      ensures Valid() && fresh(m_buffer) && m_buffer.Length == buffer_size
      ensures msgs == [] && m_enqueue_num == 0 && m_dequeue_num == 0
    {
      m_buffer := new Byte[buffer_size];
      m_head, m_tail, m_enqueue_num, m_dequeue_num := 0, 0, 0, 0;
      msgs := [];
    }

    predicate IsEmpty()
      reads this, m_buffer
      requires Valid()
      ensures IsEmpty() <==> msgs == []
    {
      m_head == m_tail
    }

    /** Copies a frame in behind tail, in one, two or three pieces, and returns the tail after it. */
    method WriteFrame(tail: nat, data: Msg) returns (end: nat)
      requires tail < m_buffer.Length && |data| + LEN < m_buffer.Length
      modifies m_buffer
      ensures WrittenAt(old(m_buffer[..]), m_buffer[..], tail, Frame(data))
      ensures end == if tail + |data| + LEN <= m_buffer.Length then tail + |data| + LEN
                     else tail + |data| + LEN - m_buffer.Length
    {
      hide Le32, FromLe32;
      var L, data_len := m_buffer.Length, |data|;
      var total_len, tail_len := data_len + LEN, L - tail;
      if tail_len >= total_len {
        CopyInto(m_buffer, tail, Le32(data_len));
        CopyInto(m_buffer, tail + LEN, data);
        end := tail + (data_len + LEN);
      } else if tail_len >= LEN {
        var first_len := tail_len - LEN;
        CopyInto(m_buffer, tail, Le32(data_len));
        CopyInto(m_buffer, tail + LEN, data[..first_len]);
        CopyInto(m_buffer, 0, data[first_len..]);
        end := tail + data_len + LEN - L;
      } else {
        var second_len := LEN - tail_len;
        CopyInto(m_buffer, tail, Le32(data_len)[..tail_len]);
        CopyInto(m_buffer, 0, Le32(data_len)[tail_len..]);
        CopyInto(m_buffer, second_len, data);
        end := second_len + data_len;
      }
    }

    /** Appends a message if its frame leaves at least one cell of the ring free. */
    method EnQueue(data: Msg) returns (ret: int)
      requires Valid()
      modifies this`m_tail, this`msgs, m_buffer
      ensures Valid()
      ensures ret == if |Stream(old(msgs))| + LEN + |data| < m_buffer.Length then 0 else -1
      ensures ret == 0 ==> msgs == old(msgs) + [data]
      ensures ret != 0 ==> msgs == old(msgs) && m_tail == old(m_tail) && m_buffer[..] == old(m_buffer[..])
    {
      var L, head, tail := m_buffer.Length, m_head, m_tail;
      var total_len := |data| + LEN;
      var free_len := if head > tail then head - tail else head + L - tail;
      if free_len <= total_len {
        return -1;
      }
      ghost var buf, s := m_buffer[..], Stream(msgs);
      m_tail := WriteFrame(tail, data);
      if m_tail >= L {
        m_tail := 0;
      }
      RingAppend(buf, m_buffer[..], m_head, tail, s, Frame(data));
      StreamAppend(msgs, data);
      msgs := msgs + [data];
      return 0;
    }

    /** Reads the length stored at head, and says where the message starts. */
    method ReadLength(head: nat) returns (real_len: nat, next: nat)
      requires Valid() && msgs != [] && head == m_head
      ensures real_len == |msgs[0]| && next == Wrap(m_buffer.Length, head + LEN)
    {
      var L := m_buffer.Length;
      RingFront(m_buffer[..], head, msgs);
      RingSlice(m_buffer[..], head, Le32(|msgs[0]|));
      Le32Inverse(|msgs[0]|);
      if head + LEN >= L {
        var first_len := L - head;
        var second_len := LEN - first_len;
        assert m_buffer[head..head + first_len] + m_buffer[..second_len] == Le32(|msgs[0]|);
        real_len := FromLe32(m_buffer[head..head + first_len] + m_buffer[..second_len]);
        next := second_len;
      } else {
        real_len := FromLe32(m_buffer[head..head + LEN]);
        next := head + LEN;
      }
    }

    /** Copies the message at next out, in one or two pieces, and returns the head after it. */
    method ReadMessage(next: nat, real_len: nat, buf: array<Byte>) returns (end: nat)
      requires Valid() && msgs != [] && buf != m_buffer
      requires real_len == |msgs[0]| <= buf.Length && next == Wrap(m_buffer.Length, m_head + LEN)
      modifies buf
      ensures buf[..] == msgs[0] + old(buf[real_len..])
      ensures end == if next + real_len <= m_buffer.Length then next + real_len else next + real_len - m_buffer.Length
    {
      hide RingHas, Stream;
      var L := m_buffer.Length;
      RingFront(m_buffer[..], m_head, msgs);
      RingSlice(m_buffer[..], next, msgs[0]);
      if next + real_len <= L {
        CopyInto(buf, 0, m_buffer[next..next + real_len]);
        end := next + real_len;
      } else {
        var first_len := L - next;
        ghost var m := msgs[0];
        assert m_buffer[next..next + first_len] == m_buffer[..][next..] == m[..first_len];
        assert m_buffer[..real_len - first_len] == m_buffer[..][..real_len - first_len] == m[first_len..];
        CopyInto(buf, 0, m_buffer[next..next + first_len]);
        CopyInto(buf, first_len, m_buffer[..real_len - first_len]);
        end := real_len - first_len;
      }
      Overwritten(old(buf[..]), buf[..], msgs[0]);
    }

    /** Takes the oldest message out, if there is one and buf_size leaves room for its frame.
        A buffer too small for the length word leaves the reported length as it was. */
    method DeQueue(buf: array<Byte>, buf_size: nat, old_len: nat) returns (ret: int, data_len: nat)
      requires Valid() && buf != m_buffer && buf_size <= buf.Length
      modifies this`m_head, this`msgs, buf
      ensures Valid()
      ensures ret == if old(msgs) == [] then -1
                     else if buf_size < LEN then -2
                     else if |old(msgs)[0]| + LEN > buf_size then -3
                     else 0
      ensures data_len == if ret == -1 then 0
                          else if ret == -2 then old_len
                          else if ret == -3 then |old(msgs)[0]| + LEN
                          else |old(msgs)[0]|
      ensures ret == 0 ==> msgs == old(msgs)[1..] && buf[..] == old(msgs)[0] + old(buf[data_len..])
      ensures ret != 0 ==> msgs == old(msgs) && m_head == old(m_head) && buf[..] == old(buf[..])
    {
      hide RingHas;
      var L, head, tail := m_buffer.Length, m_head, m_tail;
      if head == tail {
        return -1, 0;
      }
      var used_len := if tail > head then tail - head else tail + L - head;
      if buf_size < LEN {
        return -2, old_len;
      }
      var real_len, next := ReadLength(head);
      RingFront(m_buffer[..], head, msgs);
      assert used_len >= real_len + LEN;
      if real_len + LEN > buf_size {
        return -3, real_len + LEN;
      }
      m_head := ReadMessage(next, real_len, buf);
      if m_head >= L {
        m_head := 0;
      }
      msgs := msgs[1..];
      return 0, real_len;
    }

    method Push(data: Msg) returns (ret: int)
      requires Valid()
      modifies this`m_tail, this`m_enqueue_num, this`msgs, m_buffer
      ensures Valid()
      ensures ret == if |Stream(old(msgs))| + LEN + |data| < m_buffer.Length then 0 else -1
      ensures msgs == if ret == 0 then old(msgs) + [data] else old(msgs)
      ensures m_enqueue_num == if ret == 0 then (old(m_enqueue_num) + 1) % TWO_TO_THE_32 else old(m_enqueue_num)
    {
      ret := EnQueue(data);
      if ret == 0 {
        m_enqueue_num := (m_enqueue_num + 1) % TWO_TO_THE_32;
      }
    }

    method Pop(buf: array<Byte>, buf_size: nat, old_len: nat) returns (ret: int, data_len: nat)
      requires Valid() && buf != m_buffer && buf_size <= buf.Length
      modifies this`m_head, this`m_dequeue_num, this`msgs, buf
      ensures Valid()
      ensures ret == if old(msgs) == [] then -1
                     else if buf_size < LEN then -2
                     else if |old(msgs)[0]| + LEN > buf_size then -3
                     else 0
      ensures data_len == if ret == -1 then 0
                          else if ret == -2 then old_len
                          else if ret == -3 then |old(msgs)[0]| + LEN
                          else |old(msgs)[0]|
      ensures ret == 0 ==> msgs == old(msgs)[1..] && buf[..] == old(msgs)[0] + old(buf[data_len..])
      ensures ret != 0 ==> msgs == old(msgs) && buf[..] == old(buf[..])
      ensures m_dequeue_num == if ret == 0 then (old(m_dequeue_num) + 1) % TWO_TO_THE_32 else old(m_dequeue_num)
    {
      ret, data_len := DeQueue(buf, buf_size, old_len);
      if ret == 0 {
        m_dequeue_num := (m_dequeue_num + 1) % TWO_TO_THE_32;
      }
    }
  }
}

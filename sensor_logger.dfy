/**
 * `IMUFifo`: the fixed ring buffer between the IMU sampling task and the
 * logging task.  A push on a full FIFO is refused and counted; records come
 * out in the order they went in.  The FIFO's mutex is taken around every
 * operation and has no effect on a single thread, so it is not modelled.
 */
module SensorLogger {
  import opened CTypes

  const FIFO_SIZE: int := 128

  /** The queue after a push: the record is appended when there is room. */
  function QueuePush<T>(q: seq<T>, r: T): (out: (seq<T>, bool))
    ensures out.1 <==> |q| < FIFO_SIZE
  {
    if |q| < FIFO_SIZE then (q + [r], true) else (q, false)
  }

  /** The record at the front and the queue after it is removed, if the queue is not empty. */
  function QueuePop<T>(q: seq<T>): (out: Option<(T, seq<T>)>)
    ensures out.None? <==> q == []
  {
    if q == [] then None else Some((q[0], q[1..]))
  }

  datatype FifoOp<T> = PushOp(record: T) | PopOp

  /** A run of operations from the queue `q`: the final queue, the records popped and the records accepted by push. */
  function Run<T>(q: seq<T>, ops: seq<FifoOp<T>>): (seq<T>, seq<T>, seq<T>)
    decreases |ops|
  {
    if ops == [] then (q, [], [])
    else
      match ops[0]
      case PushOp(r) =>
        var pushed := QueuePush(q, r);
        var rest := Run(pushed.0, ops[1..]);
        (rest.0, rest.1, (if pushed.1 then [r] else []) + rest.2)
      case PopOp =>
        match QueuePop(q)
        case None => Run(q, ops[1..])
        case Some(p) =>
          var rest := Run(p.1, ops[1..]);
          (rest.0, [p.0] + rest.1, rest.2)
  }

  /**
   * First in, first out: over any run of pushes and pops, the records popped
   * followed by those still queued are exactly the records queued at the
   * start followed by those accepted, in order; and the queue never holds
   * more than the FIFO's size.
   */
  lemma {:induction false} FifoOrder<T>(q: seq<T>, ops: seq<FifoOp<T>>)
    requires |q| <= FIFO_SIZE
    ensures Run(q, ops).1 + Run(q, ops).0 == q + Run(q, ops).2
    ensures |Run(q, ops).0| <= FIFO_SIZE
    decreases |ops|
  {
    if ops != [] {
      match ops[0]
      case PushOp(r) =>
        var pushed := QueuePush(q, r);
        FifoOrder(pushed.0, ops[1..]);
        var rest := Run(pushed.0, ops[1..]);
        if pushed.1 {
          assert rest.1 + rest.0 == (q + [r]) + rest.2;
          assert q + ([r] + rest.2) == (q + [r]) + rest.2;
        } else {
          assert [] + rest.2 == rest.2;
        }
      case PopOp =>
        if q != [] {
          FifoOrder(q[1..], ops[1..]);
          var rest := Run(q[1..], ops[1..]);
          assert ([q[0]] + rest.1) + rest.0 == [q[0]] + (rest.1 + rest.0);
          assert [q[0]] + (q[1..] + rest.2) == q + rest.2;
        } else {
          FifoOrder(q, ops[1..]);
        }
    }
  }

  /** Advancing the write index by one wraps to the slot after the last record. */
  lemma NextSlot(tail: int, count: int)
    requires 0 <= tail < FIFO_SIZE && 0 <= count < FIFO_SIZE
    ensures ((tail + count) % FIFO_SIZE + 1) % FIFO_SIZE == (tail + count + 1) % FIFO_SIZE
  {
    if tail + count >= FIFO_SIZE {
      assert (tail + count) % FIFO_SIZE == tail + count - FIFO_SIZE;
    }
  }

  /** Slots `tail + i` and `tail + j` of the ring are distinct for distinct offsets below its size. */
  lemma SlotsDistinct(tail: int, i: int, j: int)
    requires 0 <= tail < FIFO_SIZE && 0 <= i < j < FIFO_SIZE
    ensures (tail + i) % FIFO_SIZE != (tail + j) % FIFO_SIZE
  {
    if tail + j < FIFO_SIZE {
    } else if tail + i < FIFO_SIZE {
      assert (tail + j) % FIFO_SIZE == tail + j - FIFO_SIZE;
    } else {
      assert (tail + i) % FIFO_SIZE == tail + i - FIFO_SIZE;
      assert (tail + j) % FIFO_SIZE == tail + j - FIFO_SIZE;
    }
  }

  /** Advancing the tail by one slot moves every offset down by one. */
  lemma SlotShift(tail: int, i: int)
    requires 0 <= tail < FIFO_SIZE && 0 <= i
    ensures ((tail + 1) % FIFO_SIZE + i) % FIFO_SIZE == (tail + 1 + i) % FIFO_SIZE
  {
    if tail + 1 == FIFO_SIZE {
      assert (tail + 1) % FIFO_SIZE == 0;
      assert (tail + 1 + i) % FIFO_SIZE == i % FIFO_SIZE by {
        assert tail + 1 + i == i + FIFO_SIZE;
      }
    }
  }

  class IMUFifo<T(0)> {
    const buffer: array<T>
    var head: int
    var tail: int
    var count: int
    var overflow: int
    /** The records queued, oldest first. */
    ghost var contents: seq<T>

    ghost predicate Valid()
      reads this, buffer
    {
      && buffer.Length == FIFO_SIZE
      && 0 <= tail < FIFO_SIZE && 0 <= count <= FIFO_SIZE
      && head == (tail + count) % FIFO_SIZE
      && |contents| == count
      && forall i | 0 <= i < count :: contents[i] == buffer[(tail + i) % FIFO_SIZE]
    }

    constructor ()
      ensures Valid() && contents == []
      ensures head == 0 && tail == 0 && count == 0 && overflow == 0
    {
      buffer := new T[FIFO_SIZE];
      head, tail, count, overflow := 0, 0, 0, 0;
      contents := [];
    }

    /** `push`: stores at `head` when there is room, otherwise counts an overflow. */
    method Push(record: T) returns (ok: bool)
      requires Valid()
      modifies this, buffer
      ensures Valid()
      ensures (contents, ok) == QueuePush(old(contents), record)
      ensures ok ==> head == (old(head) + 1) % FIFO_SIZE && tail == old(tail)
                     && count == old(count) + 1 && overflow == old(overflow)
      ensures !ok ==> head == old(head) && tail == old(tail) && count == old(count)
                      && overflow == WrapI32(old(overflow) + 1) && buffer[..] == old(buffer[..])
    {
      if count < FIFO_SIZE {
        ghost var before := contents;
        buffer[head] := record;
        contents := contents + [record];
        forall i | 0 <= i < count + 1
          ensures contents[i] == buffer[(tail + i) % FIFO_SIZE]
        {
          if i < count {
            SlotsDistinct(tail, i, count);
            assert contents[i] == before[i];
          }
        }
        NextSlot(tail, count);
        head := (head + 1) % FIFO_SIZE;
        count := count + 1;
        return true;
      }
      overflow := WrapI32(overflow + 1);
      return false;
    }

    /** `pop`: takes the record at `tail` when there is one; otherwise `prior` is left in place. */
    method Pop(prior: T) returns (ok: bool, record: T)
      requires Valid()
      modifies this
      ensures Valid()
      ensures match QueuePop(old(contents))
        case None => !ok && record == prior && contents == old(contents)
        case Some(p) => ok && record == p.0 && contents == p.1
      ensures ok ==> tail == (old(tail) + 1) % FIFO_SIZE && count == old(count) - 1
      ensures !ok ==> tail == old(tail) && count == old(count)
      ensures head == old(head) && overflow == old(overflow)
    {
      if count > 0 {
        record := buffer[tail];
        assert record == contents[0];
        forall i | 0 <= i < count - 1
          ensures contents[1..][i] == buffer[((tail + 1) % FIFO_SIZE + i) % FIFO_SIZE]
        {
          SlotShift(tail, i);
        }
        SlotShift(tail, count - 1);
        tail := (tail + 1) % FIFO_SIZE;
        count := count - 1;
        contents := contents[1..];
        return true, record;
      }
      return false, prior;
    }

    /** `size` */
    method Size() returns (n: int)
      requires Valid()
      ensures n == count && n == |contents|
    {
      return count;
    }

    /** `clear`: empties the FIFO and forgets the overflow count. */
    method Clear()
      requires Valid()
      modifies this
      ensures Valid() && contents == []
      ensures head == 0 && tail == 0 && count == 0 && overflow == 0
    {
      head, tail, count, overflow := 0, 0, 0, 0;
      contents := [];
    }
  }
}

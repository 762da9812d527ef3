/**
 * Callers of the queue, proved from its contracts alone: the behaviours a
 * user of the Cosa queue relies on, played out on concrete members.
 */
module QueueScenarios {
  import opened CosaQueue

  /**
   * Wrap-around: four one-byte members; enqueue 1, 2, 3, dequeue, enqueue 4
   * and 5 (the write cursor wraps to the start of the buffer before 5), then
   * drain.  The members come out as they went in.
   */
  method WrapAround() returns (first: uint8, drained: seq<uint8>)
    ensures first == 1
    ensures drained == [2, 3, 4, 5]
  {
    var q := new Queue(4, 1, null);
    var out := new uint8[1];
    first := PutThreeTakeOne(q, out);
    PutFourFive(q);
    drained := TakeFour(q, out);
  }

  /** Into an empty queue of one-byte members, enqueue 1, 2, 3 and dequeue one. */
  method PutThreeTakeOne(q: Queue, out: array<uint8>) returns (first: uint8)
    requires q.Valid() && q.nmemb == 4 && q.msize == 1 && q.Contents == []
    requires out.Length == 1 && out != q.buffer
    modifies q, q.buffer, out
    ensures q.Valid() && q.nmemb == 4 && q.msize == 1 && q.buffer == old(q.buffer)
    ensures q.Contents == [[2], [3]] && first == 1
  {
    var ok := q.Enqueue([1]);
    assert [1 as uint8][..1] == [1];
    ok := q.Enqueue([2]);
    assert [2 as uint8][..1] == [2];
    ok := q.Enqueue([3]);
    assert [3 as uint8][..1] == [3];
    assert q.Contents == [[1], [2], [3]];
    ok := q.Dequeue(out);
    first := out[0];
  }

  /** Enqueue 4 and 5 behind 2 and 3. */
  method PutFourFive(q: Queue)
    requires q.Valid() && q.nmemb == 4 && q.msize == 1 && q.Contents == [[2], [3]]
    modifies q, q.buffer
    ensures q.Valid() && q.nmemb == 4 && q.msize == 1 && q.buffer == old(q.buffer)
    ensures q.Contents == [[2], [3], [4], [5]]
  {
    var ok := q.Enqueue([4]);
    assert [4 as uint8][..1] == [4];
    ok := q.Enqueue([5]);
    assert [5 as uint8][..1] == [5];
  }

  /** Dequeue four one-byte members. */
  method TakeFour(q: Queue, out: array<uint8>) returns (drained: seq<uint8>)
    requires q.Valid() && q.msize == 1 && q.Contents == [[2], [3], [4], [5]]
    requires out.Length == 1 && out != q.buffer
    modifies q, out
    ensures drained == [2, 3, 4, 5] && q.Contents == []
  {
    var ok := q.Dequeue(out);
    drained := [out[0]];
    ok := q.Dequeue(out);
    drained := drained + [out[0]];
    ok := q.Dequeue(out);
    drained := drained + [out[0]];
    ok := q.Dequeue(out);
    drained := drained + [out[0]];
  }

  /**
   * Capacity and empty bounds on a queue over a caller-supplied buffer: a
   * fresh queue is not available and refuses a dequeue; after two
   * enqueues into room for two, a third is refused, the length is two and a
   * member is available.
   */
  method Bounds() returns (emptyGet: bool, emptyAvailable: bool, third: bool, len: uint8, available: bool)
    ensures !emptyGet && !emptyAvailable
    ensures !third && len == 2 && available
  {
    var storage := new uint8[6];
    var q := new Queue(2, 3, storage);
    var out := new uint8[3];
    emptyAvailable := q.Available();
    emptyGet := q.Dequeue(out);
    var ok := q.Enqueue([1, 2, 3]);
    ok := q.Enqueue([4, 5, 6]);
    third := q.Enqueue([7, 8, 9]);
    len := q.Length();
    available := q.Available();
  }

  /**
   * Await on an empty queue: the processor sleeps through a wake-up that
   * brings nothing, then an interrupt enqueues 7; await returns it and
   * leaves the queue empty.
   */
  method AwaitDelivers() returns (got: uint8, len: uint8)
    ensures got == 7 && len == 0
  {
    var q := new Queue(3, 1, null);
    var out := new uint8[1];
    var wakeups := [None, Some([7])];
    assert wakeups[1].Some?;
    q.Await(out, 0, wakeups);
    got := out[0];
    len := q.Length();
  }
}

/**
 * The abstract behaviour of a bounded FIFO queue of `nmemb` members, as seen
 * by its callers: what each non-blocking call reports and what the queue
 * holds afterwards.  The byte-level ring buffer in module CosaQueue is proved
 * to take exactly these steps.
 */
module QueueSpec {

  /** One call on the queue: an enqueue of a member, or a dequeue. */
  datatype Op<M> = Put(member: M) | Get

  /** What one call did, together with the member it concerns. */
  datatype Event<M> =
    | Stored(member: M)     // enqueue returned true
    | Rejected(member: M)   // enqueue returned false: no room
    | Delivered(member: M)  // dequeue returned true with this member
    | NoData                // dequeue returned false: nothing queued

  /**
   * One call on a queue with room for `nmemb` members that holds `q`
   * (oldest first): the new contents and what the call reported.
   * Full means a length equal to `nmemb`, as in the source's test.
   */
  function Step<M>(nmemb: nat, q: seq<M>, op: Op<M>): (seq<M>, Event<M>)
  {
    match op
    case Put(m) => if |q| == nmemb then (q, Rejected(m)) else (q + [m], Stored(m))
    case Get => if |q| == 0 then (q, NoData) else (q[1..], Delivered(q[0]))
  }

  /** A sequence of calls, one after the other: final contents and the log. */
  function Run<M>(nmemb: nat, q: seq<M>, ops: seq<Op<M>>): (r: (seq<M>, seq<Event<M>>))
    ensures |r.1| == |ops|
    decreases |ops|
  {
    if ops == [] then (q, [])
    else
      var (q', e) := Step(nmemb, q, ops[0]);
      var (qf, log) := Run(nmemb, q', ops[1..]);
      (qf, [e] + log)
  }

  /** The members the log says were accepted, in call order. */
  function StoredOf<M>(log: seq<Event<M>>): seq<M>
  {
    if log == [] then []
    else (if log[0].Stored? then [log[0].member] else []) + StoredOf(log[1..])
  }

  /** The members the log says were handed out, in call order. */
  function DeliveredOf<M>(log: seq<Event<M>>): seq<M>
  {
    if log == [] then []
    else (if log[0].Delivered? then [log[0].member] else []) + DeliveredOf(log[1..])
  }

  /** `ms` enqueued one after the other. */
  function Puts<M>(ms: seq<M>): (ops: seq<Op<M>>)
    ensures |ops| == |ms|
    ensures forall i :: 0 <= i < |ms| ==> ops[i] == Put(ms[i])
  {
    if ms == [] then [] else [Put(ms[0])] + Puts(ms[1..])
  }

  /** `k` dequeues one after the other. */
  function Gets<M>(k: nat): (ops: seq<Op<M>>)
    ensures |ops| == k
    ensures forall i :: 0 <= i < k ==> ops[i] == Get
  {
    if k == 0 then [] else [Get] + Gets(k - 1)
  }

  /** A call leaves the contents as they were exactly when it is refused. */
  lemma StepUnchangedIffRefused<M>(nmemb: nat, q: seq<M>, op: Op<M>)
    requires |q| <= nmemb
    ensures Step(nmemb, q, op).0 == q <==> (Step(nmemb, q, op).1.Rejected? || Step(nmemb, q, op).1.NoData?)
  {
    var (q', e) := Step(nmemb, q, op);
    if e.Stored? { assert |q'| == |q| + 1; }
    if e.Delivered? { assert |q'| == |q| - 1; }
  }

  /** No sequence of calls takes the length outside 0 .. nmemb. */
  lemma {:induction false} RunKeepsBound<M>(nmemb: nat, q: seq<M>, ops: seq<Op<M>>)
    requires |q| <= nmemb
    ensures |Run(nmemb, q, ops).0| <= nmemb
    decreases |ops|
  {
    if ops != [] {
      RunKeepsBound(nmemb, Step(nmemb, q, ops[0]).0, ops[1..]);
    }
  }

  /**
   * First in, first out: what was queued followed by what was accepted is
   * exactly what was handed out followed by what is still queued.  Nothing
   * is lost, duplicated or reordered.
   */
  lemma {:induction false} RunIsFifo<M>(nmemb: nat, q: seq<M>, ops: seq<Op<M>>)
    ensures q + StoredOf(Run(nmemb, q, ops).1) == DeliveredOf(Run(nmemb, q, ops).1) + Run(nmemb, q, ops).0
    decreases |ops|
  {
    if ops != [] {
      var (q', e) := Step(nmemb, q, ops[0]);
      var (qf, log) := Run(nmemb, q', ops[1..]);
      RunIsFifo(nmemb, q', ops[1..]);
      assert Run(nmemb, q, ops) == (qf, [e] + log);
      assert ([e] + log)[1..] == log;
      match e
      case Stored(m) =>
        assert q' == q + [m];
        calc {
          q + StoredOf([e] + log);
          q + ([m] + StoredOf(log));
          (q + [m]) + StoredOf(log);
          DeliveredOf(log) + qf;
          DeliveredOf([e] + log) + qf;
        }
      case Delivered(m) =>
        assert q == [m] + q';
        calc {
          q + StoredOf([e] + log);
          [m] + (q' + StoredOf(log));
          [m] + (DeliveredOf(log) + qf);
          DeliveredOf([e] + log) + qf;
        }
      case Rejected(m) =>
        assert StoredOf([e] + log) == StoredOf(log) && DeliveredOf([e] + log) == DeliveredOf(log);
      case NoData =>
        assert StoredOf([e] + log) == StoredOf(log) && DeliveredOf([e] + log) == DeliveredOf(log);
    }
  }

  /**
   * Conservation: the final length is the starting length plus the accepted
   * enqueues minus the successful dequeues, and stays within 0 .. nmemb.
   */
  lemma RunConservesLength<M>(nmemb: nat, q: seq<M>, ops: seq<Op<M>>)
    requires |q| <= nmemb
    ensures |Run(nmemb, q, ops).0| == |q| + |StoredOf(Run(nmemb, q, ops).1)| - |DeliveredOf(Run(nmemb, q, ops).1)|
    ensures |Run(nmemb, q, ops).0| <= nmemb
  {
    RunIsFifo(nmemb, q, ops);
    RunKeepsBound(nmemb, q, ops);
  }

  /** A single call is one step of the queue. */
  lemma RunOne<M>(nmemb: nat, q: seq<M>, op: Op<M>)
    ensures Run(nmemb, q, [op]) == (Step(nmemb, q, op).0, [Step(nmemb, q, op).1])
  {
    var (q', e) := Step(nmemb, q, op);
    assert [op][0] == op && [op][1..] == [];
    assert Run(nmemb, q', []) == (q', []);
    assert [e] + [] == [e];
  }

  /** Running two batches of calls is running the first, then the second. */
  lemma {:induction false} RunSplit<M>(nmemb: nat, q: seq<M>, a: seq<Op<M>>, b: seq<Op<M>>)
    ensures Run(nmemb, q, a + b).0 == Run(nmemb, Run(nmemb, q, a).0, b).0
    ensures Run(nmemb, q, a + b).1 == Run(nmemb, q, a).1 + Run(nmemb, Run(nmemb, q, a).0, b).1
    decreases |a|
  {
    if a != [] {
      assert (a + b)[0] == a[0];
      assert (a + b)[1..] == a[1..] + b;
      RunSplit(nmemb, Step(nmemb, q, a[0]).0, a[1..], b);
    } else {
      assert a + b == b;
    }
  }

  /** Enqueues that fit are all accepted and appended in order. */
  lemma {:induction false} PutsAllStored<M>(nmemb: nat, q: seq<M>, ms: seq<M>)
    requires |q| + |ms| <= nmemb
    ensures Run(nmemb, q, Puts(ms)).0 == q + ms
    ensures StoredOf(Run(nmemb, q, Puts(ms)).1) == ms
    ensures DeliveredOf(Run(nmemb, q, Puts(ms)).1) == []
    decreases |ms|
  {
    if ms != [] {
      var ops := Puts(ms);
      assert ops[0] == Put(ms[0]) && ops[1..] == Puts(ms[1..]);
      var q' := q + [ms[0]];
      assert Step(nmemb, q, ops[0]) == (q', Stored(ms[0]));
      var (qf, log) := Run(nmemb, q', Puts(ms[1..]));
      assert Run(nmemb, q, ops) == (qf, [Stored(ms[0])] + log);
      PutsAllStored(nmemb, q', ms[1..]);
      assert q' + ms[1..] == q + ms;
      assert ([Stored(ms[0])] + log)[1..] == log;
      assert StoredOf([Stored(ms[0])] + log) == [ms[0]] + ms[1..] == ms;
      assert DeliveredOf([Stored(ms[0])] + log) == [];
    }
  }

  /** As many dequeues as there are members hand them all out, oldest first. */
  lemma {:induction false} GetsDrain<M>(nmemb: nat, q: seq<M>)
    ensures Run(nmemb, q, Gets(|q|)).0 == []
    ensures DeliveredOf(Run(nmemb, q, Gets(|q|)).1) == q
    ensures StoredOf(Run(nmemb, q, Gets(|q|)).1) == []
    decreases |q|
  {
    if q != [] {
      assert Gets<M>(|q|)[1..] == Gets(|q[1..]|);
      GetsDrain(nmemb, q[1..]);
      assert q == [q[0]] + q[1..];
    }
  }

  /**
   * Capacity bound: after `nmemb` accepted enqueues into an empty queue the
   * next enqueue is refused and the queue still holds those `nmemb` members.
   */
  lemma CapacityRejects<M>(nmemb: nat, ms: seq<M>, x: M)
    requires |ms| == nmemb
    ensures Run(nmemb, [], Puts(ms) + [Put(x)]).0 == ms
    ensures Run(nmemb, [], Puts(ms) + [Put(x)]).1[nmemb] == Rejected(x)
  {
    RunSplit(nmemb, [], Puts(ms), [Put(x)]);
    PutsAllStored(nmemb, [], ms);
    assert [] + ms == ms;
  }

  /**
   * FIFO order end to end: enqueue up to `nmemb` members into an empty queue,
   * then dequeue as many; the members come out exactly as they went in and the
   * queue is empty again.
   */
  lemma PutsThenGets<M>(nmemb: nat, ms: seq<M>)
    requires |ms| <= nmemb
    ensures DeliveredOf(Run(nmemb, [], Puts(ms) + Gets(|ms|)).1) == ms
    ensures Run(nmemb, [], Puts(ms) + Gets(|ms|)).0 == []
  {
    RunSplit(nmemb, [], Puts(ms), Gets(|ms|));
    PutsAllStored(nmemb, [], ms);
    assert [] + ms == ms;
    GetsDrain(nmemb, ms);
    DeliveredOfAppend(Run(nmemb, [], Puts(ms)).1, Run(nmemb, ms, Gets(|ms|)).1);
  }

  lemma {:induction false} DeliveredOfAppend<M>(a: seq<Event<M>>, b: seq<Event<M>>)
    ensures DeliveredOf(a + b) == DeliveredOf(a) + DeliveredOf(b)
    decreases |a|
  {
    if a == [] {
      assert a + b == b;
    } else {
      assert (a + b)[0] == a[0];
      assert (a + b)[1..] == a[1..] + b;
      DeliveredOfAppend(a[1..], b);
    }
  }
}

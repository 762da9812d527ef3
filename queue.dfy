/**
 * The Cosa ring-buffer queue: `nmemb` members of `msize` bytes each in one
 * byte buffer, a write cursor and a read cursor that wrap at the end marker,
 * and an explicit length counter that tells a full queue from an empty one.
 *
 * The source's pointers `_putp`, `_getp` and `_lastp` are modelled as byte
 * offsets from the start of the buffer.
 */
module CosaQueue {
  import QueueSpec

  newtype uint8 = x: int | 0 <= x < 0x100

  datatype Option<T> = None | Some(value: T)

  /**
   * The byte offset of slot `s` when members are `m` bytes long, that is
   * `s * m` (OffsetIsProduct), written as a sum so that proofs about the
   * cursors stay linear.
   */
  function Offset(s: nat, m: nat): nat
  {
    if s == 0 then 0 else Offset(s - 1, m) + m
  }

  /** The `m` bytes of slot `s` of `b`; empty when the slot does not fit. */
  function SlotOf(b: seq<uint8>, s: nat, m: nat): seq<uint8>
  {
    if Offset(s, m) + m <= |b| then b[Offset(s, m) .. Offset(s, m) + m] else []
  }

  /** `b` with the bytes from offset `at` on replaced by `x`. */
  function Overwrite(b: seq<uint8>, at: nat, x: seq<uint8>): (r: seq<uint8>)
    requires at + |x| <= |b|
    ensures |r| == |b|
    ensures r[at .. at + |x|] == x
    ensures forall k :: 0 <= k < |b| && !(at <= k < at + |x|) ==> r[k] == b[k]
  {
    b[..at] + x + b[at + |x|..]
  }

  /** The cursor step of enqueue and dequeue: one member on, back to offset 0 at the end marker. */
  function Advance(p: nat, msize: nat, lastp: nat): nat
  {
    if p + msize == lastp then 0 else p + msize
  }

  /** The ring slot after slot `s` of `n`. */
  function NextSlot(s: nat, n: nat): nat
  {
    if s + 1 == n then 0 else s + 1
  }

  /** The slot `i` slots round an `n`-slot ring from slot `g`, for `g, i < n`: where the `i`-th queued member sits. */
  function Ring(g: nat, i: nat, n: nat): nat
  {
    if g + i < n then g + i else g + i - n
  }

  lemma {:induction false} OffsetIsProduct(s: nat, m: nat)
    ensures Offset(s, m) == s * m
  {
    if s > 0 {
      OffsetIsProduct(s - 1, m);
      assert s * m == (s - 1) * m + m;
    }
  }

  /** Offsets grow with the slot index, strictly when members are not empty. */
  lemma {:induction false} OffsetMonotone(s: nat, t: nat, m: nat)
    requires s <= t
    ensures Offset(s, m) <= Offset(t, m)
    ensures s < t ==> Offset(s, m) + m <= Offset(t, m)
    decreases t
  {
    if s < t {
      OffsetMonotone(s, t - 1, m);
    }
  }

  /** Slot `s` of an `n`-slot ring lies within the first `Offset(n, m)` bytes. */
  lemma SlotInside(s: nat, n: nat, m: nat)
    requires s < n
    ensures Offset(s, m) + m <= Offset(n, m)
  {
    OffsetMonotone(s, n, m);
  }

  /** Cursor wrap-around: one step of a cursor on a slot boundary moves it to the next slot's boundary. */
  lemma AdvanceIsNextSlot(s: nat, n: nat, m: nat)
    requires s < n
    ensures NextSlot(s, n) < n
    ensures Advance(Offset(s, m), m, Offset(n, m)) == Offset(NextSlot(s, n), m)
  {
    assert Offset(s + 1, m) == Offset(s, m) + m;
    if s + 1 < n && m > 0 {
      OffsetMonotone(s + 1, n, m);
    } else if s + 1 < n {
      assert Offset(n, m) == 0 by { OffsetIsProduct(n, m); }
      assert Offset(s + 1, m) == 0 by { OffsetIsProduct(s + 1, m); }
    }
  }

  lemma MulMonotone(a: nat, b: nat, c: nat)
    requires a <= b
    ensures a * c <= b * c
  {
    assert b * c - a * c == (b - a) * c;
  }

  /** Euclidean division by `m` has one quotient and one remainder. */
  lemma DivModUnique(x: int, m: int, q: int, r: int)
    requires 0 < m && 0 <= r < m && x == q * m + r
    ensures x / m == q && x % m == r
  {
    var q', r' := x / m, x % m;
    assert x == q' * m + r' && 0 <= r' < m;
    assert (q - q') * m == r' - r;
    if q' < q {
      MulMonotone(1, q - q', m);
      assert false;
    } else if q < q' {
      MulMonotone(1, q' - q, m);
      assert false;
    }
  }

  /** A cursor on a slot boundary is a whole number of `m`-byte slots from the start. */
  lemma SlotBoundary(s: nat, m: nat)
    requires 0 < m
    ensures Offset(s, m) % m == 0 && Offset(s, m) / m == s
  {
    OffsetIsProduct(s, m);
    DivModUnique(s * m, m, s, 0);
  }

  /** Writing one member into slot `t` changes that slot and no other. */
  lemma SlotAfterOverwrite(b: seq<uint8>, n: nat, m: nat, t: nat, s: nat, x: seq<uint8>)
    requires Offset(n, m) <= |b| && t < n && s < n && |x| == m
    ensures Offset(t, m) + m <= |b|
    ensures SlotOf(Overwrite(b, Offset(t, m), x), s, m) == if s == t then x else SlotOf(b, s, m)
  {
    SlotInside(t, n, m);
    SlotInside(s, n, m);
    var b' := Overwrite(b, Offset(t, m), x);
    if s < t {
      OffsetMonotone(s, t, m);
      assert b'[Offset(s, m) .. Offset(s, m) + m] == b[Offset(s, m) .. Offset(s, m) + m];
    } else if t < s {
      OffsetMonotone(t, s, m);
      assert b'[Offset(s, m) .. Offset(s, m) + m] == b[Offset(s, m) .. Offset(s, m) + m];
    }
  }

  /** One more slot round the ring from `g` is the slot after the `i`-th one. */
  lemma RingStep(g: nat, i: nat, n: nat)
    requires g < n && i < n
    ensures Ring(g, i, n) < n
    ensures Ring(g, i + 1, n) == NextSlot(Ring(g, i, n), n)
  {
  }

  /**
   * The ring layout: the `i`-th of the queued members `q` sits in the `i`-th
   * slot from slot `g` of the `n`-slot, `m`-byte-per-slot ring in `b`.
   */
  ghost predicate Layout(b: seq<uint8>, n: nat, m: nat, g: nat, q: seq<seq<uint8>>)
  {
    forall i {:trigger SlotOf(b, Ring(g, i, n), m)} :: 0 <= i < |q| ==> SlotOf(b, Ring(g, i, n), m) == q[i]
  }

  /** Writing a member into the slot after the last queued one appends it to the layout. */
  lemma LayoutAfterPut(b: seq<uint8>, n: nat, m: nat, g: nat, q: seq<seq<uint8>>, x: seq<uint8>)
    requires Layout(b, n, m, g, q) && g < n && |q| < n && |x| == m && Offset(n, m) <= |b|
    ensures Offset(Ring(g, |q|, n), m) + m <= |b|
    ensures Layout(Overwrite(b, Offset(Ring(g, |q|, n), m), x), n, m, g, q + [x])
  {
    var t := Ring(g, |q|, n);
    SlotInside(t, n, m);
    var b' := Overwrite(b, Offset(t, m), x);
    forall i | 0 <= i < |q| + 1
      ensures SlotOf(b', Ring(g, i, n), m) == (q + [x])[i]
    {
      SlotAfterOverwrite(b, n, m, t, Ring(g, i, n), x);
    }
  }

  /** Taking the member in slot `g` leaves the others laid out from the next slot. */
  lemma LayoutAfterGet(b: seq<uint8>, n: nat, m: nat, g: nat, q: seq<seq<uint8>>)
    requires Layout(b, n, m, g, q) && g < n && 0 < |q| <= n
    ensures SlotOf(b, g, m) == q[0]
    ensures Layout(b, n, m, NextSlot(g, n), q[1..])
    ensures Ring(NextSlot(g, n), |q[1..]|, n) == Ring(g, |q|, n)
  {
    assert Ring(g, 0, n) == g && SlotOf(b, Ring(g, 0, n), m) == q[0];
    forall i | 0 <= i < |q| - 1
      ensures SlotOf(b, Ring(NextSlot(g, n), i, n), m) == q[1..][i]
    {
      assert Ring(NextSlot(g, n), i, n) == Ring(g, (i + 1), n);
    }
  }

  /**
   * The queue invariant on plain values: the end marker `lastp` is
   * `n` slots of `m` bytes on and inside the buffer `b`, the length counter
   * `len` counts the queued members `q` and is at most `n`, the read cursor
   * `getp` is on slot `g`, the write cursor `putp` is `len` slots further
   * round the ring, and the members are laid out from slot `g`.
   */
  ghost predicate RingInv(b: seq<uint8>, n: nat, m: nat, len: nat, putp: nat, getp: nat, lastp: nat,
                          g: nat, q: seq<seq<uint8>>)
  {
    && lastp == Offset(n, m)
    && lastp <= |b|
    && len == |q| <= n
    && (g < n || g == 0 == n)
    && getp == Offset(g, m)
    && putp == Offset(Ring(g, |q|, n), m)
    && Layout(b, n, m, g, q)
  }

  /**
   * Enqueue on values: when there is room, copying a member in at the write
   * cursor and advancing the cursor with wrap keeps the invariant and
   * appends the member.
   */
  lemma PutKeepsRingInv(b: seq<uint8>, n: nat, m: nat, len: nat, putp: nat, getp: nat, lastp: nat,
                        g: nat, q: seq<seq<uint8>>, x: seq<uint8>)
    requires RingInv(b, n, m, len, putp, getp, lastp, g, q)
    requires len < n && |x| == m
    ensures putp + m <= lastp <= |b|
    ensures RingInv(Overwrite(b, putp, x), n, m, len + 1, Advance(putp, m, lastp), getp, lastp, g, q + [x])
  {
    LayoutAfterPut(b, n, m, g, q, x);
    SlotInside(Ring(g, |q|, n), n, m);
    AdvanceIsNextSlot(Ring(g, |q|, n), n, m);
    RingStep(g, |q|, n);
  }

  /**
   * Dequeue on values: when a member is queued, it is the slot at the read
   * cursor, and advancing the cursor with wrap keeps the invariant and
   * removes that member.
   */
  lemma GetKeepsRingInv(b: seq<uint8>, n: nat, m: nat, len: nat, putp: nat, getp: nat, lastp: nat,
                        g: nat, q: seq<seq<uint8>>)
    requires RingInv(b, n, m, len, putp, getp, lastp, g, q)
    requires 0 < len
    ensures getp + m <= lastp <= |b|
    ensures b[getp .. getp + m] == q[0]
    ensures RingInv(b, n, m, len - 1, putp, Advance(getp, m, lastp), lastp, NextSlot(g, n), q[1..])
  {
    LayoutAfterGet(b, n, m, g, q);
    SlotInside(g, n, m);
    AdvanceIsNextSlot(g, n, m);
  }

  /** Copy the first `m` bytes of `src` into `dst` from offset `at` on. */
  method CopyIn(dst: array<uint8>, at: nat, src: seq<uint8>, m: nat)
    requires m <= |src| && at + m <= dst.Length
    modifies dst
    ensures dst[..] == Overwrite(old(dst[..]), at, src[..m])
  {
    var i := 0;
    while i < m
      invariant 0 <= i <= m
      invariant dst[..] == Overwrite(old(dst[..]), at, src[..i])
    {
      dst[at + i] := src[i];
      i := i + 1;
    }
    assert src[..i] == src[..m];
  }

  /** Copy the `m` bytes of `src` from offset `at` on into the start of `dst`. */
  method CopyOut(dst: array<uint8>, src: array<uint8>, at: nat, m: nat)
    requires dst != src && m <= dst.Length && at + m <= src.Length
    modifies dst
    ensures dst[..] == Overwrite(old(dst[..]), 0, src[at .. at + m])
  {
    var i := 0;
    while i < m
      invariant 0 <= i <= m
      invariant dst[..] == Overwrite(old(dst[..]), 0, src[at .. at + i])
    {
      dst[i] := src[at + i];
      i := i + 1;
    }
  }

  class Queue {
    var length: uint8   // _length
    var nmemb: uint8    // _nmemb
    var msize: uint8    // _msize
    var putp: nat       // _putp - _buffer
    var getp: nat       // _getp - _buffer
    var lastp: nat      // _lastp - _buffer
    var buffer: array<uint8>

    /** The queued members, oldest first; each is `msize` bytes. */
    ghost var Contents: seq<seq<uint8>>
    /** The slot the read cursor is on. */
    ghost var getSlot: nat

    /**
     * The queue invariant: the end marker is `nmemb * msize` bytes on, the
     * length counter counts the members, the read cursor is on slot
     * `getSlot`, the write cursor `length` slots further round the ring, and
     * the `i`-th member sits in the `i`-th slot from the read cursor.
     */
    ghost predicate Valid()
      reads this, buffer
    {
      RingInv(buffer[..], nmemb as nat, msize as nat, length as nat, putp, getp, lastp, getSlot, Contents)
    }

    /**
     * A queue of `nmemb` members of `msize` bytes over `supplied` when it is
     * given (it must hold `nmemb * msize` bytes), otherwise over a new buffer.
     */
    constructor (nmemb: uint8, msize: uint8, supplied: array?<uint8>)
      requires supplied != null ==> nmemb as nat * msize as nat <= supplied.Length
      ensures Valid()
      ensures this.nmemb == nmemb && this.msize == msize
      ensures length == 0 && Contents == []
      ensures putp == 0 && getp == 0 && lastp == nmemb as nat * msize as nat
      ensures supplied != null ==> buffer == supplied
      ensures supplied == null ==> fresh(buffer) && buffer.Length == nmemb as nat * msize as nat
    {
      length := 0;
      this.nmemb := nmemb;
      this.msize := msize;
      if supplied != null {
        buffer := supplied;
      } else {
        buffer := new uint8[nmemb as nat * msize as nat];
      }
      putp := 0;
      getp := 0;
      lastp := nmemb as nat * msize as nat;
      OffsetIsProduct(nmemb as nat, msize as nat);
      Contents := [];
      getSlot := 0;
    }

    /** The number of queued members. */
    function Length(): (n: uint8)
      requires Valid()
      reads this, buffer
      ensures n as nat == |Contents| && n <= nmemb
    {
      length
    }

    /** Whether a member is queued. */
    function Available(): (b: bool)
      requires Valid()
      reads this, buffer
      ensures b <==> |Contents| > 0
    {
      length > 0
    }

    /** The read and write cursors are on member boundaries inside the storage. */
    lemma CursorsInStorage()
      requires Valid()
      ensures 0 < nmemb ==> putp + msize as nat <= lastp && getp + msize as nat <= lastp
      ensures 0 < msize ==> putp % msize as nat == 0 && getp % msize as nat == 0
      ensures 0 < msize ==> putp / msize as nat < nmemb as nat || lastp == putp == 0
      ensures 0 < msize ==> getp / msize as nat < nmemb as nat || lastp == getp == 0
      ensures 0 < lastp ==> putp < lastp && getp < lastp
    {
      var n, m := nmemb as nat, msize as nat;
      var ps := Ring(getSlot, |Contents|, n);
      if 0 < n {
        SlotInside(ps, n, m);
        SlotInside(getSlot, n, m);
      }
      if 0 < m {
        SlotBoundary(ps, m);
        SlotBoundary(getSlot, m);
      } else {
        OffsetIsProduct(n, m);
      }
    }

    /**
     * Enqueue one member, the first `msize` bytes of `data`, if there is room:
     * returns false and changes nothing when `nmemb` members are queued;
     * otherwise copies the member in at the write cursor, moves the write
     * cursor one member on (wrapping at the end marker) and counts it.
     */
    method Enqueue(data: seq<uint8>) returns (ok: bool)
      requires Valid()
      requires msize as nat <= |data|
      modifies this, buffer
      ensures Valid()
      ensures nmemb == old(nmemb) && msize == old(msize) && lastp == old(lastp)
      ensures buffer == old(buffer) && getp == old(getp)
      ensures ok <==> old(length) < nmemb
      ensures ok ==> old(putp) + msize as nat <= lastp
      ensures ok ==> && length == old(length) + 1
                     && putp == Advance(old(putp), msize as nat, lastp)
                     && buffer[old(putp) .. old(putp) + msize as nat] == data[..msize]
                     && (forall k :: 0 <= k < buffer.Length && !(old(putp) <= k < old(putp) + msize as nat) ==> buffer[k] == old(buffer[k]))
                     && Contents == old(Contents) + [data[..msize]]
      ensures !ok ==> unchanged(this) && unchanged(buffer)
      ensures QueueSpec.Step(nmemb as nat, old(Contents), QueueSpec.Put(data[..msize]))
              == (Contents, if ok then QueueSpec.Stored(data[..msize]) else QueueSpec.Rejected(data[..msize]))
    {
      if length == nmemb {
        return false;
      }
      ghost var member := data[..msize];
      PutKeepsRingInv(buffer[..], nmemb as nat, msize as nat, length as nat, putp, getp, lastp,
                      getSlot, Contents, member);
      CopyIn(buffer, putp, data, msize as nat);
      putp := Advance(putp, msize as nat, lastp);
      length := length + 1;
      Contents := Contents + [member];
      ok := true;
    }

    /**
     * Enqueue a member held in program memory: the same contract as Enqueue,
     * since only the copy primitive differs.
     */
    method EnqueueP(data: seq<uint8>) returns (ok: bool)
      requires Valid()
      requires msize as nat <= |data|
      modifies this, buffer
      ensures Valid()
      ensures nmemb == old(nmemb) && msize == old(msize) && lastp == old(lastp)
      ensures buffer == old(buffer) && getp == old(getp)
      ensures ok <==> old(length) < nmemb
      ensures ok ==> old(putp) + msize as nat <= lastp
      ensures ok ==> && length == old(length) + 1
                     && putp == Advance(old(putp), msize as nat, lastp)
                     && buffer[old(putp) .. old(putp) + msize as nat] == data[..msize]
                     && (forall k :: 0 <= k < buffer.Length && !(old(putp) <= k < old(putp) + msize as nat) ==> buffer[k] == old(buffer[k]))
                     && Contents == old(Contents) + [data[..msize]]
      ensures !ok ==> unchanged(this) && unchanged(buffer)
      ensures QueueSpec.Step(nmemb as nat, old(Contents), QueueSpec.Put(data[..msize]))
              == (Contents, if ok then QueueSpec.Stored(data[..msize]) else QueueSpec.Rejected(data[..msize]))
    {
      ok := Enqueue(data);
    }

    /**
     * Dequeue the oldest member into the first `msize` bytes of `data`:
     * returns false and changes nothing when the queue is empty; otherwise
     * copies the member out at the read cursor, moves the read cursor one
     * member on (wrapping at the end marker) and uncounts it.
     */
    method Dequeue(data: array<uint8>) returns (ok: bool)
      requires Valid()
      requires data != buffer && msize as nat <= data.Length
      modifies this, data
      ensures Valid()
      ensures nmemb == old(nmemb) && msize == old(msize) && lastp == old(lastp)
      ensures buffer == old(buffer) && buffer[..] == old(buffer[..]) && putp == old(putp)
      ensures ok <==> old(length) > 0
      ensures ok ==> && length == old(length) - 1
                     && getp == Advance(old(getp), msize as nat, lastp)
                     && data[..msize] == old(Contents)[0]
                     && data[msize..] == old(data[msize..])
                     && Contents == old(Contents)[1..]
      ensures !ok ==> unchanged(this) && unchanged(data)
      ensures QueueSpec.Step(nmemb as nat, old(Contents), QueueSpec.Get)
              == (Contents, if ok then QueueSpec.Delivered(data[..msize]) else QueueSpec.NoData)
    {
      if length == 0 {
        return false;
      }
      GetKeepsRingInv(buffer[..], nmemb as nat, msize as nat, length as nat, putp, getp, lastp,
                      getSlot, Contents);
      CopyOut(data, buffer, getp, msize as nat);
      getp := Advance(getp, msize as nat, lastp);
      getSlot := NextSlot(getSlot, nmemb as nat);
      length := length - 1;
      Contents := Contents[1..];
      ok := true;
    }

    /**
     * Await a member, then dequeue it into `data`.  While none is queued the
     * processor sleeps (in sleep mode `mode`); each wake-up is one entry of
     * `wakeups`, which is the member an interrupt handler enqueued before
     * the wake-up, or None when it enqueued nothing.  The call returns only
     * once a member has been dequeued, so a caller must make sure that one
     * arrives: either the queue is not empty or some wake-up brings a member.
     */
    method Await(data: array<uint8>, mode: uint8, wakeups: seq<Option<seq<uint8>>>)
      requires Valid()
      requires data != buffer && msize as nat <= data.Length
      requires forall k :: 0 <= k < |wakeups| ==> wakeups[k].Some? ==> msize as nat <= |wakeups[k].value|
      requires length > 0 || (nmemb > 0 && exists k :: 0 <= k < |wakeups| && wakeups[k].Some?)
      modifies this, buffer, data
      ensures Valid()
      ensures nmemb == old(nmemb) && msize == old(msize) && lastp == old(lastp) && buffer == old(buffer)
      ensures var avail := Arrived(old(Contents), wakeups, msize as nat);
              && avail != []
              && data[..msize] == avail[0]
              && data[msize..] == old(data[msize..])
              && Contents == avail[1..]
              && length as nat == |avail| - 1
      ensures var puts := Woken(old(Contents), wakeups, msize as nat);
              QueueSpec.Run(nmemb as nat, old(Contents), puts + [QueueSpec.Get])
              == (Contents, QueueSpec.Run(nmemb as nat, old(Contents), puts).1 + [QueueSpec.Delivered(data[..msize])])
    {
      var i := 0;
      ghost var done: seq<QueueSpec.Op<seq<uint8>>> := [];
      while !Available()
        invariant Valid()
        invariant nmemb == old(nmemb) && msize == old(msize) && lastp == old(lastp) && buffer == old(buffer)
        invariant data[..] == old(data[..])
        invariant 0 <= i <= |wakeups|
        invariant Arrived(old(Contents), wakeups, msize as nat) == Arrived(Contents, wakeups[i..], msize as nat)
        invariant length == 0 ==> nmemb > 0 && exists k :: i <= k < |wakeups| && wakeups[k].Some?
        invariant QueueSpec.Run(nmemb as nat, old(Contents), done).0 == Contents
        invariant done + Woken(Contents, wakeups[i..], msize as nat) == Woken(old(Contents), wakeups, msize as nat)
        decreases |wakeups| - i
      {
        // sleep until an interrupt; its handler may have enqueued a member
        assert wakeups[i..][1..] == wakeups[i + 1..];
        if wakeups[i].Some? {
          ghost var op := QueueSpec.Put(wakeups[i].value[..msize]);
          QueueSpec.RunSplit(nmemb as nat, old(Contents), done, [op]);
          QueueSpec.RunOne(nmemb as nat, Contents, op);
          var _ := Enqueue(wakeups[i].value);
          done := done + [op];
        }
        i := i + 1;
      }
      QueueSpec.RunSplit(nmemb as nat, old(Contents), done, [QueueSpec.Get]);
      QueueSpec.RunOne(nmemb as nat, Contents, QueueSpec.Get);
      assert done == Woken(old(Contents), wakeups, msize as nat);
      var ok := Dequeue(data);
    }

    /**
     * The enqueues `Await` performs before it dequeues: none when a member is
     * already queued, or else the one the first wake-up that brings a member
     * makes.
     */
    static ghost function Woken(q: seq<seq<uint8>>, wakeups: seq<Option<seq<uint8>>>, m: nat): seq<QueueSpec.Op<seq<uint8>>>
      decreases |wakeups|
    {
      if q != [] || wakeups == [] then []
      else if wakeups[0].Some? && m <= |wakeups[0].value| then [QueueSpec.Put(wakeups[0].value[..m])]
      else Woken(q, wakeups[1..], m)
    }

    /**
     * The members queued once `Await` has something to dequeue: those already
     * queued, or else the member the first wake-up that brings one enqueues.
     */
    static ghost function Arrived(q: seq<seq<uint8>>, wakeups: seq<Option<seq<uint8>>>, m: nat): seq<seq<uint8>>
      decreases |wakeups|
    {
      if q != [] || wakeups == [] then q
      else if wakeups[0].Some? && m <= |wakeups[0].value| then [wakeups[0].value[..m]]
      else Arrived(q, wakeups[1..], m)
    }
  }
}

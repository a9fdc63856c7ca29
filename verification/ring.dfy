/**
 * Index arithmetic of the CLI transmit ring: a fixed-capacity circular buffer
 * described by a head offset and a queued length, drained in contiguous runs.
 * Everything here is a value-level specification; the class in cli_uart.dfy
 * is proved against it.
 */
module TxRing {

  /** x % n for an x below 2 * n, written without the modulus. */
  lemma ModBelowTwice(x: nat, n: nat)
    requires 0 < n && x < 2 * n
    ensures x % n == if x < n then x else x - n
  {
    if x >= n {
      assert x - n < n;
      assert x == (x - n) + n;
    }
  }

  /**
   * The logical contents of a ring whose oldest element sits at `head` and
   * which holds `len` elements: element i lives at slot (head + i) % capacity.
   */
  function RingView<T>(buf: seq<T>, head: nat, len: nat): (s: seq<T>)
    requires head < |buf| && len <= |buf|
    ensures |s| == len
  {
    seq(len, i requires 0 <= i < len => buf[(head + i) % |buf|])
  }

  /**
   * Physically, the contents are the slots from the head to the end of the
   * buffer, followed (when they wrap) by the slots from offset 0.
   */
  lemma RingViewSlices<T>(buf: seq<T>, head: nat, len: nat)
    requires head < |buf| && len <= |buf|
    ensures head + len <= |buf| ==> RingView(buf, head, len) == buf[head..head + len]
    ensures head + len > |buf| ==> RingView(buf, head, len) == buf[head..] + buf[..head + len - |buf|]
  {
    var s := RingView(buf, head, len);
    var r := if head + len <= |buf| then buf[head..head + len] else buf[head..] + buf[..head + len - |buf|];
    forall i | 0 <= i < len
      ensures s[i] == r[i]
    {
      ModBelowTwice(head + i, |buf|);
    }
  }

  /**
   * Storing x at the slot just past the queued elements appends x to the
   * logical contents and leaves the queued elements as they were.
   */
  lemma RingViewAppend<T>(buf: seq<T>, head: nat, len: nat, x: T)
    requires head < |buf| && len < |buf|
    ensures RingView(buf[(head + len) % |buf| := x], head, len + 1) == RingView(buf, head, len) + [x]
  {
    var n := |buf|;
    var tail := (head + len) % n;
    var buf' := buf[tail := x];
    var before, after := RingView(buf, head, len), RingView(buf', head, len + 1);
    ModBelowTwice(head + len, n);
    forall i | 0 <= i < len
      ensures after[i] == before[i]
    {
      ModBelowTwice(head + i, n);
    }
  }

  /**
   * Retiring the first k elements moves the head forward by k (modulo the
   * capacity) and leaves the rest of the contents, in order.
   */
  lemma RingViewAdvance<T>(buf: seq<T>, head: nat, len: nat, k: nat)
    requires head < |buf| && len <= |buf| && k <= len
    ensures (head + k) % |buf| < |buf|
    ensures RingView(buf, (head + k) % |buf|, len - k) == RingView(buf, head, len)[k..]
  {
    var n := |buf|;
    var head' := (head + k) % n;
    ModBelowTwice(head + k, n);
    var before, after := RingView(buf, head, len), RingView(buf, head', len - k);
    forall i | 0 <= i < len - k
      ensures after[i] == before[k + i]
    {
      ModBelowTwice(head + k + i, n);
      ModBelowTwice(head' + i, n);
    }
  }

  /** A prefix that does not cross the physical end is a plain slice of the buffer. */
  lemma RingViewPrefix<T>(buf: seq<T>, head: nat, len: nat, k: nat)
    requires head < |buf| && len <= |buf| && k <= len && head + k <= |buf|
    ensures RingView(buf, head, len)[..k] == buf[head..head + k]
  {
    var s := RingView(buf, head, len);
    forall i | 0 <= i < k
      ensures s[i] == buf[head + i]
    {
      ModBelowTwice(head + i, |buf|);
    }
  }

  /**
   * How many of `requested` elements fit in a ring of `capacity` that already
   * holds `queued`: as many as fit, so fewer than requested only when the ring
   * ends up full.
   */
  function AcceptedCount(requested: nat, queued: nat, capacity: nat): (n: nat)
    requires queued <= capacity
    ensures n <= requested && queued + n <= capacity
    ensures n < requested ==> queued + n == capacity
  {
    var remaining := capacity - queued;
    if requested > remaining then remaining else requested
  }

  /**
   * Offering two spans one after the other to a ring that nothing drains in
   * between accepts the same elements as offering their concatenation once:
   * the longest prefix that fits.
   */
  lemma AcceptedConcat<T>(e1: seq<T>, e2: seq<T>, queued: nat, capacity: nat)
    requires queued <= capacity
    ensures var a1 := AcceptedCount(|e1|, queued, capacity);
            var a2 := AcceptedCount(|e2|, queued + a1, capacity);
            && AcceptedCount(|e1 + e2|, queued, capacity) == a1 + a2
            && (e1 + e2)[..a1 + a2] == e1[..a1] + e2[..a2]
  {
    var a1 := AcceptedCount(|e1|, queued, capacity);
    var a2 := AcceptedCount(|e2|, queued + a1, capacity);
    if a1 < |e1| {
      assert a2 == 0;
      assert (e1 + e2)[..a1] == e1[..a1];
    } else {
      assert e1[..a1] == e1;
      assert (e1 + e2)[..a1 + a2] == e1 + e2[..a2];
    }
  }

  /**
   * The longest run starting at `head` that does not wrap past the physical
   * end of a ring of `capacity` holding `len` elements: never empty when
   * something is queued, never crossing the end, and shorter than `len` only
   * when it stops exactly at the end.
   */
  function ContiguousRun(head: nat, len: nat, capacity: nat): (n: nat)
    requires head < capacity && len <= capacity
    ensures n <= len && head + n <= capacity
    ensures len > 0 ==> n > 0
    ensures n < len ==> head + n == capacity
  {
    if len > capacity - head then capacity - head else len
  }

  /**
   * Queued data that straddles the physical end is drained in exactly two
   * runs: the first stops at the end, the second starts at offset 0 and
   * takes everything left.
   */
  lemma StraddlingDataTakesTwoRuns(head: nat, len: nat, capacity: nat)
    requires head < capacity && len <= capacity && head + len > capacity
    ensures var first := ContiguousRun(head, len, capacity);
            && 0 < first < len
            && (head + first) % capacity == 0
            && ContiguousRun(0, len - first, capacity) == len - first
  {
    var first := ContiguousRun(head, len, capacity);
    assert head + first == capacity;
  }

  /** The concatenation of a sequence of spans, in order. */
  function Flatten<T>(spans: seq<seq<T>>): seq<T>
  {
    if spans == [] then [] else Flatten(spans[..|spans| - 1]) + spans[|spans| - 1]
  }

  /** Flattening distributes over concatenation of span lists. */
  lemma {:induction false} FlattenConcat<T>(a: seq<seq<T>>, b: seq<seq<T>>)
    ensures Flatten(a + b) == Flatten(a) + Flatten(b)
  {
    if b == [] {
      assert a + b == a;
    } else {
      var b' := b[..|b| - 1];
      assert (a + b)[..|a + b| - 1] == a + b';
      FlattenConcat(a, b');
    }
  }

  /**
   * The transmit ring's invariant, over plain values: the buffer `buf`, the
   * head offset, the queued length `len`, the length `inFlight` handed to
   * the driver, the queued elements `queue`, the spans `sent` to the driver
   * and every element `accepted` so far. The counters are in range; `queue`
   * is what the buffer holds; the span in flight is the front of the queue,
   * does not cross the physical end and is the last span sent; no span sent
   * is empty; and what was sent followed by what is queued behind the span
   * in flight is exactly what was accepted.
   */
  ghost predicate RingInvariant<T>(buf: seq<T>, head: nat, len: nat, inFlight: nat,
                                   queue: seq<T>, sent: seq<seq<T>>, accepted: seq<T>)
  {
    && head < |buf|
    && inFlight <= len <= |buf|
    && queue == RingView(buf, head, len)
    && (inFlight > 0 ==> head + inFlight <= |buf| && |sent| > 0 && sent[|sent| - 1] == queue[..inFlight])
    && (forall k | 0 <= k < |sent| :: |sent[k]| > 0)
    && Flatten(sent) + queue[inFlight..] == accepted
  }

  /** Storing one more element behind the queue keeps the invariant. */
  lemma AppendKeepsInvariant<T>(buf: seq<T>, head: nat, len: nat, inFlight: nat,
                                queue: seq<T>, sent: seq<seq<T>>, accepted: seq<T>, x: T)
    requires RingInvariant(buf, head, len, inFlight, queue, sent, accepted)
    requires len < |buf|
    ensures (head + len) % |buf| < |buf|
    ensures RingInvariant(buf[(head + len) % |buf| := x], head, len + 1, inFlight,
                          queue + [x], sent, accepted + [x])
  {
    ModBelowTwice(head + len, |buf|);
    RingViewAppend(buf, head, len, x);
    assert (queue + [x])[inFlight..] == queue[inFlight..] + [x];
    assert (queue + [x])[..inFlight] == queue[..inFlight];
  }

  /**
   * Starting a send when none is in flight keeps the invariant: the longest
   * contiguous run at the head, when it is not empty, becomes the span in
   * flight and is appended to the spans sent.
   */
  lemma StartSendKeepsInvariant<T>(buf: seq<T>, head: nat, len: nat, n: nat,
                                   queue: seq<T>, sent: seq<seq<T>>, accepted: seq<T>)
    requires RingInvariant(buf, head, len, 0, queue, sent, accepted)
    requires n == ContiguousRun(head, len, |buf|) && n > 0
    ensures RingInvariant(buf, head, len, n, queue, sent + [buf[head..head + n]], accepted)
  {
    var span := buf[head..head + n];
    RingViewPrefix(buf, head, len, n);
    assert queue == span + queue[n..];
    assert (sent + [span])[..|sent|] == sent;
  }

  /**
   * Retiring the span in flight keeps the invariant with nothing in flight:
   * the head moves past it and the queue loses it from the front.
   */
  lemma RetireKeepsInvariant<T>(buf: seq<T>, head: nat, len: nat, inFlight: nat,
                                queue: seq<T>, sent: seq<seq<T>>, accepted: seq<T>)
    requires RingInvariant(buf, head, len, inFlight, queue, sent, accepted)
    ensures (head + inFlight) % |buf| < |buf|
    ensures RingInvariant(buf, (head + inFlight) % |buf|, len - inFlight, 0,
                          queue[inFlight..], sent, accepted)
  {
    RingViewAdvance(buf, head, len, inFlight);
  }
}

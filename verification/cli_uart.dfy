/**
 * The CLI server on the UART: one object owning the receive line buffer and
 * the transmit ring. The driver's send primitive is modelled by the ghost log
 * `sent` of spans handed to it, the interpreter by the ghost log `lines` of
 * command lines handed to it, and `accepted` records every byte Output took
 * into the ring, so that delivery can be stated against it.
 */
module CliUart {
  import opened TxRing
  import opened LineEditing

  /**
   * What the receive path can change: the pending line, the lines handed to
   * the interpreter, the bytes accepted into the transmit ring, and how many
   * bytes the ring holds.
   */
  datatype RxState = RxState(line: seq<Byte>, lines: seq<seq<Byte>>, accepted: seq<Byte>, queued: nat)

  /**
   * Receiving `input` takes `from` to `to`, for a line buffer of `rxCapacity`
   * and a ring of `txCapacity` that nothing drains meanwhile: the pending line
   * and the lines handed over are those Feed prescribes, and the ring takes
   * the longest prefix of Feed's echo that fits.
   */
  ghost predicate Received(from: RxState, input: seq<Byte>, rxCapacity: nat, txCapacity: nat, to: RxState)
  {
    && from.queued <= txCapacity
    && var f := Feed(from.line, input, rxCapacity);
       var n := AcceptedCount(|f.echo|, from.queued, txCapacity);
       && to.line == f.line
       && to.lines == from.lines + f.dispatched
       && to.accepted == from.accepted + f.echo[..n]
       && to.queued == from.queued + n
  }

  /** Receiving one byte is one Step. */
  lemma ReceivedOne(from: RxState, b: Byte, rxCapacity: nat, txCapacity: nat, to: RxState)
    requires from.queued <= txCapacity
    ensures var s := Step(Assembly(from.line, [], []), b, rxCapacity);
            var n := AcceptedCount(|s.echo|, from.queued, txCapacity);
            Received(from, [b], rxCapacity, txCapacity, to) <==>
              && to.line == s.line
              && to.lines == from.lines + s.dispatched
              && to.accepted == from.accepted + s.echo[..n]
              && to.queued == from.queued + n
  {
    FeedLast(from.line, [], b, rxCapacity);
    assert [] + [b] == [b];
  }

  /**
   * A terminator empties the line, hands over the stripped line if there was
   * one, and echoes a line break and a prompt, as far as they fit.
   */
  lemma ReceivedTerminator(from: RxState, b: Byte, rxCapacity: nat, txCapacity: nat, to: RxState)
    requires IsTerminator(b) && from.queued <= txCapacity
    requires to.line == []
    requires to.lines == from.lines + (if |from.line| > 0 then [StripTerminator(from.line)] else [])
    requires var n := AcceptedCount(|CRNL + COMMAND_PROMPT|, from.queued, txCapacity);
             to.accepted == from.accepted + (CRNL + COMMAND_PROMPT)[..n] && to.queued == from.queued + n
    ensures Received(from, [b], rxCapacity, txCapacity, to)
  {
    ReceivedOne(from, b, rxCapacity, txCapacity, to);
    assert [] + CRNL + COMMAND_PROMPT == CRNL + COMMAND_PROMPT;
  }

  /**
   * An erase byte drops the last pending byte and echoes the erase sequence,
   * as far as it fits; on an empty line it changes nothing.
   */
  lemma ReceivedErase(from: RxState, b: Byte, rxCapacity: nat, txCapacity: nat, to: RxState)
    requires IsErase(b) && from.queued <= txCapacity
    requires to.lines == from.lines
    requires |from.line| == 0 ==> to == from
    requires |from.line| > 0 ==>
               var n := AcceptedCount(|ERASE_STRING|, from.queued, txCapacity);
               && to.line == from.line[..|from.line| - 1]
               && to.accepted == from.accepted + ERASE_STRING[..n] && to.queued == from.queued + n
    ensures Received(from, [b], rxCapacity, txCapacity, to)
  {
    ReceivedOne(from, b, rxCapacity, txCapacity, to);
    assert [] + ERASE_STRING == ERASE_STRING;
    assert from.lines + [] == from.lines && from.accepted + [] == from.accepted;
  }

  /**
   * Any other byte is stored and echoed, as far as the echo fits, while the
   * line has room for it and its NUL; otherwise nothing changes.
   */
  lemma ReceivedOrdinary(from: RxState, b: Byte, rxCapacity: nat, txCapacity: nat, to: RxState)
    requires !IsTerminator(b) && !IsErase(b) && from.queued <= txCapacity
    requires to.lines == from.lines
    requires |from.line| + 1 >= rxCapacity ==> to == from
    requires |from.line| + 1 < rxCapacity ==>
               var n := AcceptedCount(1, from.queued, txCapacity);
               && to.line == from.line + [b]
               && to.accepted == from.accepted + [b][..n] && to.queued == from.queued + n
    ensures Received(from, [b], rxCapacity, txCapacity, to)
  {
    ReceivedOne(from, b, rxCapacity, txCapacity, to);
    assert [] + [b] == [b];
    assert from.lines + [] == from.lines && from.accepted + [] == from.accepted;
  }

  /**
   * Two truncated appends to a ring nothing drains in between append the
   * truncation of the concatenation.
   */
  lemma TruncatedAppends(acc0: seq<Byte>, e1: seq<Byte>, e2: seq<Byte>, q0: nat, capacity: nat,
                         acc1: seq<Byte>, acc2: seq<Byte>)
    requires q0 <= capacity
    requires acc1 == acc0 + e1[..AcceptedCount(|e1|, q0, capacity)]
    requires acc2 == acc1 + e2[..AcceptedCount(|e2|, q0 + AcceptedCount(|e1|, q0, capacity), capacity)]
    ensures acc2 == acc0 + (e1 + e2)[..AcceptedCount(|e1 + e2|, q0, capacity)]
  {
    AcceptedConcat(e1, e2, q0, capacity);
  }

  /**
   * Receiving is compositional: input delivered in two calls has the effect
   * of the same input delivered in one, echo truncation included.
   */
  lemma ReceivedConcat(s0: RxState, a: seq<Byte>, s1: RxState, b: seq<Byte>, s2: RxState,
                       rxCapacity: nat, txCapacity: nat)
    requires Received(s0, a, rxCapacity, txCapacity, s1)
    requires Received(s1, b, rxCapacity, txCapacity, s2)
    ensures Received(s0, a + b, rxCapacity, txCapacity, s2)
  {
    var f := Feed(s0.line, a, rxCapacity);
    var g := Feed(s1.line, b, rxCapacity);
    FeedChunking(s0.line, a, b, rxCapacity);
    AcceptedConcat(f.echo, g.echo, s0.queued, txCapacity);
    TruncatedAppends(s0.accepted, f.echo, g.echo, s0.queued, txCapacity, s1.accepted, s2.accepted);
    assert s2.lines == s0.lines + (f.dispatched + g.dispatched);
  }

  /**
   * The driver log across a call in which no send completes: a send already
   * in flight stays the only one, and otherwise at most one span is handed
   * over, which is then in flight.
   */
  ghost predicate AtMostOneSendStarted(before: seq<seq<Byte>>, inFlightBefore: nat,
                                       after: seq<seq<Byte>>, inFlightAfter: nat)
  {
    if inFlightBefore != 0 then after == before && inFlightAfter == inFlightBefore
    else after == before || (inFlightAfter != 0 && |after| == |before| + 1 && after[..|before|] == before)
  }

  /** Two calls that each start at most one send start at most one together. */
  lemma AtMostOneSendStartedThen(s0: seq<seq<Byte>>, f0: nat, s1: seq<seq<Byte>>, f1: nat,
                                 s2: seq<seq<Byte>>, f2: nat)
    requires AtMostOneSendStarted(s0, f0, s1, f1)
    requires AtMostOneSendStarted(s1, f1, s2, f2)
    ensures AtMostOneSendStarted(s0, f0, s2, f2)
  {
  }

  /**
   * The queue grew by exactly the bytes appended to the log of accepted
   * bytes: nothing left the queue and nothing else joined it.
   */
  ghost predicate GrewWithAccepted(queue0: seq<Byte>, accepted0: seq<Byte>, queue1: seq<Byte>, accepted1: seq<Byte>)
  {
    && |accepted0| <= |accepted1|
    && accepted1[..|accepted0|] == accepted0
    && queue1 == queue0 + accepted1[|accepted0|..]
  }

  /** Growing with the accepted log is transitive. */
  lemma GrewWithAcceptedThen(q0: seq<Byte>, a0: seq<Byte>, q1: seq<Byte>, a1: seq<Byte>, q2: seq<Byte>, a2: seq<Byte>)
    requires GrewWithAccepted(q0, a0, q1, a1) && GrewWithAccepted(q1, a1, q2, a2)
    ensures GrewWithAccepted(q0, a0, q2, a2)
  {
    assert a2[..|a0|] == a2[..|a1|][..|a0|];
    assert a2[|a0|..] == a1[|a0|..] + a2[|a1|..];
  }

  class Uart {
    /** The transmit ring, kTxBufferSize bytes. */
    const txBuffer: array<Byte>
    /** The pending command line, with room for its terminating NUL. */
    const rxBuffer: array<Byte>

    var rxLength: nat
    /** Offset of the oldest queued byte. */
    var txHead: nat
    /** Bytes queued, in flight or not yet sent. */
    var txLength: nat
    /** Bytes handed to the driver and not yet confirmed; 0 when idle. */
    var sendLength: nat

    /** Every span handed to the driver, in order. */
    ghost var sent: seq<seq<Byte>>
    /** Every line handed to the interpreter, in order. */
    ghost var lines: seq<seq<Byte>>
    /** Every byte Output accepted into the ring, in order. */
    ghost var accepted: seq<Byte>

    /** The queued bytes, oldest first: in flight, then not yet sent. */
    ghost var queue: seq<Byte>

    /**
     * The ring's invariant, RingInvariant, over the buffer's contents, for a
     * capacity that fits the source's 16-bit counters.
     */
    ghost predicate RingValid()
      reads this`txHead, this`txLength, this`sendLength, this`queue, this`sent, this`accepted, txBuffer
    {
      && 0 < txBuffer.Length < 0x1_0000
      && RingInvariant(txBuffer[..], txHead, txLength, sendLength, queue, sent, accepted)
    }

    /**
     * Between calls, additionally: an idle ring is empty, and the pending
     * line fits with its NUL and holds no terminator.
     */
    ghost predicate Valid()
      reads this, txBuffer, rxBuffer
    {
      && txBuffer != rxBuffer
      && RingValid()
      && (sendLength == 0 ==> txLength == 0)
      && rxLength < rxBuffer.Length
      && NoTerminator(rxBuffer[..rxLength])
    }

    constructor (txCapacity: nat, rxCapacity: nat)
      requires 0 < txCapacity < 0x1_0000 && 0 < rxCapacity
      ensures Valid() && fresh(txBuffer) && fresh(rxBuffer)
      ensures txBuffer.Length == txCapacity && rxBuffer.Length == rxCapacity
      ensures rxLength == 0 && txHead == 0 && txLength == 0 && sendLength == 0
      ensures sent == [] && lines == [] && accepted == [] && queue == []
    {
      txBuffer := new Byte[txCapacity];
      rxBuffer := new Byte[rxCapacity];
      rxLength := 0;
      txHead := 0;
      txLength := 0;
      sendLength := 0;
      sent, lines, accepted, queue := [], [], [], [];
    }

    /** The part of the state the receive path works on. */
    ghost function RxSnapshot(): RxState
      reads this, rxBuffer
      requires rxLength <= rxBuffer.Length
    {
      RxState(rxBuffer[..rxLength], lines, accepted, txLength)
    }

    /**
     * Processes incoming bytes in order. Within one call nothing completes a
     * send, so the echo that reaches the ring is the longest prefix of the
     * echo stream that fits.
     */
    method ReceiveTask(buf: seq<Byte>)
      requires Valid() && |buf| < 0x1_0000
      modifies this`rxLength, this`lines, this`txLength, this`queue, this`accepted, this`sendLength, this`sent,
               txBuffer, rxBuffer
      ensures Valid() && txHead == old(txHead)
      ensures Received(old(RxSnapshot()), buf, rxBuffer.Length, txBuffer.Length, RxSnapshot())
      ensures AtMostOneSendStarted(old(sent), old(sendLength), sent, sendLength)
      ensures GrewWithAccepted(old(queue), old(accepted), queue, accepted)
    {
      ghost var start := RxSnapshot();
      assert Received(start, [], rxBuffer.Length, txBuffer.Length, start) by {
        assert start.lines + [] == start.lines && start.accepted + [] == start.accepted;
      }
      var i := 0;
      while i < |buf|
        invariant i <= |buf|
        invariant Valid() && txHead == old(txHead)
        invariant Received(start, buf[..i], rxBuffer.Length, txBuffer.Length, RxSnapshot())
        invariant AtMostOneSendStarted(old(sent), old(sendLength), sent, sendLength)
        invariant GrewWithAccepted(old(queue), old(accepted), queue, accepted)
      {
        ghost var done := buf[..i];
        assert buf[..i + 1] == done + [buf[i]];
        ghost var mid := RxSnapshot();
        ghost var midSent, midInFlight, midQueue := sent, sendLength, queue;
        ReceiveByte(buf[i]);
        ReceivedConcat(start, done, mid, [buf[i]], RxSnapshot(), rxBuffer.Length, txBuffer.Length);
        AtMostOneSendStartedThen(old(sent), old(sendLength), midSent, midInFlight, sent, sendLength);
        GrewWithAcceptedThen(old(queue), old(accepted), midQueue, mid.accepted, queue, accepted);
        i := i + 1;
      }
      assert buf[..i] == buf;
    }

    /** One incoming byte: the switch in the receive loop. */
    method ReceiveByte(b: Byte)
      requires Valid()
      modifies this`rxLength, this`lines, this`txLength, this`queue, this`accepted, this`sendLength, this`sent,
               txBuffer, rxBuffer
      ensures Valid() && txHead == old(txHead)
      ensures Received(old(RxSnapshot()), [b], rxBuffer.Length, txBuffer.Length, RxSnapshot())
      ensures AtMostOneSendStarted(old(sent), old(sendLength), sent, sendLength)
      ensures GrewWithAccepted(old(queue), old(accepted), queue, accepted)
    {
      ghost var before := RxSnapshot();
      if b == CR || b == LF {
        ReceiveTerminator();
        ReceivedTerminator(before, b, rxBuffer.Length, txBuffer.Length, RxSnapshot());
      } else if b == BS || b == DEL {
        ReceiveErase();
        ReceivedErase(before, b, rxBuffer.Length, txBuffer.Length, RxSnapshot());
      } else {
        ReceiveOrdinary(b);
        ReceivedOrdinary(before, b, rxBuffer.Length, txBuffer.Length, RxSnapshot());
      }
    }

    /**
     * A CR or LF: echoes a line break, hands a non-empty pending line, with
     * any terminator stripped, to the interpreter, empties it, and echoes a
     * new prompt; the ring takes what fits of the two.
     */
    method ReceiveTerminator()
      requires Valid()
      modifies this`rxLength, this`lines, this`txLength, this`queue, this`accepted, this`sendLength, this`sent,
               txBuffer, rxBuffer
      ensures Valid() && rxLength == 0
      ensures lines == old(lines) + (if old(rxLength) > 0 then [StripTerminator(old(rxBuffer[..rxLength]))] else [])
      ensures var echoed := AcceptedCount(|CRNL + COMMAND_PROMPT|, old(txLength), txBuffer.Length);
              && accepted == old(accepted) + (CRNL + COMMAND_PROMPT)[..echoed]
              && txLength == old(txLength) + echoed
      ensures AtMostOneSendStarted(old(sent), old(sendLength), sent, sendLength)
      ensures GrewWithAccepted(old(queue), old(accepted), queue, accepted)
    {
      var n := Output(CRNL);
      ghost var sent1, inFlight1, queue1, accepted1 := sent, sendLength, queue, accepted;
      CompleteLine();
      var m := Output(COMMAND_PROMPT);
      TruncatedAppends(old(accepted), CRNL, COMMAND_PROMPT, old(txLength), txBuffer.Length, accepted1, accepted);
      AtMostOneSendStartedThen(old(sent), old(sendLength), sent1, inFlight1, sent, sendLength);
      GrewWithAcceptedThen(old(queue), old(accepted), queue1, accepted1, queue, accepted);
    }

    /** A non-empty pending line is NUL-terminated and handed over; the line is then empty. */
    method CompleteLine()
      requires Valid()
      modifies this`rxLength, this`lines, rxBuffer
      ensures Valid() && rxLength == 0
      ensures lines == old(lines) + (if old(rxLength) > 0 then [StripTerminator(old(rxBuffer[..rxLength]))] else [])
      ensures old(rxLength) > 0 ==> rxBuffer[old(rxLength)] == 0
    {
      if rxLength > 0 {
        rxBuffer[rxLength] := 0;
        ProcessCommand();
      }
    }

    /**
     * BS or DEL: drops the last pending byte and erases it on the terminal;
     * does nothing when the line is empty.
     */
    method ReceiveErase()
      requires Valid()
      modifies this`rxLength, this`lines, this`txLength, this`queue, this`accepted, this`sendLength, this`sent,
               txBuffer, rxBuffer
      ensures Valid() && lines == old(lines)
      ensures old(rxLength) == 0 ==> rxLength == 0 && accepted == old(accepted) && txLength == old(txLength)
      ensures old(rxLength) > 0 ==>
                var echoed := AcceptedCount(|ERASE_STRING|, old(txLength), txBuffer.Length);
                && rxLength == old(rxLength) - 1
                && rxBuffer[..rxLength] == old(rxBuffer[..rxLength - 1])
                && accepted == old(accepted) + ERASE_STRING[..echoed]
                && txLength == old(txLength) + echoed
      ensures AtMostOneSendStarted(old(sent), old(sendLength), sent, sendLength)
      ensures GrewWithAccepted(old(queue), old(accepted), queue, accepted)
    {
      if rxLength > 0 {
        var n := Output(ERASE_STRING);
        rxLength := rxLength - 1;
        rxBuffer[rxLength] := 0;
      }
    }

    /**
     * Any other byte: echoed and appended to the pending line while there is
     * room for it and for the NUL written on completion; dropped, without
     * echo, otherwise.
     */
    method ReceiveOrdinary(b: Byte)
      requires Valid() && !IsTerminator(b) && !IsErase(b)
      modifies this`rxLength, this`lines, this`txLength, this`queue, this`accepted, this`sendLength, this`sent,
               txBuffer, rxBuffer
      ensures Valid() && lines == old(lines)
      ensures old(rxLength) + 1 >= rxBuffer.Length ==>
                && rxLength == old(rxLength) && rxBuffer[..rxLength] == old(rxBuffer[..rxLength])
                && accepted == old(accepted) && txLength == old(txLength)
      ensures old(rxLength) + 1 < rxBuffer.Length ==>
                var echoed := AcceptedCount(1, old(txLength), txBuffer.Length);
                && rxLength == old(rxLength) + 1
                && rxBuffer[..rxLength] == old(rxBuffer[..rxLength]) + [b]
                && accepted == old(accepted) + [b][..echoed]
                && txLength == old(txLength) + echoed
      ensures AtMostOneSendStarted(old(sent), old(sendLength), sent, sendLength)
      ensures GrewWithAccepted(old(queue), old(accepted), queue, accepted)
    {
      // The source stores unconditionally; this guard keeps the store and
      // the NUL written on completion inside the buffer.
      if rxLength + 1 < rxBuffer.Length {
        ghost var line := rxBuffer[..rxLength];
        var n := Output([b]);
        rxBuffer[rxLength] := b;
        rxLength := rxLength + 1;
        assert rxBuffer[..rxLength] == line + [b];
      }
    }

    /**
     * Strips at most one trailing LF and then one trailing CR, hands the
     * line to the interpreter and empties it.
     */
    method ProcessCommand()
      requires 0 < rxLength < rxBuffer.Length
      modifies this`rxLength, this`lines, rxBuffer
      ensures rxLength == 0
      ensures lines == old(lines) + [StripTerminator(old(rxBuffer[..rxLength]))]
      ensures var kept := |StripTerminator(old(rxBuffer[..rxLength]))|;
              forall i | 0 <= i < rxBuffer.Length ::
                rxBuffer[i] == if kept <= i < old(rxLength) then 0 else old(rxBuffer[i])
    {
      ghost var line := rxBuffer[..rxLength];
      if rxBuffer[rxLength - 1] == LF {
        rxLength := rxLength - 1;
        rxBuffer[rxLength] := 0;
      }
      assert rxBuffer[..rxLength] == DropTrailing(line, LF);
      ghost var noLF := rxBuffer[..rxLength];
      // The source reads index rxLength - 1 here even when the first strip
      // emptied the line.
      if rxLength > 0 && rxBuffer[rxLength - 1] == CR {
        rxLength := rxLength - 1;
        rxBuffer[rxLength] := 0;
      }
      assert rxBuffer[..rxLength] == DropTrailing(noLF, CR);
      lines := lines + [rxBuffer[..rxLength]];
      rxLength := 0;
    }

    /**
     * Queues as many bytes of `buf` as fit behind the queued ones, then pumps
     * the driver. Returns how many bytes were queued.
     */
    method Output(buf: seq<Byte>) returns (n: nat)
      requires Valid() && |buf| < 0x1_0000
      modifies this`txLength, this`queue, this`accepted, this`sendLength, this`sent, txBuffer
      ensures Valid()
      ensures n == AcceptedCount(|buf|, old(txLength), txBuffer.Length)
      ensures txHead == old(txHead) && txLength == old(txLength) + n
      ensures queue == old(queue) + buf[..n]
      ensures accepted == old(accepted) + buf[..n]
      ensures GrewWithAccepted(old(queue), old(accepted), queue, accepted)
      ensures old(sendLength) != 0 ==> sendLength == old(sendLength) && sent == old(sent)
      ensures old(sendLength) == 0 ==>
                && sendLength == ContiguousRun(txHead, txLength, txBuffer.Length)
                && sent == old(sent) + (if sendLength > 0 then [queue[..sendLength]] else [])
    {
      var count := |buf|;
      var remaining := txBuffer.Length - txLength;
      if count > remaining {
        count := remaining;
      }
      Enqueue(buf[..count]);
      Send();
      n := count;
    }

    /** The copy loop of Output: stores `bytes` behind the queued ones. */
    method Enqueue(bytes: seq<Byte>)
      requires RingValid() && txLength + |bytes| <= txBuffer.Length
      modifies this`txLength, this`queue, this`accepted, txBuffer
      ensures RingValid()
      ensures txLength == old(txLength) + |bytes|
      ensures queue == old(queue) + bytes && accepted == old(accepted) + bytes
    {
      var i := 0;
      while i < |bytes|
        invariant i <= |bytes|
        invariant txLength == old(txLength) + i
        invariant queue == old(queue) + bytes[..i] && accepted == old(accepted) + bytes[..i]
        invariant RingValid()
      {
        ghost var contents := txBuffer[..];
        AppendKeepsInvariant(contents, txHead, txLength, sendLength, queue, sent, accepted, bytes[i]);
        var tail := (txHead + txLength) % txBuffer.Length;
        txBuffer[tail] := bytes[i];
        assert txBuffer[..] == contents[tail := bytes[i]];
        txLength := txLength + 1;
        queue, accepted := queue + [bytes[i]], accepted + [bytes[i]];
        assert bytes[..i + 1] == bytes[..i] + [bytes[i]];
        i := i + 1;
      }
      assert bytes[..i] == bytes;
    }

    /**
     * Starts a send of the longest contiguous run at the head unless one is
     * already in flight; never hands the driver an empty span.
     */
    method Send()
      requires RingValid()
      modifies this`sendLength, this`sent
      ensures RingValid() && (sendLength == 0 ==> txLength == 0)
      ensures old(sendLength) != 0 ==> sendLength == old(sendLength) && sent == old(sent)
      ensures old(sendLength) == 0 ==>
                && sendLength == ContiguousRun(txHead, txLength, txBuffer.Length)
                && sent == old(sent) + (if sendLength > 0 then [txBuffer[txHead..txHead + sendLength]] else [])
    {
      if sendLength != 0 {
        return;
      }
      var run := txLength;
      if txLength > txBuffer.Length - txHead {
        run := txBuffer.Length - txHead;
      }
      if run > 0 {
        StartSendKeepsInvariant(txBuffer[..], txHead, txLength, run, queue, sent, accepted);
        // otPlatUartSend
        sent := sent + [txBuffer[txHead..txHead + run]];
      }
      sendLength := run;
    }

    /**
     * The driver's completion: retires the span in flight and pumps again.
     * A completion with nothing in flight changes nothing.
     */
    method SendDoneTask()
      requires Valid()
      modifies this`txHead, this`txLength, this`queue, this`sendLength, this`sent
      ensures Valid()
      ensures txHead == (old(txHead) + old(sendLength)) % txBuffer.Length
      ensures txLength == old(txLength) - old(sendLength)
      ensures queue == old(queue)[old(sendLength)..]
      ensures sendLength == ContiguousRun(txHead, txLength, txBuffer.Length)
      ensures sent == old(sent) + (if sendLength > 0 then [txBuffer[txHead..txHead + sendLength]] else [])
      ensures old(sendLength) == 0 ==> txHead == old(txHead) && txLength == old(txLength) && sent == old(sent)
    {
      RetireKeepsInvariant(txBuffer[..], txHead, txLength, sendLength, queue, sent, accepted);
      ModBelowTwice(txHead + sendLength, txBuffer.Length);
      txHead := (txHead + sendLength) % txBuffer.Length;
      txLength := txLength - sendLength;
      queue := queue[sendLength..];
      sendLength := 0;
      Send();
    }

    /**
     * The driver completing every send it is given until the ring is empty:
     * every accepted byte has then been handed over once, in order.
     */
    method Drain()
      requires Valid()
      modifies this`txHead, this`txLength, this`queue, this`sendLength, this`sent
      ensures Valid() && txLength == 0 && sendLength == 0 && queue == []
      ensures Flatten(sent) == accepted
      ensures Flatten(sent) == Flatten(old(sent)) + old(queue)[old(sendLength)..]
      ensures |old(sent)| <= |sent| && sent[..|old(sent)|] == old(sent)
    {
      while sendLength > 0
        invariant Valid()
        invariant |old(sent)| <= |sent| && sent[..|old(sent)|] == old(sent)
        decreases txLength
      {
        SendDoneTask();
      }
    }
  }
}

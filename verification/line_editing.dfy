/**
 * The line-editing rules of the CLI receive path, as a value-level
 * specification: what a run of incoming bytes does to the pending line, which
 * lines it hands to the interpreter and which bytes it echoes. The class in
 * cli_uart.dfy is proved against Feed.
 */
module LineEditing {

  /** An octet on the serial link. */
  newtype Byte = b: int | 0 <= b < 256

  const BS: Byte := 8
  const LF: Byte := 10
  const CR: Byte := 13
  const SPACE: Byte := 32
  const DEL: Byte := 127

  /** Echoed when a line is completed. */
  const CRNL: seq<Byte> := [CR, LF]
  /** Echoed after every completed (or empty) line: "> ". */
  const COMMAND_PROMPT: seq<Byte> := [62, SPACE]
  /** Echoed when one character is erased: back, blank it, back again. */
  const ERASE_STRING: seq<Byte> := [BS, SPACE, BS]

  predicate IsTerminator(b: Byte) { b == CR || b == LF }

  predicate IsErase(b: Byte) { b == BS || b == DEL }

  predicate NoTerminator(line: seq<Byte>)
  {
    forall i | 0 <= i < |line| :: !IsTerminator(line[i])
  }

  /** `line` without its last byte when that byte is `x`. */
  function DropTrailing(line: seq<Byte>, x: Byte): seq<Byte>
  {
    if |line| > 0 && line[|line| - 1] == x then line[..|line| - 1] else line
  }

  /**
   * The length of the terminator that ends `line`: 2 for CR LF, 1 for any
   * other trailing CR or LF, 0 when the line does not end in one.
   */
  function TrailingTerminatorLength(line: seq<Byte>): nat
  {
    if |line| >= 2 && line[|line| - 2] == CR && line[|line| - 1] == LF then 2
    else if |line| >= 1 && IsTerminator(line[|line| - 1]) then 1
    else 0
  }

  /**
   * The defensive strip done before a line is handed over: at most one
   * trailing LF, then at most one trailing CR. Exactly the trailing
   * terminator goes, and a line without terminators passes unchanged.
   */
  function StripTerminator(line: seq<Byte>): (r: seq<Byte>)
    ensures |r| == |line| - TrailingTerminatorLength(line) && r == line[..|r|]
    ensures NoTerminator(line) ==> r == line
  {
    DropTrailing(DropTrailing(line, LF), CR)
  }

  /**
   * What the receive path has produced so far: the pending (not yet
   * completed) line, the lines handed to the interpreter, and the bytes
   * echoed back to the terminal.
   */
  datatype Assembly = Assembly(line: seq<Byte>, dispatched: seq<seq<Byte>>, echo: seq<Byte>)

  /**
   * One incoming byte, for a line buffer of `capacity` bytes. A terminator
   * completes the line; an erase byte removes the last character; any other
   * byte is echoed and stored while there is room for it and for the NUL
   * that completion writes after it, and is dropped without echo otherwise.
   */
  function Step(s: Assembly, b: Byte, capacity: nat): (r: Assembly)
    ensures |s.line| < capacity ==> |r.line| < capacity
    ensures |r.dispatched| == |s.dispatched| + (if IsTerminator(b) && |s.line| > 0 then 1 else 0)
  {
    if IsTerminator(b) then
      var handed := if |s.line| > 0 then [StripTerminator(s.line)] else [];
      Assembly([], s.dispatched + handed, s.echo + CRNL + COMMAND_PROMPT)
    else if IsErase(b) then
      if |s.line| > 0 then Assembly(s.line[..|s.line| - 1], s.dispatched, s.echo + ERASE_STRING)
      else s
    else if |s.line| + 1 < capacity then
      Assembly(s.line + [b], s.dispatched, s.echo + [b])
    else
      s
  }

  /** The bytes of `input`, in order, applied to the pending `line`. */
  function Feed(line: seq<Byte>, input: seq<Byte>, capacity: nat): (r: Assembly)
    ensures |r.dispatched| <= |input|
    decreases |input|
  {
    if input == [] then Assembly(line, [], [])
    else Step(Feed(line, input[..|input| - 1], capacity), input[|input| - 1], capacity)
  }

  lemma FeedLast(line: seq<Byte>, input: seq<Byte>, b: Byte, capacity: nat)
    ensures Feed(line, input + [b], capacity) == Step(Feed(line, input, capacity), b, capacity)
  {
    assert (input + [b])[..|input|] == input;
  }

  /** With the guard, the pending line never outgrows its buffer. */
  lemma {:induction false} FeedStaysInBounds(line: seq<Byte>, input: seq<Byte>, capacity: nat)
    requires |line| < capacity
    ensures |Feed(line, input, capacity).line| < capacity
    decreases |input|
  {
    if input != [] {
      FeedStaysInBounds(line, input[..|input| - 1], capacity);
    }
  }

  /**
   * No terminator ever reaches the pending line, and every line handed to
   * the interpreter is non-empty and free of terminators.
   */
  lemma {:induction false} FeedKeepsTerminatorsOut(line: seq<Byte>, input: seq<Byte>, capacity: nat)
    requires NoTerminator(line)
    ensures var f := Feed(line, input, capacity);
            && NoTerminator(f.line)
            && forall k | 0 <= k < |f.dispatched| :: |f.dispatched[k]| > 0 && NoTerminator(f.dispatched[k])
    decreases |input|
  {
    if input != [] {
      FeedKeepsTerminatorsOut(line, input[..|input| - 1], capacity);
    }
  }

  /**
   * A CR or LF echoes CRNL and the prompt, hands the pending line over
   * exactly when it is non-empty (unchanged by the strip), and empties it.
   */
  lemma TerminatorDispatchesLine(line: seq<Byte>, input: seq<Byte>, b: Byte, capacity: nat)
    requires NoTerminator(line) && IsTerminator(b)
    ensures var f, g := Feed(line, input, capacity), Feed(line, input + [b], capacity);
            && g.line == []
            && g.echo == f.echo + CRNL + COMMAND_PROMPT
            && (|g.dispatched| == |f.dispatched| + 1 <==> |f.line| > 0)
            && g.dispatched == f.dispatched + (if |f.line| > 0 then [f.line] else [])
  {
    FeedLast(line, input, b, capacity);
    FeedKeepsTerminatorsOut(line, input, capacity);
  }

  /**
   * A backspace or DEL on an empty line changes nothing and echoes nothing;
   * otherwise it removes exactly the last byte and echoes the erase string.
   */
  lemma EraseRemovesLastByte(line: seq<Byte>, input: seq<Byte>, b: Byte, capacity: nat)
    requires IsErase(b)
    ensures var f, g := Feed(line, input, capacity), Feed(line, input + [b], capacity);
            && (f.line == [] ==> g == f)
            && (f.line != [] ==> g.line + [f.line[|f.line| - 1]] == f.line
                                 && g.echo == f.echo + ERASE_STRING
                                 && g.dispatched == f.dispatched)
  {
    FeedLast(line, input, b, capacity);
    var f := Feed(line, input, capacity);
    if f.line != [] {
      var kept := f.line[..|f.line| - 1];
      assert Step(f, b, capacity) == Assembly(kept, f.dispatched, f.echo + ERASE_STRING);
      assert kept + [f.line[|f.line| - 1]] == f.line;
    } else {
      assert Step(f, b, capacity) == f;
    }
  }

  /**
   * Any other byte is echoed and appended when the line has room for it,
   * and otherwise leaves everything unchanged.
   */
  lemma OrdinaryByteEchoedAndStored(line: seq<Byte>, input: seq<Byte>, b: Byte, capacity: nat)
    requires !IsTerminator(b) && !IsErase(b)
    ensures var f, g := Feed(line, input, capacity), Feed(line, input + [b], capacity);
            && (|f.line| + 1 < capacity ==> g == Assembly(f.line + [b], f.dispatched, f.echo + [b]))
            && (|f.line| + 1 >= capacity ==> g == f)
  {
    FeedLast(line, input, b, capacity);
  }

  /** Erasing right after typing a byte restores the line. */
  lemma EraseUndoesAppend(line: seq<Byte>, b: Byte, e: Byte, capacity: nat)
    requires !IsTerminator(b) && !IsErase(b) && IsErase(e) && |line| + 1 < capacity
    ensures Feed(line, [b, e], capacity) == Assembly(line, [], [b] + ERASE_STRING)
  {
    FeedLast(line, [b], e, capacity);
    FeedLast(line, [], b, capacity);
    assert (line + [b])[..|line|] == line;
  }

  /** The output of `first` followed by that of `second`, which ran after it. */
  function Then(first: Assembly, second: Assembly): Assembly
  {
    Assembly(second.line, first.dispatched + second.dispatched, first.echo + second.echo)
  }

  lemma StepThen(first: Assembly, second: Assembly, b: Byte, capacity: nat)
    ensures Step(Then(first, second), b, capacity) == Then(first, Step(second, b, capacity))
  {
    var handed := if |second.line| > 0 then [StripTerminator(second.line)] else [];
    assert first.dispatched + second.dispatched + handed == first.dispatched + (second.dispatched + handed);
    assert first.echo + second.echo + CRNL + COMMAND_PROMPT == first.echo + (second.echo + CRNL + COMMAND_PROMPT);
    assert first.echo + second.echo + ERASE_STRING == first.echo + (second.echo + ERASE_STRING);
  }

  /**
   * The receive path has no framing: bytes delivered in two chunks have the
   * same effect as the same bytes delivered at once.
   */
  lemma {:induction false} FeedChunking(line: seq<Byte>, a: seq<Byte>, b: seq<Byte>, capacity: nat)
    ensures var f := Feed(line, a, capacity);
            Feed(line, a + b, capacity) == Then(f, Feed(f.line, b, capacity))
    decreases |b|
  {
    var f := Feed(line, a, capacity);
    if b == [] {
      assert a + b == a;
    } else {
      var b', x := b[..|b| - 1], b[|b| - 1];
      assert a + b == (a + b') + [x];
      FeedLast(line, a + b', x, capacity);
      FeedChunking(line, a, b', capacity);
      FeedLast(f.line, b', x, capacity);
      assert b == b' + [x];
      StepThen(f, Feed(f.line, b', capacity), x, capacity);
    }
  }

  /**
   * Ordinary bytes typed while the line has room are stored and echoed
   * verbatim, and nothing is handed over.
   */
  lemma {:induction false} OrdinaryBytesTyped(line: seq<Byte>, input: seq<Byte>, capacity: nat)
    requires forall i | 0 <= i < |input| :: !IsTerminator(input[i]) && !IsErase(input[i])
    requires |line| + |input| < capacity
    ensures Feed(line, input, capacity) == Assembly(line + input, [], input)
    decreases |input|
  {
    if input == [] {
      assert line + input == line;
    } else {
      var init, last := input[..|input| - 1], input[|input| - 1];
      OrdinaryBytesTyped(line, init, capacity);
      assert input == init + [last];
      assert line + input == line + init + [last];
    }
  }

  /** "status" followed by a CR hands exactly "status" to the interpreter. */
  const STATUS: seq<Byte> := [115, 116, 97, 116, 117, 115]

  lemma StatusLineDispatched(capacity: nat)
    requires capacity > |STATUS|
    ensures Feed([], STATUS + [CR], capacity) == Assembly([], [STATUS], STATUS + CRNL + COMMAND_PROMPT)
  {
    OrdinaryBytesTyped([], STATUS, capacity);
    FeedLast([], STATUS, CR, capacity);
    assert [] + STATUS == STATUS;
  }

  // The line length and the buffer stores of the receive path exactly as
  // written, without a bound on the line length (echo and hand-over are not
  // modelled here).

  /** The line length after one byte when stores are not bounded. */
  function LengthAfterAsWritten(len: nat, b: Byte): (r: nat)
    ensures r <= len + 1
    ensures r == len + 1 <==> !IsTerminator(b) && !IsErase(b)
  {
    if IsTerminator(b) then 0
    else if IsErase(b) then (if len > 0 then len - 1 else 0)
    else len + 1
  }

  /**
   * Whether the store one byte triggers lands inside a buffer of `capacity`:
   * the NUL written at index len when a non-empty line completes, the NUL at
   * len - 1 when a character is erased, the byte itself at len otherwise.
   */
  predicate StoreInBoundsAsWritten(len: nat, b: Byte, capacity: nat): (ok: bool)
    ensures len < capacity ==> ok
    ensures len > capacity ==> !ok
  {
    if IsTerminator(b) || IsErase(b) then len == 0 || (if IsTerminator(b) then len else len - 1) < capacity
    else len < capacity
  }

  /** Whether every store made while reading `input` lands inside the buffer. */
  predicate StoresInBoundsAsWritten(len: nat, input: seq<Byte>, capacity: nat): (ok: bool)
    ensures len + |input| <= capacity ==> ok
    decreases |input|
  {
    input == [] ||
    (StoreInBoundsAsWritten(len, input[0], capacity) &&
     StoresInBoundsAsWritten(LengthAfterAsWritten(len, input[0]), input[1..], capacity))
  }

  /**
   * While the line has room for one more byte and its NUL, the guard makes
   * no difference: the unguarded length after one byte is the guarded one.
   */
  lemma AsWrittenAgreesWhileRoom(s: Assembly, b: Byte, capacity: nat)
    requires |s.line| + 1 < capacity
    ensures LengthAfterAsWritten(|s.line|, b) == |Step(s, b, capacity).line|
    ensures StoreInBoundsAsWritten(|s.line|, b, capacity)
  {
  }

  /** m copies of an ordinary byte ('a'). */
  function Typed(m: nat): (s: seq<Byte>)
    ensures |s| == m && forall i | 0 <= i < m :: s[i] == 97
  {
    if m == 0 then [] else [97] + Typed(m - 1)
  }

  /**
   * Without the guard, typing m ordinary bytes onto a line of length len (at
   * most the capacity) stays inside the buffer exactly when len + m <= capacity.
   */
  lemma {:induction false} TypedInBoundsAsWritten(len: nat, m: nat, capacity: nat)
    requires len <= capacity
    ensures StoresInBoundsAsWritten(len, Typed(m), capacity) <==> len + m <= capacity
    decreases m
  {
    if m > 0 {
      assert Typed(m)[0] == 97 && !IsTerminator(97) && !IsErase(97);
      assert StoreInBoundsAsWritten(len, 97, capacity) <==> len < capacity;
      assert LengthAfterAsWritten(len, 97) == len + 1;
      assert Typed(m)[1..] == Typed(m - 1);
      assert StoresInBoundsAsWritten(len, Typed(m), capacity)
          == (len < capacity && StoresInBoundsAsWritten(len + 1, Typed(m - 1), capacity));
      if len < capacity {
        TypedInBoundsAsWritten(len + 1, m - 1, capacity);
      }
    }
  }

  /** So capacity + 1 ordinary bytes, with no terminator, write past the buffer. */
  lemma SourceOverrunsRxBuffer(capacity: nat)
    ensures !StoresInBoundsAsWritten(0, Typed(capacity + 1), capacity)
  {
    TypedInBoundsAsWritten(0, capacity + 1, capacity);
  }
}

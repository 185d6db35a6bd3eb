/**
 * The keyboard input buffer (`StdinBuffer`): a fixed-capacity ring of
 * bytes with `head`, `tail` and `size`, refining a FIFO queue that drops
 * the newest byte when full.
 */
module Stdin {
  import opened Base

  const Capacity: nat := 1024

  datatype StdinBuffer = StdinBuffer(buf: seq<Byte>, head: nat, tail: nat, size: nat)

  /** The ring invariant: `tail` sits `size` slots after `head`, modulo the capacity. */
  predicate Valid(b: StdinBuffer)
  {
    && |b.buf| == Capacity
    && b.head < Capacity
    && b.tail < Capacity
    && b.size <= Capacity
    && b.tail == (b.head + b.size) % Capacity
  }

  /** The queue the ring holds, oldest byte first. */
  function Contents(b: StdinBuffer): (q: seq<Byte>)
    requires Valid(b)
    ensures |q| == b.size
  {
    seq(b.size, i requires 0 <= i < b.size => b.buf[(b.head + i) % Capacity])
  }

  /** `StdinBuffer::new`: zeroed storage, empty queue. */
  function New(): (b: StdinBuffer)
    ensures Valid(b) && Contents(b) == []
  {
    StdinBuffer(seq(Capacity, _ => 0), 0, 0, 0)
  }

  lemma WrapIndex(k: nat)
    requires k < 2 * Capacity
    ensures k % Capacity == if k < Capacity then k else k - Capacity
  {
  }

  lemma PushContents(b: StdinBuffer, data: Byte)
    requires Valid(b) && b.size < Capacity
    ensures var r := StdinBuffer(b.buf[b.tail := data], b.head, (b.tail + 1) % Capacity, b.size + 1);
              Valid(r) && Contents(r) == Contents(b) + [data]
  {
    var r := StdinBuffer(b.buf[b.tail := data], b.head, (b.tail + 1) % Capacity, b.size + 1);
    WrapIndex(b.head + b.size);
    WrapIndex(b.head + b.size + 1);
    WrapIndex(b.tail + 1);
    assert Valid(r);
    forall i | 0 <= i < b.size
      ensures Contents(r)[i] == Contents(b)[i]
    {
      WrapIndex(b.head + i);
    }
  }

  /** `push`: append when there is room; a full buffer drops the byte and is left as it was. */
  function Push(b: StdinBuffer, data: Byte): (r: StdinBuffer)
    requires Valid(b)
    ensures Valid(r)
    ensures |Contents(b)| < Capacity ==> Contents(r) == Contents(b) + [data]
    ensures |Contents(b)| == Capacity ==> r == b
  {
    if b.size < Capacity then
      PushContents(b, data);
      StdinBuffer(b.buf[b.tail := data], b.head, (b.tail + 1) % Capacity, b.size + 1)
    else
      b
  }

  /** The result of `pop`: the buffer afterwards and the byte taken, if any. */
  datatype Popped = Popped(rest: StdinBuffer, data: Option<Byte>)

  lemma PopContents(b: StdinBuffer)
    requires Valid(b) && b.size > 0
    ensures var r := StdinBuffer(b.buf, (b.head + 1) % Capacity, b.tail, b.size - 1);
              Valid(r) && Contents(r) == Contents(b)[1..]
  {
    var r := StdinBuffer(b.buf, (b.head + 1) % Capacity, b.tail, b.size - 1);
    WrapIndex(b.head + 1);
    WrapIndex(b.head + b.size);
    WrapIndex(r.head + r.size);
    assert Valid(r);
    forall i | 0 <= i < r.size
      ensures Contents(r)[i] == Contents(b)[i + 1]
    {
      WrapIndex(r.head + i);
      WrapIndex(b.head + 1 + i);
    }
  }

  /** `pop`: the oldest byte and the queue without it, or `None` and no change when empty. */
  function Pop(b: StdinBuffer): (r: Popped)
    requires Valid(b)
    ensures Valid(r.rest)
    ensures |Contents(b)| == 0 ==> r.data == None && r.rest == b
    ensures |Contents(b)| > 0 ==> r.data == Some(Contents(b)[0]) && Contents(r.rest) == Contents(b)[1..]
  {
    if b.size > 0 then
      PopContents(b);
      Popped(StdinBuffer(b.buf, (b.head + 1) % Capacity, b.tail, b.size - 1), Some(b.buf[b.head]))
    else
      Popped(b, None)
  }

  function Min(a: nat, b: nat): nat
  {
    if a < b then a else b
  }

  /** Bytes pushed one after another (`put2stdin` in a row): those that fit are queued, the rest dropped. */
  function PushAll(b: StdinBuffer, bytes: seq<Byte>): (r: StdinBuffer)
    requires Valid(b)
    ensures Valid(r)
    ensures Contents(r) == (Contents(b) + bytes)[..Min(|Contents(b)| + |bytes|, Capacity)]
    decreases |bytes|
  {
    if |bytes| == 0 then b
    else
      var next := Push(b, bytes[0]);
      assert Contents(b) + bytes == (Contents(b) + [bytes[0]]) + bytes[1..];
      PushAll(next, bytes[1..])
  }

  /** Every byte `pop` yields until it reports empty (`getchar` in a row). */
  function Drain(b: StdinBuffer): (out: seq<Byte>)
    requires Valid(b)
    ensures out == Contents(b)
    decreases b.size
  {
    var p := Pop(b);
    if p.data.None? then [] else [p.data.value] + Drain(p.rest)
  }

  /**
   * Pushing into an empty buffer and draining it returns what was pushed,
   * in order, cut to the capacity: the oldest bytes are kept.
   */
  lemma FifoRoundTrip(bytes: seq<Byte>)
    ensures Drain(PushAll(New(), bytes)) == bytes[..Min(|bytes|, Capacity)]
  {
    assert Contents(New()) + bytes == bytes;
  }
}

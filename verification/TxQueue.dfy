/** The transmit side: the read end of the transmit ring and the framer it feeds.

  The oldest packet stays in its slot, valid, for as long as it is on the wire and in the
  gap after it. `TxStepSends` says what one cycle does, in terms of the ring's contents and
  of the number of cycles since the current frame was started.
 */
module TxQueue {

  import opened Words
  import opened Mii
  import opened PacketQueue
  import opened Framer

  const TX_SLOTS := 4

  datatype TxMeta = TxMeta(bodyLen: Word11)

  datatype TxSide = TxSide(framer: Framer, active: bool, slotIdx: nat)
  {
    predicate Shape() { framer.Shape() && slotIdx < TX_SLOTS }
  }

  predicate TxRing(q: Ring<TxMeta>) { q.Shape(TX_SLOTS, FRAME_BODY_BYTES) }

  function TxStep(t: TxSide, q: Ring<TxMeta>): (r: (TxSide, Ring<TxMeta>, TxOut))
    requires t.Shape() && TxRing(q)
    ensures r.0.Shape() && TxRing(r.1)
  {
    var start := !t.active && q.ReadSlotValid();
    var active := t.active || start;
    var slot := if start then q.readIdx else t.slotIdx;
    var (framer, out) := FramerStep(t.framer, start, q.meta[q.readIdx].bodyLen, q.bytes[slot]);
    if active && out.idle then
      (TxSide(framer, false, slot), q.Consume(), out)
    else
      (TxSide(framer, active, slot), q, out)
  }

  // The registers `age` cycles into the frame of the oldest entry, age 0 being none.
  // `toggle` is the frame toggle before that frame.
  ghost predicate TxFollows(t: TxSide, q: Ring<TxMeta>, n: nat, age: nat, toggle: bool)
    requires TxRing(q) && q.Occupied(n)
  {
    && t.Shape()
    && t.active == (age > 0)
    && if age == 0 then t.framer.state == Idle && t.framer.toggle == toggle
       else
         && n > 0
         && t.slotIdx == q.readIdx
         && Sending(t.framer, q.bytes[q.readIdx], q.meta[q.readIdx].bodyLen, age, toggle)
  }

  // The age after one more cycle, given the length of the oldest entry if there is one.
  function NextAge(age: nat, head: Option<Word11>): nat {
    match head
    case None => 0
    case Some(len) => if age + 1 == Duration(len) then 0 else age + 1
  }

  ghost function HeadLen(q: Ring<TxMeta>, n: nat): Option<Word11>
    requires TxRing(q) && q.Occupied(n)
  {
    if n == 0 then None else Some(q.Contents(n)[0].meta.bodyLen)
  }

  // What the line shows: nothing, or the nibble the oldest entry's frame has at this age.
  ghost function Line(q: Ring<TxMeta>, n: nat, age: nat): Sample
    requires TxRing(q) && q.Occupied(n)
  {
    if n == 0 then QUIET
    else LineAt(q.Contents(n)[0].bytes, q.Contents(n)[0].meta.bodyLen, age)
  }

  lemma StartStep(t: TxSide, q: Ring<TxMeta>, n: nat, toggle: bool)
    requires TxRing(q) && q.Occupied(n) && TxFollows(t, q, n, 0, toggle)
    ensures var (t', q', out) := TxStep(t, q);
            && q' == q
            && TxFollows(t', q, n, NextAge(0, HeadLen(q, n)), toggle)
            && out == TxOut(Line(q, n, 0), false, toggle, n == 0)
  {
    FullRingHasNoSlot(q, n, TX_SLOTS, FRAME_BODY_BYTES);
    if n > 0 {
      assert q.Contents(n)[0] == Entry(q.meta[q.readIdx], q.bytes[q.readIdx]);
      StartSends(t.framer, q.bytes[q.readIdx], q.meta[q.readIdx].bodyLen);
      hide FramerStep, Sending;
    }
  }

  // One cycle of the transmit side.
  lemma TxStepSends(t: TxSide, q: Ring<TxMeta>, n: nat, age: nat, toggle: bool)
    requires TxRing(q) && q.Occupied(n) && TxFollows(t, q, n, age, toggle)
    ensures var (t', q', out) := TxStep(t, q);
            var age' := NextAge(age, HeadLen(q, n));
            var done := n > 0 && age' == 0;
            && out.line == Line(q, n, age)
            && out.active == out.line.dv
            && (if done then
                  q'.Occupied(n - 1) && q'.Contents(n - 1) == q.Contents(n)[1..]
                  && q'.dropCount == q.dropCount && q'.writeIdx == q.writeIdx && q'.bytes == q.bytes
                  && TxFollows(t', q', n - 1, 0, !toggle)
                else
                  q' == q && TxFollows(t', q', n, age', toggle))
  {
    if age == 0 {
      hide Ring<TxMeta>.Occupied, Ring<TxMeta>.Contents, FramerStep, Sending, LineAt;
      StartStep(t, q, n, toggle);
    } else {
      var buffer, len := q.bytes[q.readIdx], q.meta[q.readIdx].bodyLen;
      assert q.Contents(n)[0] == Entry(q.meta[q.readIdx], buffer);
      SendingStep(t.framer, buffer, len, age, toggle, false, len);
      ConsumeRemovesFirst(q, n, TX_SLOTS, FRAME_BODY_BYTES);
      hide Ring<TxMeta>.Occupied, Ring<TxMeta>.Contents, Ring<TxMeta>.Consume, FramerStep, Sending, LineAt;
    }
  }
}

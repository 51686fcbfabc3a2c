/** The packet rings: slots with a valid bit, a write index and a read index that wrap.

  `Ring` is the value of a ring and `PacketSlotQueue` the object that is updated in place.
  The lemmas say that a ring is a bounded first-in first-out queue: its valid slots are
  the cyclic interval that starts at the read index, and its contents are a sequence to
  which publishing appends and from which consuming removes the first entry.
 */
module PacketQueue {

  import opened Words

  // Increment of a slot index of a ring of the given number of slots.
  function NextIndex(i: nat, slots: nat): (j: nat)
    requires i < slots
    ensures j == if i + 1 == slots then 0 else i + 1
  {
    (i + 1) % slots
  }

  datatype Entry<+M> = Entry(meta: M, bytes: seq<Byte>)

  datatype Ring<+M> = Ring(
    meta: seq<M>,
    valid: seq<bool>,
    bytes: seq<seq<Byte>>,
    readIdx: nat,
    writeIdx: nat,
    dropCount: Word32)
  {
    predicate Shape(slots: nat, size: nat) {
      && 0 < slots == |valid| == |meta| == |bytes|
      && readIdx < slots && writeIdx < slots
      && forall i | 0 <= i < slots :: |bytes[i]| == size
    }

    predicate WriteSlotAvailable()
      requires writeIdx < |valid|
    {
      !valid[writeIdx]
    }

    predicate ReadSlotValid()
      requires readIdx < |valid|
    {
      valid[readIdx]
    }

    function Publish(m: M): Ring<M>
      requires writeIdx < |valid| == |meta|
    {
      if valid[writeIdx] then
        this.(dropCount := Inc32(dropCount))
      else
        this.(meta := meta[writeIdx := m],
              valid := valid[writeIdx := true],
              writeIdx := NextIndex(writeIdx, |valid|))
    }

    function Consume(): Ring<M>
      requires readIdx < |valid|
    {
      this.(valid := valid[readIdx := false], readIdx := NextIndex(readIdx, |valid|))
    }

    function DropWrite(): Ring<M> {
      this.(dropCount := Inc32(dropCount))
    }

    // Overwrites the buffer of slot i.
    function Store(i: nat, buffer: seq<Byte>): Ring<M>
      requires i < |bytes|
    {
      this.(bytes := bytes[i := buffer])
    }

    // The slot k places after the read index.
    function Slot(k: nat): nat
      requires readIdx < |valid| && k <= |valid|
    {
      if readIdx + k < |valid| then readIdx + k else readIdx + k - |valid|
    }

    // The valid slots are the n that follow the read index, and the write index is next.
    ghost predicate Occupied(n: nat)
      requires readIdx < |valid|
    {
      && n <= |valid|
      && writeIdx == Slot(n)
      && forall k: nat | k < |valid| :: valid[Slot(k)] == (k < n)
    }

    // The first n entries, oldest first.
    ghost function Contents(n: nat): (es: seq<Entry<M>>)
      requires 0 < |valid| == |meta| == |bytes| && readIdx < |valid| && n <= |valid|
      ensures |es| == n
    {
      seq(n, k requires 0 <= k < n => Entry(meta[Slot(k)], bytes[Slot(k)]))
    }
  }

  // A buffer as static storage starts out.
  function Blank(n: nat): (b: seq<Byte>)
    ensures |b| == n
  {
    seq(n, _ => 0)
  }

  function EmptyRing<M>(slots: nat, size: nat, m: M): (q: Ring<M>)
    requires slots > 0
    ensures q.Shape(slots, size) && q.Occupied(0)
  {
    Ring(seq(slots, _ => m), seq(slots, _ => false), seq(slots, _ => Blank(size)), 0, 0, 0)
  }

  lemma PublishAppends<M>(q: Ring<M>, n: nat, slots: nat, size: nat, m: M)
    requires q.Shape(slots, size) && q.Occupied(n) && n < slots
    ensures q.WriteSlotAvailable()
    ensures var q' := q.Publish(m);
            && q'.Shape(slots, size) && q'.Occupied(n + 1)
            && q'.Contents(n + 1) == q.Contents(n) + [Entry(m, q.bytes[q.writeIdx])]
            && q'.dropCount == q.dropCount
            && q'.readIdx == q.readIdx && q'.bytes == q.bytes
  {
    hide NextIndex;
    assert !q.valid[q.Slot(n)];
    var q' := q.Publish(m);
    forall k: nat | k < slots
      ensures q'.valid[q'.Slot(k)] == (k < n + 1)
      ensures k != n ==> q'.Slot(k) != q.writeIdx
    {
      assert q'.Slot(k) == q.Slot(k);
    }
  }

  lemma FullRingHasNoSlot<M>(q: Ring<M>, n: nat, slots: nat, size: nat)
    requires q.Shape(slots, size) && q.Occupied(n)
    ensures q.WriteSlotAvailable() <==> n < slots
    ensures q.ReadSlotValid() <==> n > 0
  {
    assert q.valid[q.Slot(0)] == (0 < n);
    if n < slots {
      assert !q.valid[q.Slot(n)];
    }
  }

  lemma ConsumeRemovesFirst<M>(q: Ring<M>, n: nat, slots: nat, size: nat)
    requires q.Shape(slots, size) && q.Occupied(n) && n > 0
    ensures var q' := q.Consume();
            && q'.Shape(slots, size) && q'.Occupied(n - 1)
            && q'.Contents(n - 1) == q.Contents(n)[1..]
            && q'.dropCount == q.dropCount
            && q'.writeIdx == q.writeIdx && q'.bytes == q.bytes
  {
    hide NextIndex;
    var q' := q.Consume();
    forall k: nat | k < slots
      ensures q'.valid[q'.Slot(k)] == (k < n - 1)
      ensures k + 1 < slots ==> q'.Slot(k) == q.Slot(k + 1)
    {
      if k + 1 < slots {
        assert q'.Slot(k) == q.Slot(k + 1);
      } else {
        assert q'.Slot(k) == q.readIdx;
      }
    }
  }

  // What is stored in the free slot the writer works on changes no entry.
  lemma StoreKeepsContents<M>(q: Ring<M>, n: nat, slots: nat, size: nat, buffer: seq<Byte>)
    requires q.Shape(slots, size) && q.Occupied(n) && n < slots && |buffer| == size
    ensures var q' := q.Store(q.writeIdx, buffer);
            && q'.Shape(slots, size) && q'.Occupied(n)
            && q'.Contents(n) == q.Contents(n)
            && q'.WriteSlotAvailable()
  {
    var q' := q.Store(q.writeIdx, buffer);
    assert !q.valid[q.Slot(n)];
    forall k: nat | k < slots
      ensures q'.valid[q'.Slot(k)] == (k < n)
      ensures k < n ==> q'.Slot(k) == q.Slot(k) != q.writeIdx
    {
      assert q'.Slot(k) == q.Slot(k);
    }
  }

  lemma DropKeepsContents<M>(q: Ring<M>, n: nat, slots: nat, size: nat)
    requires q.Shape(slots, size) && q.Occupied(n)
    ensures var q' := q.DropWrite();
            q'.Shape(slots, size) && q'.Occupied(n) && q'.Contents(n) == q.Contents(n)
  {
    var q' := q.DropWrite();
    forall k: nat | k < slots
      ensures q'.valid[q'.Slot(k)] == (k < n)
    {
      assert q'.Slot(k) == q.Slot(k);
    }
  }
}

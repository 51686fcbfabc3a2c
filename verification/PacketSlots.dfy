/** The ring as an object that is updated in place.

  The arrays and the two indices of a packet ring. Writers get the buffer of a slot by
  reference, as the parser and the body builder do; `Model` is the value of the whole ring.
 */
module PacketSlots {

  import opened Words
  import opened PacketQueue

  class PacketSlotQueue<M> {
    const slots: nat
    const size: nat
    const meta: array<M>
    const valid: array<bool>
    const bytes: seq<array<Byte>>
    var readIdx: nat
    var writeIdx: nat
    var dropCount: Word32

    ghost function Buffers(): set<object> {
      set i | 0 <= i < |bytes| :: bytes[i]
    }

    // Everything the ring is made of. It never changes.
    ghost function Footprint(): set<object> {
      {this, meta, valid} + Buffers()
    }

    ghost predicate Separate() {
      && (meta as object) != (valid as object)
      && (meta as object) !in Buffers() && (valid as object) !in Buffers()
      && (this as object) !in Buffers()
      && forall i, j :: 0 <= i < j < |bytes| ==> bytes[i] != bytes[j]
    }

    ghost predicate Valid()
      reads this
    {
      && 0 < slots == meta.Length == valid.Length == |bytes|
      && (forall i :: 0 <= i < slots ==> bytes[i].Length == size)
      && Separate()
      && readIdx < slots && writeIdx < slots
    }

    ghost function Rows(): (r: seq<seq<Byte>>)
      reads Footprint()
      ensures |r| == |bytes|
    {
      seq(|bytes|, i requires 0 <= i < |bytes| reads Footprint() => bytes[i][..])
    }

    ghost function Model(): (q: Ring<M>)
      requires Valid()
      reads this, Footprint()
      ensures q.Shape(slots, size)
    {
      Ring(meta[..], valid[..], Rows(), readIdx, writeIdx, dropCount)
    }

    constructor (slots: nat, size: nat, none: M)
      requires slots > 0
      ensures Valid() && fresh(Footprint()) && forall o | o in Footprint() :: allocated(o)
      ensures this.slots == slots && this.size == size
      ensures Model() == EmptyRing(slots, size, none)
    {
      var metas := new M[slots](_ => none);
      var flags := new bool[slots](_ => false);
      var rows: seq<array<Byte>> := [];
      for k := 0 to slots
        invariant |rows| == k
        invariant forall i :: 0 <= i < k ==> fresh(rows[i]) && rows[i].Length == size
        invariant forall i :: 0 <= i < k ==> (rows[i] as object) != metas && (rows[i] as object) != flags
        invariant forall i, j :: 0 <= i < j < k ==> rows[i] != rows[j]
        invariant forall i :: 0 <= i < k ==> rows[i][..] == Blank(size)
        invariant metas[..] == seq(slots, _ => none) && flags[..] == seq(slots, _ => false)
      {
        var row := new Byte[size](_ => 0);
        rows := rows + [row];
      }
      this.slots, this.size := slots, size;
      meta, valid, bytes := metas, flags, rows;
      readIdx, writeIdx, dropCount := 0, 0, 0;
      new;
      assert Rows() == seq(slots, _ => Blank(size));
    }

    method WriteSlotAvailable() returns (available: bool)
      requires Valid()
      ensures available == Model().WriteSlotAvailable()
    {
      available := !valid[writeIdx];
    }

    method ReadSlotValid() returns (ok: bool)
      requires Valid()
      ensures ok == Model().ReadSlotValid()
    {
      ok := valid[readIdx];
    }

    method PublishWriteSlot(m: M)
      requires Valid()
      modifies this, meta, valid
      ensures Valid() && Model() == old(Model()).Publish(m)
    {
      if valid[writeIdx] {
        dropCount := Inc32(dropCount);
      } else {
        meta[writeIdx] := m;
        valid[writeIdx] := true;
        writeIdx := NextIndex(writeIdx, slots);
      }
    }

    method ConsumeReadSlot()
      requires Valid()
      modifies this, valid
      ensures Valid() && Model() == old(Model()).Consume()
    {
      valid[readIdx] := false;
      readIdx := NextIndex(readIdx, slots);
    }

    method DropWrite()
      requires Valid()
      modifies this
      ensures Valid() && Model() == old(Model()).DropWrite()
    {
      dropCount := Inc32(dropCount);
    }

    // Writing through the reference to one slot's buffer is `Store`.
    twostate lemma BufferWritten(i: nat)
      requires old(Valid()) && Valid() && i < slots
      requires unchanged(this) && unchanged(meta) && unchanged(valid)
      requires forall j | 0 <= j < slots && j != i :: unchanged(bytes[j])
      ensures Model() == old(Model()).Store(i, bytes[i][..])
    {
      forall j | 0 <= j < slots
        ensures Rows()[j] == if j == i then bytes[i][..] else old(Rows())[j]
      {
        assert j != i ==> unchanged(bytes[j]);
      }
      assert Rows() == old(Rows())[i := bytes[i][..]];
    }
  }
}

/** The sizes of the registered buffers, in the 32-bit arithmetic of the allocation, and the
    descriptors laid out in them. */
module BufferLayout {
  import opened Basics
  import opened MachineWords
  import opened ModularIndex

  const MAX_DWORD: nat := 0xFFFF_FFFF

  function RoundDown(value: nat, multiple: nat): nat
    requires multiple > 0
  {
    value / multiple * multiple
  }

  function RoundUp(value: nat, multiple: nat): nat
    requires multiple > 0
  {
    RoundDown(value, multiple) + if value % multiple > 0 then multiple else 0
  }

  lemma RoundUpBounds(value: nat, multiple: nat)
    requires multiple > 0
    ensures value <= RoundUp(value, multiple) < value + multiple
    ensures RoundUp(value, multiple) % multiple == 0
    ensures forall x: nat :: value <= x && x % multiple == 0 ==> RoundUp(value, multiple) <= x
  {
    Euclid(value, multiple);
    var k := value / multiple + if value % multiple > 0 then 1 else 0;
    assert RoundUp(value, multiple) == k * multiple;
    DivModUnique(k, 0, multiple);
    forall x: nat | value <= x && x % multiple == 0 ensures RoundUp(value, multiple) <= x {
      Euclid(x, multiple);
      if x / multiple < k {
        MulMonotone(x / multiple, k - 1, multiple);
      } else {
        MulMonotone(k, x / multiple, multiple);
      }
    }
  }

  /** The product of two 32-bit words, kept in 32 bits. */
  function Product32(a: nat, b: nat): nat {
    a * b % 0x1_0000_0000
  }

  /** How many whole messages a size has room for. */
  function Messages(size: nat, messageSize: nat): nat
    requires messageSize > 0
  {
    size / messageSize
  }

  /** The size allocated and how many of the messages fit in it. */
  method AllocateBufferSpace(messageSize: nat, totalMessages: nat, granularity: nat)
    returns (bufferSize: nat, receiveBuffersAllocated: nat)
    requires 0 < messageSize <= MAX_DWORD && totalMessages <= MAX_DWORD && 0 < granularity
    ensures bufferSize <= MAX_DWORD && bufferSize % granularity == 0
    ensures receiveBuffersAllocated <= totalMessages && receiveBuffersAllocated * messageSize <= bufferSize
    ensures receiveBuffersAllocated == totalMessages || bufferSize < (receiveBuffersAllocated + 1) * messageSize
    ensures var wrapped := messageSize * totalMessages % 0x1_0000_0000;
            if RoundUp(wrapped, granularity) <= MAX_DWORD then bufferSize == RoundUp(wrapped, granularity)
            else MAX_DWORD < bufferSize + granularity
    ensures receiveBuffersAllocated == totalMessages
       <==> RoundUp(messageSize * totalMessages, granularity) <= MAX_DWORD
    ensures receiveBuffersAllocated == totalMessages ==>
              bufferSize == RoundUp(messageSize * totalMessages, granularity)
  {
    var desiredSize := Product32(messageSize, totalMessages);
    var actualSize := RoundUp(desiredSize, granularity);
    if actualSize > MAX_DWORD {
      actualSize := RoundDown(MAX_DWORD, granularity);
    }
    Capacity(messageSize * totalMessages, granularity);
    var fitting := Messages(actualSize, messageSize);
    Fitting(actualSize, messageSize, totalMessages);
    receiveBuffersAllocated := if totalMessages < fitting then totalMessages else fitting;
    bufferSize := actualSize;
  }

  /** The size asked for, wrapped to 32 bits, rounded up and capped. */
  function ActualSize(size: nat, granularity: nat): nat
    requires granularity > 0
  {
    var rounded := RoundUp(size % 0x1_0000_0000, granularity);
    if rounded > MAX_DWORD then RoundDown(MAX_DWORD, granularity) else rounded
  }

  /** It has room for the true size exactly if that fits in 32 bits after rounding. */
  lemma Capacity(size: nat, granularity: nat)
    requires granularity > 0
    ensures ActualSize(size, granularity) <= MAX_DWORD && ActualSize(size, granularity) % granularity == 0
    ensures size <= ActualSize(size, granularity) <==> RoundUp(size, granularity) <= MAX_DWORD
    ensures RoundUp(size, granularity) <= MAX_DWORD ==> ActualSize(size, granularity) == RoundUp(size, granularity)
  {
    var desired := size % 0x1_0000_0000;
    RoundUpBounds(size, granularity);
    RoundUpBounds(desired, granularity);
    if RoundUp(desired, granularity) > MAX_DWORD {
      CapIsShort(desired, granularity);
    }
    assert size <= MAX_DWORD ==> desired == size;
    assert desired <= size;
  }

  /** The largest multiple in 32 bits lies below any size whose rounding leaves 32 bits. */
  lemma CapIsShort(size: nat, granularity: nat)
    requires granularity > 0 && RoundUp(size, granularity) > MAX_DWORD
    ensures RoundDown(MAX_DWORD, granularity) < size
    ensures RoundDown(MAX_DWORD, granularity) <= MAX_DWORD
    ensures RoundDown(MAX_DWORD, granularity) % granularity == 0
  {
    Euclid(MAX_DWORD, granularity);
    DivModUnique(MAX_DWORD / granularity, 0, granularity);
    RoundUpBounds(size, granularity);
  }

  lemma Fitting(size: nat, messageSize: nat, total: nat)
    requires messageSize > 0
    ensures total <= Messages(size, messageSize) <==> messageSize * total <= size
    ensures Messages(size, messageSize) * messageSize <= size < (Messages(size, messageSize) + 1) * messageSize
  {
    var q := Messages(size, messageSize);
    Euclid(size, messageSize);
    if total <= q {
      MulMonotone(total, q, messageSize);
    } else {
      MulMonotone(q + 1, total, messageSize);
    }
  }

  /** Returns a buffer size exactly if the true size, rounded up, fits in 32 bits, and the program ends
      otherwise; so a buffer that is returned has room for all messages, even where the product wrapped
      or the cap applied. */
  method AllocateAndRegisterBuffer(messageSize: nat, totalMessages: nat, granularity: nat)
    returns (r: Option<nat>)
    requires 0 < messageSize <= MAX_DWORD && totalMessages <= MAX_DWORD && 0 < granularity
    ensures r.Some? <==> RoundUp(messageSize * totalMessages, granularity) <= MAX_DWORD
    ensures r.Some? ==> r.value % granularity == 0 && messageSize * totalMessages <= r.value <= MAX_DWORD
    ensures r.Some? ==> r.value == RoundUp(messageSize * totalMessages, granularity)
  {
    var bufferSize, pendingRealSize := AllocateBufferSpace(messageSize, totalMessages, granularity);
    RoundUpBounds(messageSize * totalMessages, granularity);
    if pendingRealSize != totalMessages {
      return None;
    }
    r := Some(bufferSize);
  }

  /** A registered slice of the buffer. */
  datatype Descriptor = Descriptor(offset: nat, length: nat)

  predicate Disjoint(a: Descriptor, b: Descriptor) {
    a.offset + a.length <= b.offset || b.offset + b.length <= a.offset
  }

  /** The setup loops: count slots of one size, copies descriptors for each; the offset is kept in 32
      bits. (One copy per receive or address, one per group for a packet to send.) */
  method FillDescriptors(size: nat, count: nat, copies: nat, bufferSize: nat) returns (d: seq<Descriptor>)
    requires size * count <= bufferSize <= MAX_DWORD
    ensures |d| == count * copies
    ensures forall i, j :: 0 <= i < count && 0 <= j < copies ==>
              InRow(i, j, copies) < |d| && d[InRow(i, j, copies)] == Descriptor(i * size, size)
    ensures forall i :: 0 <= i < |d| ==> d[i].offset + d[i].length <= bufferSize
  {
    d := [];
    var offset := 0;
    for i := 0 to count
      invariant |d| == i * copies && offset == i * size
      invariant forall k, j :: 0 <= k < i && 0 <= j < copies ==>
                  InRow(k, j, copies) < |d| && d[InRow(k, j, copies)] == Descriptor(k * size, size)
      invariant forall k :: 0 <= k < |d| ==> d[k].offset + d[k].length <= bufferSize
    {
      assert (i + 1) * size == i * size + size;
      MulMonotone(i + 1, count, size);
      assert (i + 1) * copies == i * copies + copies;
      forall k, j | 0 <= k < i && 0 <= j < copies ensures InRow(k, j, copies) < |d| {}
      var row := seq(copies, _ => Descriptor(offset, size));
      d := d + row;
      offset := (offset + size) % 0x1_0000_0000;
    }
  }

  /** Allocation and setup together: whenever the program goes on, every descriptor lies inside the
      registered buffer, and those of different slots do not overlap. */
  method SetUp(size: nat, count: nat, copies: nat, granularity: nat) returns (r: Option<seq<Descriptor>>)
    requires 0 < size <= MAX_DWORD && count <= MAX_DWORD && 0 < granularity
    ensures r.Some? <==> RoundUp(size * count, granularity) <= MAX_DWORD
    ensures r.Some? ==> |r.value| == count * copies
    ensures r.Some? ==> forall i, j :: 0 <= i < count && 0 <= j < copies ==>
              InRow(i, j, copies) < |r.value| && r.value[InRow(i, j, copies)] == Descriptor(i * size, size)
    ensures r.Some? ==> forall i :: 0 <= i < |r.value| ==>
              r.value[i].offset + r.value[i].length <= RoundUp(size * count, granularity)
    ensures r.Some? ==> forall i, j, k, l {:trigger InRow(i, j, copies), InRow(k, l, copies)} ::
              0 <= i < count && 0 <= k < count && i != k && 0 <= j < copies && 0 <= l < copies ==>
                InRow(i, j, copies) < |r.value| && InRow(k, l, copies) < |r.value| &&
                Disjoint(r.value[InRow(i, j, copies)], r.value[InRow(k, l, copies)])
  {
    var buffer := AllocateAndRegisterBuffer(size, count, granularity);
    if buffer.None? {
      return None;
    }
    var d := FillDescriptors(size, count, copies, buffer.value);
    forall i, k | 0 <= i < count && 0 <= k < count && i != k
      ensures Disjoint(Descriptor(i * size, size), Descriptor(k * size, size))
    {
      SlotsDisjoint(i, k, size);
    }
    r := Some(d);
  }

  function InRow(i: nat, j: nat, copies: nat): nat {
    copies * i + j
  }

  /** Slots of different packets do not overlap. */
  lemma SlotsDisjoint(i: nat, k: nat, size: nat)
    requires i != k
    ensures Disjoint(Descriptor(i * size, size), Descriptor(k * size, size))
  {
    if i < k {
      MulMonotone(i + 1, k, size);
    } else {
      MulMonotone(k + 1, i, size);
    }
  }
}

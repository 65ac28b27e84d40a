/** The single-producer/single-consumer index protocol of the shared ring
    buffer, and the read cursors the completion queue and queue pair keep
    beside it. Indices are plain fields here: the acquire/release orderings
    that publish them to the kernel peer are not modelled. */
module RxeQueue {
  import opened Bits
  import opened RxeTypes

  /** `(index + 1) & mask`. The sum is not truncated to 32 bits first: the
      mask is below 2^32, so the carry out of bit 31 is dropped either way. */
  function NextIndex(index: u32, mask: u32): (r: u32)
    ensures r <= mask
    ensures IsLowMask(mask) && index <= mask ==> r == if index == mask then 0 else index + 1
  {
    SuccessorInRing(index, mask);
    BitAnd(index + 1, mask)
  }

  /** Within the ring, the masked successor wraps from the last slot to 0. */
  lemma SuccessorInRing(index: u32, mask: u32)
    ensures IsLowMask(mask) && index <= mask ==>
      BitAnd(index + 1, mask) == if index == mask then 0 else index + 1
  {
    if IsLowMask(mask) && index <= mask {
      MaskIsMod(index + 1, mask);
      if index == mask {
        ModUnique(index + 1, mask + 1, 1, 0);
      } else {
        ModUnique(index + 1, mask + 1, 0, index + 1);
      }
    }
  }

  /** `queue_empty`: the producer has published nothing the consumer has not taken. */
  predicate QueueEmpty<T>(q: QueueBuf<T>)
    reads q
    ensures q.Valid() ==> (QueueEmpty(q) <==> q.Count() == 0)
  {
    q.producerIndex == q.consumerIndex
  }

  /** `queue_full`: publishing one more entry would make the indices meet. */
  predicate QueueFull<T>(q: QueueBuf<T>)
    reads q
    ensures q.Valid() ==> (QueueFull(q) <==> q.Room() == 0)
  {
    SuccessorInRing(q.producerIndex, q.indexMask);
    BitAnd(q.producerIndex + 1, q.indexMask) == q.consumerIndex
  }

  lemma QueueEmptyIffNoEntries<T>(q: QueueBuf<T>)
    requires q.Valid()
    ensures QueueEmpty(q) <==> q.Contents() == []
  {
  }

  /** The fullness test fires exactly when every slot but one is live. */
  lemma QueueFullIffNoRoom<T>(q: QueueBuf<T>)
    requires q.Valid()
    ensures QueueFull(q) <==> q.Room() == 0
    ensures QueueFull(q) <==> |q.Contents()| == q.Capacity() - 1
  {
    SuccessorInRing(q.producerIndex, q.indexMask);
  }

  /** With at least two slots a ring is never reported empty and full at once. */
  lemma EmptyFullExclusive<T>(q: QueueBuf<T>)
    requires q.Valid() && q.indexMask >= 1
    ensures !(QueueEmpty(q) && QueueFull(q))
  {
    SuccessorInRing(q.producerIndex, q.indexMask);
  }

  /** A single-slot ring (mask 0) is reported both empty and full whenever
      its indices agree: the one slot is the reserved one. */
  lemma SingleSlotRingEmptyAndFull<T>(q: QueueBuf<T>)
    requires q.Valid() && q.indexMask == 0
    ensures QueueEmpty(q) && QueueFull(q)
  {
  }

  /** The i-th live entry after publishing one entry is the i-th before, and
      the new last one sits in the old producer slot. */
  lemma ContentsAfterPublish<T>(q: QueueBuf<T>, s: seq<T>, oldProd: u32)
    requires q.Valid() && oldProd <= q.indexMask
    requires q.producerIndex == NextIndex(oldProd, q.indexMask)
    requires q.consumerIndex != q.producerIndex
    requires |s| == (if q.consumerIndex <= oldProd then oldProd - q.consumerIndex
                     else q.Capacity() - q.consumerIndex + oldProd)
    requires forall i :: 0 <= i < |s| ==> s[i] == q.data[q.SlotOf(i)]
    ensures q.Contents() == s + [q.data[oldProd]]
  {
  }

  /** `advance_producer`: publish the entry in the producer slot. */
  method AdvanceProducer<T>(q: QueueBuf<T>)
    requires q.Valid()
    modifies q`producerIndex
    ensures q.Valid() && q.consumerIndex == old(q.consumerIndex)
    ensures q.producerIndex == NextIndex(old(q.producerIndex), q.indexMask)
    ensures !old(QueueFull(q)) ==> q.Contents() == old(q.Contents()) + [q.data[old(q.producerIndex)]]
    ensures old(QueueFull(q)) ==> QueueEmpty(q)
  {
    ghost var s := q.Contents();
    var prod := q.producerIndex;
    q.producerIndex := NextIndex(prod, q.indexMask);
    if !old(QueueFull(q)) {
      ContentsAfterPublish(q, s, prod);
    }
  }

  /** `advance_consumer`: release the oldest entry's slot. */
  method AdvanceConsumer<T>(q: QueueBuf<T>)
    requires q.Valid()
    modifies q`consumerIndex
    ensures q.Valid() && q.producerIndex == old(q.producerIndex)
    ensures q.consumerIndex == NextIndex(old(q.consumerIndex), q.indexMask)
    ensures !old(QueueEmpty(q)) ==> q.Contents() == old(q.Contents())[1..]
    ensures old(QueueEmpty(q)) ==> QueueFull(q)
  {
    ghost var s := q.Contents();
    var cons := q.consumerIndex;
    q.consumerIndex := NextIndex(cons, q.indexMask);
    if old(QueueEmpty(q)) {
      SuccessorInRing(q.producerIndex, q.indexMask);
    } else {
      assert q.Count() == |s| - 1;
      forall i | 0 <= i < q.Count() ensures q.Contents()[i] == s[i + 1] { }
    }
  }

  /** `load_producer_index`. */
  function LoadProducerIndex<T>(q: QueueBuf<T>): (index: u32)
    reads q
    ensures q.Valid() ==> index <= q.indexMask
  {
    q.producerIndex
  }

  /** `load_consumer_index`. */
  function LoadConsumerIndex<T>(q: QueueBuf<T>): (index: u32)
    reads q
    ensures q.Valid() ==> index <= q.indexMask
  {
    q.consumerIndex
  }

  /** `store_producer_index`: a later load sees the stored value. */
  method StoreProducerIndex<T>(q: QueueBuf<T>, index: u32)
    modifies q`producerIndex
    ensures LoadProducerIndex(q) == index
    ensures LoadConsumerIndex(q) == old(LoadConsumerIndex(q))
  {
    q.producerIndex := index;
  }

  /** `store_consumer_index`: a later load sees the stored value. */
  method StoreConsumerIndex<T>(q: QueueBuf<T>, index: u32)
    modifies q`consumerIndex
    ensures LoadConsumerIndex(q) == index
    ensures LoadProducerIndex(q) == old(LoadProducerIndex(q))
  {
    q.consumerIndex := index;
  }

  /** Storing one value into both indices leaves the ring empty. */
  method StoreBothIndices<T>(q: QueueBuf<T>, index: u32)
    modifies q`producerIndex, q`consumerIndex
    ensures QueueEmpty(q)
  {
    StoreConsumerIndex(q, index);
    StoreProducerIndex(q, index);
  }

  /** `addr_from_index`: byte offset, from the start of the element area, of
      the slot an index names; the index is masked first. */
  function AddrFromIndex<T>(q: QueueBuf<T>, index: u32): (addr: u32)
    requires q.log2ElemSize < 32
    ensures q.Shaped() ==> addr == (index % q.Capacity()) * q.ElemSize()
    ensures q.Shaped() ==> addr % q.ElemSize() == 0 && addr + q.ElemSize() <= q.Capacity() * q.ElemSize()
  {
    ShiftedSlotFacts(q, index);
    Shl32(BitAnd(index, q.indexMask), q.log2ElemSize)
  }

  lemma ShiftedSlotFacts<T>(q: QueueBuf<T>, index: u32)
    requires q.log2ElemSize < 32
    ensures q.Shaped() ==>
      var addr := Shl32(BitAnd(index, q.indexMask), q.log2ElemSize);
      && addr == (index % q.Capacity()) * q.ElemSize()
      && addr % q.ElemSize() == 0 && addr + q.ElemSize() <= q.Capacity() * q.ElemSize()
  {
    if q.Shaped() {
      MaskIsMod(index, q.indexMask);
      SlotInsideArea(BitAnd(index, q.indexMask), q.Capacity(), q.ElemSize());
    }
  }

  lemma SlotInsideArea(k: nat, cap: nat, size: nat)
    requires k < cap && size >= 1
    ensures k * size + size <= cap * size
    ensures (k * size) % size == 0
  {
    var gap := cap - (k + 1);
    MulNonneg(gap, size);
    assert cap * size == (k + 1) * size + gap * size;
    assert (k + 1) * size == k * size + size;
    ModUnique(k * size, size, k, 0);
  }

  /** An index already within the ring is unchanged by masking. */
  lemma MaskKeepsValidIndex(index: u32, mask: u32)
    ensures IsLowMask(mask) && index <= mask ==> BitAnd(index, mask) == index
  {
    if IsLowMask(mask) {
      MaskIsMod(index, mask);
    }
  }

  /** `producer_addr`: byte offset of the producer slot. */
  function ProducerAddr<T>(q: QueueBuf<T>): (addr: u32)
    reads q
    requires q.log2ElemSize < 32
    ensures q.Valid() ==> addr == AddrFromIndex(q, q.producerIndex)
  {
    MaskKeepsValidIndex(q.producerIndex, q.indexMask);
    Shl32(q.producerIndex, q.log2ElemSize)
  }

  /** `consumer_addr`: byte offset of the consumer slot. */
  function ConsumerAddr<T>(q: QueueBuf<T>): (addr: u32)
    reads q
    requires q.log2ElemSize < 32
    ensures q.Valid() ==> addr == AddrFromIndex(q, q.consumerIndex)
  {
    MaskKeepsValidIndex(q.consumerIndex, q.indexMask);
    Shl32(q.consumerIndex, q.log2ElemSize)
  }

  /** `index_from_addr`: the slot index of a byte offset into the element
      area (offsets are truncated to 32 bits, then shifted and masked). */
  function IndexFromAddr<T>(q: QueueBuf<T>, addr: nat): (index: u32)
    requires q.log2ElemSize < 32
    ensures IsLowMask(q.indexMask) ==> index < q.Capacity()
  {
    if IsLowMask(q.indexMask) then
      MaskedBelowMask(Shr32(addr % U32_LIMIT, q.log2ElemSize), q.indexMask);
      BitAnd(Shr32(addr % U32_LIMIT, q.log2ElemSize), q.indexMask)
    else
      BitAnd(Shr32(addr % U32_LIMIT, q.log2ElemSize), q.indexMask)
  }

  /** Index to address and back gives the masked index. */
  lemma AddrIndexRoundTrip<T>(q: QueueBuf<T>, index: u32)
    requires q.Shaped()
    ensures IndexFromAddr(q, AddrFromIndex(q, index)) == BitAnd(index, q.indexMask)
    ensures IndexFromAddr(q, AddrFromIndex(q, index)) == index % q.Capacity()
  {
    var k := BitAnd(index, q.indexMask);
    MaskIsMod(index, q.indexMask);
    SlotInsideArea(k, q.Capacity(), q.ElemSize());
    var addr := Shl32(k, q.log2ElemSize);
    assert addr == k * q.ElemSize();
    assert addr % U32_LIMIT == addr;
    ShlThenShr(k, q.log2ElemSize);
    assert Shr32(addr, q.log2ElemSize) == k;
    MaskKeepsValidIndex(k, q.indexMask);
    assert AddrFromIndex(q, index) == addr;
  }

  /** The producer slot's address names the producer slot. */
  lemma ProducerAddrNamesProducerSlot<T>(q: QueueBuf<T>)
    requires q.Valid()
    ensures IndexFromAddr(q, ProducerAddr(q)) == q.producerIndex
    ensures IndexFromAddr(q, ConsumerAddr(q)) == q.consumerIndex
  {
    AddrIndexRoundTrip(q, q.producerIndex);
    MaskKeepsValidIndex(q.producerIndex, q.indexMask);
    assert ProducerAddr(q) == AddrFromIndex(q, q.producerIndex);
    AddrIndexRoundTrip(q, q.consumerIndex);
    MaskKeepsValidIndex(q.consumerIndex, q.indexMask);
    assert ConsumerAddr(q) == AddrFromIndex(q, q.consumerIndex);
  }

  /** The header of the ring used in the unit tests: 1 KiB elements and
      65536 slots. */
  lemma TestRingMaskIsLow()
    ensures IsLowMask(0xFFFF)
  {
  }

  /** Advancing the producer from 0xCCCC in that ring publishes to 0xCCCD. */
  lemma AdvanceFromTestIndex()
    ensures NextIndex(0xCCCC, 0xFFFF) == 0xCCCD
  {
    TestRingMaskIsLow();
  }

  /** The producer slot's offset is the producer index shifted by the
      element size whenever that product fits in 32 bits. */
  lemma ProducerAddrIsShiftedIndex<T>(q: QueueBuf<T>)
    requires q.log2ElemSize < 32
    requires q.producerIndex * q.ElemSize() < U32_LIMIT
    ensures ProducerAddr(q) == q.producerIndex * q.ElemSize()
  {
  }

  /** The ring of the unit tests puts producer index 0xCCCC at offset
      0xCCCC << 10. */
  lemma TestProducerAddr<T>(q: QueueBuf<T>)
    requires q.log2ElemSize == 0xA && q.producerIndex == 0xCCCC
    ensures ProducerAddr(q) == 0xCCCC * 1024
  {
    assert Pow2(10) == 1024;
    ProducerAddrIsShiftedIndex(q);
  }

  /** `advance_cq_cur_index`: move the completion queue's read cursor on. */
  method AdvanceCqCurIndex(cq: Cq)
    modifies cq`curIndex
    ensures cq.curIndex == NextIndex(old(cq.curIndex), cq.queue.indexMask)
    ensures cq.curIndex <= cq.queue.indexMask
  {
    cq.curIndex := NextIndex(cq.curIndex, cq.queue.indexMask);
  }

  /** `check_cq_queue_empty`: the read cursor has caught up with the producer. */
  predicate CheckCqQueueEmpty(cq: Cq)
    reads cq, cq.queue
    ensures cq.queue.Valid() && cq.curIndex == cq.queue.consumerIndex ==>
      (CheckCqQueueEmpty(cq) <==> cq.queue.Count() == 0)
    ensures cq.queue.Valid() && cq.curIndex == cq.queue.consumerIndex ==>
      (CheckCqQueueEmpty(cq) <==> QueueEmpty(cq.queue))
  {
    cq.curIndex == cq.queue.producerIndex
  }

  /** `advance_qp_cur_index`: move the queue pair's send cursor on. */
  method AdvanceQpCurIndex(qp: Qp)
    modifies qp`curIndex
    ensures qp.curIndex == NextIndex(old(qp.curIndex), qp.sq.queue.indexMask)
    ensures qp.curIndex <= qp.sq.queue.indexMask
  {
    qp.curIndex := NextIndex(qp.curIndex, qp.sq.queue.indexMask);
  }

  /** The error `check_qp_queue_full` leaves in `qp.err`: a latched error is
      kept; otherwise ENOSPC when the consumer sits right after the cursor. */
  function LatchedQpError(err: i32, cons: u32, curIndex: u32, mask: u32): (e: i32)
    ensures err != 0 ==> e == err
    ensures err == 0 ==> (e != 0 <==> cons == NextIndex(curIndex, mask))
    ensures e == 0 || e == err || e == ENOSPC
  {
    if err != 0 then err
    else if cons == NextIndex(curIndex, mask) then ENOSPC
    else err
  }

  /** Once latched, an error stays: re-checking never clears or changes it. */
  lemma LatchIsSticky(err: i32, cons: u32, curIndex: u32, mask: u32, cons': u32, curIndex': u32)
    requires LatchedQpError(err, cons, curIndex, mask) != 0
    ensures LatchedQpError(LatchedQpError(err, cons, curIndex, mask), cons', curIndex', mask)
            == LatchedQpError(err, cons, curIndex, mask)
  {
  }

  /** `check_qp_queue_full`: latch ENOSPC into `qp.err` when the send cursor
      has run into the consumer, and return the error. */
  method CheckQpQueueFull(qp: Qp) returns (r: i32)
    modifies qp`err
    ensures qp.err == LatchedQpError(old(qp.err), qp.sq.queue.consumerIndex, qp.curIndex, qp.sq.queue.indexMask)
    ensures r == qp.err
    ensures old(qp.err) != 0 ==> qp.err == old(qp.err)
  {
    var cons := qp.sq.queue.consumerIndex;
    if qp.err != 0 {
      return qp.err;
    }
    if cons == NextIndex(qp.curIndex, qp.sq.queue.indexMask) {
      qp.err := ENOSPC;
    }
    return qp.err;
  }
}

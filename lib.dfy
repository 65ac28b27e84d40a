/** The work-request lifecycle of the user-space driver: posting send and
    receive requests into a queue pair's rings and draining completions.
    The per-queue spin locks are left out (calls are sequential here); the
    notification to the kernel is a command appended to the device context's
    log together with the outcome the write reported. */
module Rxe {
  import opened Bits
  import opened RxeTypes
  import opened RxeQueue

  // ---------------------------------------------------------------------
  // Scatter-gather lengths and inline payloads

  /** Total byte count of a scatter-gather list, without truncation. */
  function SgeTotal(sgList: seq<Sge>): nat
  {
    if sgList == [] then 0 else SgeTotal(sgList[..|sgList| - 1]) + sgList[|sgList| - 1].length
  }

  /** The u32 total the driver computes (it wraps past 2^32). */
  function SgeLength(sgList: seq<Sge>): u32
  {
    SgeTotal(sgList) % U32_LIMIT
  }

  /** The summing loop of `post_one_send` and `rxe_post_one_recv`. */
  method SumSgeLengths(sgList: SgList) returns (length: u32)
    ensures length == SgeTotal(sgList) % U32_LIMIT
    ensures SgeTotal(sgList) < U32_LIMIT ==> length == SgeTotal(sgList)
  {
    length := 0;
    for i := 0 to |sgList|
      invariant length == SgeTotal(sgList[..i]) % U32_LIMIT
    {
      assert sgList[..i + 1][..i] == sgList[..i];
      length := WrappingAdd32(length, sgList[i].length);
    }
    assert sgList[..|sgList|] == sgList;
  }

  /** The bytes one scatter-gather element names. */
  function SegmentBytes(sge: Sge, mem: Memory): (b: seq<u8>)
    ensures |b| == sge.length
  {
    seq(sge.length, t requires 0 <= t < sge.length => mem(sge.addr + t))
  }

  /** The inline payload: the segments' bytes back to back, in list order. */
  function InlineBytes(sgList: seq<Sge>, mem: Memory): (b: seq<u8>)
    ensures |b| == SgeTotal(sgList)
  {
    if sgList == [] then []
    else InlineBytes(sgList[..|sgList| - 1], mem) + SegmentBytes(sgList[|sgList| - 1], mem)
  }

  /** Byte t of segment j lands at offset (bytes of segments before j) + t. */
  lemma {:induction false} InlineBytePlacement(sgList: seq<Sge>, mem: Memory, j: nat, t: nat)
    requires j < |sgList| && t < sgList[j].length
    ensures SgeTotal(sgList[..j]) + t < |InlineBytes(sgList, mem)|
    ensures InlineBytes(sgList, mem)[SgeTotal(sgList[..j]) + t] == mem(sgList[j].addr + t)
  {
    var n := |sgList| - 1;
    var init := sgList[..n];
    if j == n {
      assert init == sgList[..j];
    } else {
      assert init[..j] == sgList[..j];
      InlineBytePlacement(init, mem, j, t);
      assert SgeTotal(sgList[..j]) + t < |InlineBytes(init, mem)|;
    }
  }

  /** The inline copy loop of `init_send_wqe`: one block copy per segment. */
  method CopyInline(sgList: SgList, mem: Memory) returns (bytes: seq<u8>)
    ensures bytes == InlineBytes(sgList, mem)
  {
    bytes := [];
    for i := 0 to |sgList|
      invariant bytes == InlineBytes(sgList[..i], mem)
    {
      assert sgList[..i + 1][..i] == sgList[..i];
      bytes := bytes + SegmentBytes(sgList[i], mem);
    }
    assert sgList[..|sgList|] == sgList;
  }

  // ---------------------------------------------------------------------
  // Send requests: validation and translation

  predicate InlineRequested(wr: SendWr)
  {
    BitAnd(wr.sendFlags, IBV_SEND_INLINE) != 0
  }

  /** `validate_send_wr`: the argument rules, checked in the source's order. */
  function ValidateSendWr(qp: Qp, wr: SendWr, length: u32): (r: Status)
    ensures r == Ok || r == Err(EINVAL)
  {
    if |wr.sgList| > qp.sq.maxSge then Err(EINVAL)
    else if wr.opcode.IsAtomic() && (length < 8 || BitAnd(wr.wr.RemoteAddr(), 7) != 0) then Err(EINVAL)
    else if InlineRequested(wr) && length > qp.sq.maxInline then Err(EINVAL)
    else if wr.opcode == BindMw && length != 0 then Err(EINVAL)
    else if wr.opcode == BindMw && |wr.sgList| != 0 then Err(EINVAL)
    else if wr.opcode == BindMw && wr.immData != 0 then Err(EINVAL)
    else if wr.opcode == BindMw && qp.qpType != RC && qp.qpType != UC then Err(EINVAL)
    else Ok
  }

  /** The send-request rules stated as one condition, with the atomic
      alignment rule as arithmetic. */
  ghost predicate SendWrAcceptable(qp: Qp, wr: SendWr, length: u32)
  {
    && |wr.sgList| <= qp.sq.maxSge
    && (wr.opcode.IsAtomic() ==> length >= 8 && wr.wr.RemoteAddr() % 8 == 0)
    && (InlineRequested(wr) ==> length <= qp.sq.maxInline)
    && (wr.opcode == BindMw ==>
          length == 0 && |wr.sgList| == 0 && wr.immData == 0 && qp.qpType in {RC, UC})
  }

  /** Validation accepts exactly the requests that satisfy every rule. */
  lemma ValidateSendWrAcceptsExactly(qp: Qp, wr: SendWr, length: u32)
    ensures ValidateSendWr(qp, wr, length) == Ok <==> SendWrAcceptable(qp, wr, length)
  {
    MaskIsMod(wr.wr.RemoteAddr(), 7);
  }

  /** The inline limit is inclusive: a payload of exactly `max_inline` bytes
      passes, one byte more is refused. */
  lemma InlineLimitIsInclusive(qp: Qp, wr: SendWr)
    requires InlineRequested(wr) && !wr.opcode.IsAtomic() && wr.opcode != BindMw
    requires |wr.sgList| <= qp.sq.maxSge && qp.sq.maxInline + 1 < U32_LIMIT
    ensures ValidateSendWr(qp, wr, qp.sq.maxInline) == Ok
    ensures ValidateSendWr(qp, wr, qp.sq.maxInline + 1) == Err(EINVAL)
  {
  }

  /** `ah.ah_num as u32`: the C int reinterpreted as unsigned. */
  function AhNumAsU32(ahNum: i32): (r: u32)
    ensures ahNum >= 0 ==> r == ahNum
    ensures ahNum < 0 ==> r == ahNum + U32_LIMIT
  {
    ahNum % U32_LIMIT
  }

  /** The opcode-specific part of `convert_send_wr`. A payload whose variant
      does not match the opcode contributes its leading remote address and
      zeros elsewhere. */
  function KernelPayload(qpType: QpType, wr: SendWr): (k: KernelWrPayload)
    ensures k.KRdma? <==> wr.opcode in {RdmaWrite, RdmaWriteWithImm, RdmaRead}
    ensures k.KAtomic? <==> wr.opcode.IsAtomic()
    ensures k.KMw? <==> wr.opcode == BindMw
    ensures k.KUd? <==> wr.opcode in {Send, SendWithImm} && qpType == UD
    ensures k.KUd? ==> k.av.None?
    ensures k.KRdma? || k.KAtomic? ==> k.remoteAddr == wr.wr.RemoteAddr()
  {
    match wr.opcode
    case RdmaWrite | RdmaWriteWithImm | RdmaRead =>
      KRdma(wr.wr.RemoteAddr(), if wr.wr.Rdma? then wr.wr.rkey else 0)
    case Send | SendWithImm =>
      if qpType != UD then KNone
      else if wr.wr.Ud? then KUd(wr.wr.remoteQpn, wr.wr.remoteQkey, AhNumAsU32(wr.wr.ah.ahNum), None)
      else KUd(0, 0, 0, None)
    case AtomicCmpAndSwp | AtomicFetchAndAdd =>
      if wr.wr.Atomic? then KAtomic(wr.wr.remoteAddr, wr.wr.compareAdd, wr.wr.swap, wr.wr.rkey)
      else KAtomic(wr.wr.RemoteAddr(), 0, 0, 0)
    case BindMw =>
      var b := wr.bindMw;
      KMw(b.bindInfo.addr, b.bindInfo.length, b.bindInfo.mr.lkey, b.mw.rkey, b.rkey, b.bindInfo.mwAccessFlags)
    case _ => KNone
  }

  /** `convert_send_wr`: the kernel's copy of an application send request. */
  function ConvertSendWr(qpType: QpType, wr: SendWr): (k: KernelSendWr)
    ensures k.wrId == wr.wrId && k.numSge == |wr.sgList| && k.opcode == wr.opcode
    ensures k.sendFlags == wr.sendFlags && k.immData == wr.immData
  {
    KernelSendWr(wr.wrId, |wr.sgList|, wr.opcode, wr.sendFlags, wr.immData, KernelPayload(qpType, wr))
  }

  /** What conversion keeps of each kind of request: remote address and key
      for RDMA, all operands for atomics, destination for datagram sends,
      and the region and window keys for a bind. */
  lemma ConvertKeepsPayload(qpType: QpType, wr: SendWr)
    ensures wr.opcode in {RdmaWrite, RdmaWriteWithImm, RdmaRead} && wr.wr.Rdma? ==>
      ConvertSendWr(qpType, wr).wr == KRdma(wr.wr.remoteAddr, wr.wr.rkey)
    ensures wr.opcode.IsAtomic() && wr.wr.Atomic? ==>
      ConvertSendWr(qpType, wr).wr == KAtomic(wr.wr.remoteAddr, wr.wr.compareAdd, wr.wr.swap, wr.wr.rkey)
    ensures wr.opcode in {Send, SendWithImm} && qpType == UD && wr.wr.Ud? ==>
      ConvertSendWr(qpType, wr).wr == KUd(wr.wr.remoteQpn, wr.wr.remoteQkey, AhNumAsU32(wr.wr.ah.ahNum), None)
    ensures wr.opcode in {Send, SendWithImm} && qpType != UD ==> ConvertSendWr(qpType, wr).wr == KNone
    ensures wr.opcode == BindMw ==>
      ConvertSendWr(qpType, wr).wr ==
        KMw(wr.bindMw.bindInfo.addr, wr.bindMw.bindInfo.length, wr.bindMw.bindInfo.mr.lkey,
            wr.bindMw.mw.rkey, wr.bindMw.rkey, wr.bindMw.bindInfo.mwAccessFlags)
  {
  }

  /** The entry `init_send_wqe` writes for a request with total `length`,
      stamped with sequence number `ssn`. Both `iova` branches of the source
      read the union's leading word: the atomic or the RDMA remote address. */
  function SendWqeFor(qpType: QpType, wr: SendWr, length: u32, mem: Memory, ssn: u32): (wqe: SendWqe)
    ensures wqe.wr.(wr := KNone) == ConvertSendWr(qpType, wr).(wr := KNone)
    ensures wqe.wr.wr.KUd? ==> wqe.wr.wr.(av := None) == ConvertSendWr(qpType, wr).wr
    ensures !wqe.wr.wr.KUd? ==> wqe.wr.wr == ConvertSendWr(qpType, wr).wr
    ensures wqe.wr.wr.KUd? && wqe.wr.wr.av.Some? <==>
      qpType == UD && wr.opcode in {Send, SendWithImm} && wr.wr.Ud? && wr.wr.ah.ahNum == 0
    ensures wqe.wr.wr.KUd? && wqe.wr.wr.av.Some? ==> wqe.wr.wr.av.value == wr.wr.ah.av
    ensures wqe.iova == wr.wr.RemoteAddr() && wqe.ssn == ssn
    ensures InlineRequested(wr) ==> wqe.dma.payload == InlineData(InlineBytes(wr.sgList, mem))
    ensures !InlineRequested(wr) ==> wqe.dma.payload == SgeArray(wr.sgList)
  {
    var k := ConvertSendWr(qpType, wr);
    var k' :=
      if qpType == UD && wr.wr.Ud? && wr.wr.ah.ahNum == 0 && k.wr.KUd?
      then k.(wr := k.wr.(av := Some(wr.wr.ah.av)))
      else k;
    var payload := if InlineRequested(wr) then InlineData(InlineBytes(wr.sgList, mem)) else SgeArray(wr.sgList);
    SendWqe(k', wr.wr.RemoteAddr(), 0, ssn, DmaInfo(length, length, 0, |wr.sgList|, 0, payload))
  }

  /** A fresh send entry: the whole transfer remains, it starts at segment 0
      offset 0, carries the request's sequence number and remote address, and
      its payload is the request's segments, copied or inlined. */
  lemma SendWqeBookkeeping(qpType: QpType, wr: SendWr, mem: Memory, ssn: u32)
    ensures var wqe := SendWqeFor(qpType, wr, SgeLength(wr.sgList), mem, ssn);
      && wqe.dma.length == wqe.dma.resid == SgeLength(wr.sgList)
      && wqe.dma.numSge == |wr.sgList| && wqe.dma.curSge == 0 && wqe.dma.sgeOffset == 0
      && wqe.state == 0 && wqe.ssn == ssn
      && (wr.opcode.IsAtomic() && wr.wr.Atomic? ==> wqe.iova == wr.wr.remoteAddr)
      && (wr.wr.Rdma? ==> wqe.iova == wr.wr.remoteAddr)
      && (!InlineRequested(wr) ==> wqe.dma.payload == SgeArray(wr.sgList))
      && (InlineRequested(wr) ==> wqe.dma.payload.InlineData? && |wqe.dma.payload.bytes| == SgeTotal(wr.sgList))
  {
  }

  /** When the segment total fits in 32 bits, an accepted inline request's
      payload fits the queue's inline capacity. */
  lemma AcceptedInlinePayloadFits(qp: Qp, wr: SendWr, mem: Memory, ssn: u32)
    requires SgeTotal(wr.sgList) < U32_LIMIT
    requires InlineRequested(wr) && ValidateSendWr(qp, wr, SgeLength(wr.sgList)) == Ok
    ensures |SendWqeFor(qp.qpType, wr, SgeLength(wr.sgList), mem, ssn).dma.payload.bytes| <= qp.sq.maxInline
  {
    SendWqeBookkeeping(qp.qpType, wr, mem, ssn);
  }

  /** The inline check compares the wrapped u32 total: two segments of 2^31
      bytes total 0 after wrapping and pass any inline limit, while the
      inline copy writes all 2^32 bytes. */
  lemma InlineCheckUsesWrappedTotal(qp: Qp, mem: Memory, bindMw: BindMwArgs)
    requires qp.sq.maxSge >= 2
    ensures var wr := SendWr(0, [Sge(0, 0x8000_0000, 0), Sge(0, 0x8000_0000, 0)], Send,
                             IBV_SEND_INLINE, 0, NoPayload, bindMw);
      && ValidateSendWr(qp, wr, SgeLength(wr.sgList)) == Ok
      && |SendWqeFor(qp.qpType, wr, SgeLength(wr.sgList), mem, 0).dma.payload.bytes| == U32_LIMIT
  {
    var wr := SendWr(0, [Sge(0, 0x8000_0000, 0), Sge(0, 0x8000_0000, 0)], Send,
                     IBV_SEND_INLINE, 0, NoPayload, bindMw);
    assert wr.sgList[..1][..0] == [];
    assert SgeTotal(wr.sgList) == U32_LIMIT;
    SendWqeBookkeeping(qp.qpType, wr, mem, 0);
  }

  /** Validation as evidently intended: the inline limit is compared with
      the exact segment total rather than its 32-bit wrap. Every other rule
      is that of `ValidateSendWr`. */
  function ValidateSendWrExact(qp: Qp, wr: SendWr): (r: Status)
    ensures r == Ok || r == Err(EINVAL)
    ensures r == Ok ==> ValidateSendWr(qp, wr, SgeLength(wr.sgList)) == Ok
    ensures SgeTotal(wr.sgList) < U32_LIMIT ==> r == ValidateSendWr(qp, wr, SgeLength(wr.sgList))
  {
    if InlineRequested(wr) && SgeTotal(wr.sgList) > qp.sq.maxInline then Err(EINVAL)
    else ValidateSendWr(qp, wr, SgeLength(wr.sgList))
  }

  /** With the exact check, every accepted inline request's payload fits the
      queue's inline capacity, however large its segments are. */
  lemma ExactInlineCheckBoundsCopy(qp: Qp, wr: SendWr, mem: Memory, ssn: u32)
    requires InlineRequested(wr) && ValidateSendWrExact(qp, wr) == Ok
    ensures |SendWqeFor(qp.qpType, wr, SgeLength(wr.sgList), mem, ssn).dma.payload.bytes| <= qp.sq.maxInline
  {
    SendWqeBookkeeping(qp.qpType, wr, mem, ssn);
  }

  /** The exact check refuses the request that the wrapped check lets through. */
  lemma ExactInlineCheckRefusesWrappedTotal(qp: Qp, bindMw: BindMwArgs)
    ensures ValidateSendWrExact(qp, SendWr(0, [Sge(0, 0x8000_0000, 0), Sge(0, 0x8000_0000, 0)], Send,
                                           IBV_SEND_INLINE, 0, NoPayload, bindMw)) == Err(EINVAL)
  {
    var wr := SendWr(0, [Sge(0, 0x8000_0000, 0), Sge(0, 0x8000_0000, 0)], Send,
                     IBV_SEND_INLINE, 0, NoPayload, bindMw);
    assert wr.sgList[..1][..0] == [];
    assert SgeTotal(wr.sgList) == U32_LIMIT;
  }

  // ---------------------------------------------------------------------
  // Batches: requests in list order, stopping at the first failure

  /** How far a request list got: the number of leading requests committed
      and, if one failed, its error. */
  datatype BatchOutcome = BatchOutcome(committed: nat, failure: Option<Errno>)

  /** Processes `wrs` in order against a ring with `room` free entries; each
      committed request takes one entry; the first failure stops the batch
      and nothing before it is undone. `check` must fail when no room is left. */
  function Batch<W(!new)>(check: (W, nat) -> Status, wrs: seq<W>, room: nat): (b: BatchOutcome)
    requires forall w :: check(w, 0).Err?
    ensures b.committed <= |wrs| && b.committed <= room
    ensures b.failure.None? <==> b.committed == |wrs|
    decreases |wrs|
  {
    if wrs == [] then BatchOutcome(0, None)
    else
      match check(wrs[0], room)
      case Err(e) => BatchOutcome(0, Some(e))
      case Ok =>
        var rest := Batch(check, wrs[1..], room - 1);
        BatchOutcome(rest.committed + 1, rest.failure)
  }

  /** Every committed request passed its check against the room left at its
      turn, and the failure is the first check that did not pass. */
  lemma {:induction false} BatchSpec<W(!new)>(check: (W, nat) -> Status, wrs: seq<W>, room: nat)
    requires forall w :: check(w, 0).Err?
    ensures var b := Batch(check, wrs, room);
      && (forall j :: 0 <= j < b.committed ==> check(wrs[j], room - j) == Ok)
      && (b.failure.Some? ==> check(wrs[b.committed], room - b.committed) == Err(b.failure.value))
    decreases |wrs|
  {
    if wrs != [] && check(wrs[0], room) == Ok {
      var rest := Batch(check, wrs[1..], room - 1);
      BatchSpec(check, wrs[1..], room - 1);
      assert forall j :: 1 <= j < rest.committed + 1 ==> wrs[j] == wrs[1..][j - 1];
    }
  }

  /** The batch stops exactly at the first request that fails. */
  lemma {:induction false} BatchStopsAt<W(!new)>(check: (W, nat) -> Status, wrs: seq<W>, room: nat, i: nat)
    requires forall w :: check(w, 0).Err?
    requires i <= |wrs| && i <= room
    requires forall j :: 0 <= j < i ==> check(wrs[j], room - j) == Ok
    requires i < |wrs| ==> check(wrs[i], room - i).Err?
    ensures Batch(check, wrs, room).committed == i
    ensures i < |wrs| ==> Batch(check, wrs, room).failure == Some(check(wrs[i], room - i).errno)
    decreases i
  {
    if i > 0 {
      assert check(wrs[0], room - 0) == Ok;
      forall j | 0 <= j < i - 1 ensures check(wrs[1..][j], room - 1 - j) == Ok {
        assert wrs[1..][j] == wrs[j + 1];
      }
      BatchStopsAt(check, wrs[1..], room - 1, i - 1);
    }
  }

  // ---------------------------------------------------------------------
  // The send path

  /** What one send request meets: validation of its (wrapped) total first,
      then the ring's fullness. */
  function SendStatus(qp: Qp, wr: SendWr, room: nat): (r: Status)
    ensures room == 0 ==> r.Err?
    ensures ValidateSendWr(qp, wr, SgeLength(wr.sgList)).Err? ==> r == Err(EINVAL)
    ensures r == Err(ENOMEM) <==> room == 0 && ValidateSendWr(qp, wr, SgeLength(wr.sgList)) == Ok
    ensures r == Ok <==> room > 0 && ValidateSendWr(qp, wr, SgeLength(wr.sgList)) == Ok
  {
    var v := ValidateSendWr(qp, wr, SgeLength(wr.sgList));
    if v.Err? then v else if room == 0 then Err(ENOMEM) else Ok
  }

  function SendCheck(qp: Qp): (check: (SendWr, nat) -> Status)
    ensures forall w :: check(w, 0).Err?
  {
    (w: SendWr, room: nat) => SendStatus(qp, w, room)
  }

  /** The entries a run of committed send requests publishes, numbered on
      from `ssn`. */
  function SendWqesFor(qpType: QpType, wrs: seq<SendWr>, mem: Memory, ssn: u32): (s: seq<SendWqe>)
    ensures |s| == |wrs|
  {
    seq(|wrs|, j requires 0 <= j < |wrs| =>
      SendWqeFor(qpType, wrs[j], SgeLength(wrs[j].sgList), mem, SsnAfter(ssn, j + 1)))
  }

  /** `init_send_wqe`: fill the entry at `slot` and take the next sequence number. */
  method InitSendWqe(qp: Qp, wr: SendWr, length: u32, mem: Memory, slot: nat)
    requires slot < qp.sq.queue.data.Length
    modifies qp`ssn, qp.sq.queue.data
    ensures qp.ssn == WrappingAdd32(old(qp.ssn), 1)
    ensures qp.sq.queue.data[..] == old(qp.sq.queue.data[..])[slot := SendWqeFor(qp.qpType, wr, length, mem, qp.ssn)]
  {
    var kwr := ConvertSendWr(qp.qpType, wr);
    if qp.qpType == UD {
      match wr.wr
      case Ud(_, ah, _, _) =>
        if ah.ahNum == 0 && kwr.wr.KUd? {
          kwr := kwr.(wr := kwr.wr.(av := Some(ah.av)));
        }
      case _ =>
    }
    var payload: SendData;
    if InlineRequested(wr) {
      var bytes := CopyInline(wr.sgList, mem);
      payload := InlineData(bytes);
    } else {
      payload := SgeArray(wr.sgList);
    }
    var iova := wr.wr.RemoteAddr();
    qp.ssn := WrappingAdd32(qp.ssn, 1);
    qp.sq.queue.data[slot] := SendWqe(kwr, iova, 0, qp.ssn, DmaInfo(length, length, 0, |wr.sgList|, 0, payload));
  }

  /** The producer slot is never one of the live entries. */
  lemma ProducerSlotNotLive<T>(q: QueueBuf<T>)
    requires q.Valid()
    ensures forall i :: 0 <= i < q.Count() ==> q.SlotOf(i) != q.producerIndex
  {
  }

  /** `post_one_send`: validate, fill the producer slot, and only then test
      fullness; commit by advancing the producer index. */
  method PostOneSend(qp: Qp, wr: SendWr, mem: Memory) returns (r: Status)
    requires qp.sq.queue.Valid()
    modifies qp`ssn, qp.sq.queue`producerIndex, qp.sq.queue.data
    ensures qp.sq.queue.Valid() && qp.sq.queue.consumerIndex == old(qp.sq.queue.consumerIndex)
    ensures r == SendStatus(qp, wr, old(qp.sq.queue.Room()))
    ensures r == Ok ==>
      && qp.ssn == WrappingAdd32(old(qp.ssn), 1)
      && qp.sq.queue.Contents() == old(qp.sq.queue.Contents()) + [SendWqeFor(qp.qpType, wr, SgeLength(wr.sgList), mem, qp.ssn)]
    ensures r == Err(ENOMEM) ==>
      && qp.ssn == WrappingAdd32(old(qp.ssn), 1)
      && qp.sq.queue.producerIndex == old(qp.sq.queue.producerIndex)
      && qp.sq.queue.Contents() == old(qp.sq.queue.Contents())
      && qp.sq.queue.data[qp.sq.queue.producerIndex] == SendWqeFor(qp.qpType, wr, SgeLength(wr.sgList), mem, qp.ssn)
    ensures r == Err(EINVAL) ==>
      && qp.ssn == old(qp.ssn) && qp.sq.queue.producerIndex == old(qp.sq.queue.producerIndex)
      && qp.sq.queue.data[..] == old(qp.sq.queue.data[..])
    ensures r != Err(EINVAL) ==>
      qp.sq.queue.data[..] == old(qp.sq.queue.data[..])[old(qp.sq.queue.producerIndex) :=
        SendWqeFor(qp.qpType, wr, SgeLength(wr.sgList), mem, qp.ssn)]
  {
    var q := qp.sq.queue;
    var length := SumSgeLengths(wr.sgList);
    var v := ValidateSendWr(qp, wr, length);
    if v.Err? {
      return v;
    }
    ghost var before := q.Contents();
    QueueFullIffNoRoom(q);
    ProducerAddrNamesProducerSlot(q);
    var slot := IndexFromAddr(q, ProducerAddr(q));
    InitSendWqe(qp, wr, length, mem, slot);
    ProducerSlotNotLive(q);
    assert q.Contents() == before;
    if QueueFull(q) {
      return Err(ENOMEM);
    }
    AdvanceProducer(q);
    return Ok;
  }

  /** `post_send_db`: write one post-send command for this queue pair to the
      device; `outcome` is what the write reported. */
  method PostSendDb(qp: Qp, outcome: Status) returns (r: Status)
    modifies qp.context
    ensures qp.context.postSendCommands == old(qp.context.postSendCommands) + [qp.handle]
    ensures r == outcome
  {
    qp.context.postSendCommands := qp.context.postSendCommands + [qp.handle];
    r := outcome;
  }

  /** Entry j of a committed run is numbered `ssn + j + 1`, so extending the
      run by one request appends one entry. */
  lemma SendWqesForSnoc(qpType: QpType, wrs: seq<SendWr>, i: nat, mem: Memory, ssn: u32)
    requires i < |wrs|
    ensures SendWqesFor(qpType, wrs[..i + 1], mem, ssn)
         == SendWqesFor(qpType, wrs[..i], mem, ssn)
            + [SendWqeFor(qpType, wrs[i], SgeLength(wrs[i].sgList), mem, SsnAfter(ssn, i + 1))]
  {
  }

  /** The sequence number after `n` increments of `ssn`, each a wrapping
      u32 addition as `init_send_wqe` performs it. */
  function SsnAfter(ssn: u32, n: nat): u32
  {
    if n == 0 then ssn else WrappingAdd32(SsnAfter(ssn, n - 1), 1)
  }

  /** How many sequence numbers a batch consumes: one per committed request,
      and one more when the failure is a full ring, because the entry is
      built before fullness is tested. */
  function SsnConsumed(committed: nat, failure: Option<Errno>): nat
  {
    committed + if failure == Some(ENOMEM) then 1 else 0
  }

  /** Repeated wrapping increments are counting modulo 2^32. */
  lemma {:induction false} SsnAfterIsModular(ssn: u32, n: nat)
    ensures SsnAfter(ssn, n) == (ssn + n) % U32_LIMIT
  {
    if n == 0 {
      ModUnique(ssn, U32_LIMIT, 0, ssn);
    } else {
      var m := ssn + (n - 1);
      SsnAfterIsModular(ssn, n - 1);
      WrapSucc(m);
      assert m + 1 == ssn + n;
    }
  }

  /** The state of the `rxe_post_send` loop after `committed` requests went
      in and, if `failure` is set, the next one failed: the accepted requests,
      the entries published for them, the sequence numbers taken and the room
      left. */
  ghost predicate SendLoopInv(qp: Qp, wrList: seq<SendWr>, mem: Memory, room0: nat, contents0: seq<SendWqe>,
                              ssn0: u32, committed: nat, failure: Option<Errno>)
    reads qp, qp.sq.queue, qp.sq.queue.data
  {
    && committed <= |wrList| && committed <= room0
    && qp.sq.queue.Valid()
    && (forall j :: 0 <= j < committed ==> SendStatus(qp, wrList[j], room0 - j) == Ok)
    && qp.sq.queue.Contents() == contents0 + SendWqesFor(qp.qpType, wrList[..committed], mem, ssn0)
    && qp.ssn == SsnAfter(ssn0, SsnConsumed(committed, failure))
    && (failure.None? ==> qp.sq.queue.Room() == room0 - committed)
    && (failure.Some? ==>
          committed < |wrList| && SendStatus(qp, wrList[committed], room0 - committed) == Err(failure.value))
  }

  /** One turn of the `rxe_post_send` loop: request `i` either extends the
      committed run or is the failure. */
  method PostSendStep(qp: Qp, wrList: seq<SendWr>, i: nat, mem: Memory,
                      ghost room0: nat, ghost contents0: seq<SendWqe>, ghost ssn0: u32)
    returns (failure: Option<Errno>)
    requires qp.sq.queue.Valid() && i < |wrList| && i <= room0
    requires qp.sq.queue.Room() == room0 - i && qp.ssn == SsnAfter(ssn0, i)
    requires qp.sq.queue.Contents() == contents0 + SendWqesFor(qp.qpType, wrList[..i], mem, ssn0)
    modifies qp`ssn, qp.sq.queue`producerIndex, qp.sq.queue.data
    ensures qp.sq.queue.Valid() && qp.sq.queue.consumerIndex == old(qp.sq.queue.consumerIndex)
    ensures failure.None? ==>
      && SendStatus(qp, wrList[i], room0 - i) == Ok
      && qp.sq.queue.Room() == room0 - (i + 1) && qp.ssn == SsnAfter(ssn0, i + 1)
      && qp.sq.queue.Contents() == contents0 + SendWqesFor(qp.qpType, wrList[..i + 1], mem, ssn0)
    ensures failure.Some? ==>
      && SendStatus(qp, wrList[i], room0 - i) == Err(failure.value)
      && qp.sq.queue.Contents() == contents0 + SendWqesFor(qp.qpType, wrList[..i], mem, ssn0)
      && qp.ssn == SsnAfter(ssn0, SsnConsumed(i, failure))
  {
    var res := PostOneSend(qp, wrList[i], mem);
    if res.Err? {
      failure := Some(res.errno);
    } else {
      SendWqesForSnoc(qp.qpType, wrList, i, mem, ssn0);
      failure := None;
    }
  }

  /** The same turn, stated on the loop state. It is kept apart from
      `PostSendStep` so that the loop invariant is re-established by
      matching the bundled predicate, and the unbundled facts are proved
      once in `PostSendStep`; together they are one proof obligation too
      large for the solver. */
  method PostSendTurn(qp: Qp, wrList: seq<SendWr>, i: nat, mem: Memory,
                      ghost room0: nat, ghost contents0: seq<SendWqe>, ghost ssn0: u32)
    returns (failure: Option<Errno>)
    requires i < |wrList| && SendLoopInv(qp, wrList, mem, room0, contents0, ssn0, i, None)
    modifies qp`ssn, qp.sq.queue`producerIndex, qp.sq.queue.data
    ensures qp.sq.queue.consumerIndex == old(qp.sq.queue.consumerIndex)
    ensures failure.None? ==> SendLoopInv(qp, wrList, mem, room0, contents0, ssn0, i + 1, None)
    ensures failure.Some? ==> SendLoopInv(qp, wrList, mem, room0, contents0, ssn0, i, failure)
  {
    failure := PostSendStep(qp, wrList, i, mem, room0, contents0, ssn0);
  }

  /** The locked loop of `rxe_post_send`: post requests in order until one
      fails. Every request before `committed` was accepted; the one at
      `committed`, if any, is the failure. */
  method PostSendLoop(qp: Qp, wrList: seq<SendWr>, mem: Memory) returns (committed: nat, failure: Option<Errno>)
    requires qp.sq.queue.Valid()
    modifies qp`ssn, qp.sq.queue`producerIndex, qp.sq.queue.data
    ensures qp.sq.queue.consumerIndex == old(qp.sq.queue.consumerIndex)
    ensures failure.None? ==> committed == |wrList|
    ensures SendLoopInv(qp, wrList, mem, old(qp.sq.queue.Room()), old(qp.sq.queue.Contents()), old(qp.ssn),
                        committed, failure)
  {
    var q := qp.sq.queue;
    ghost var room0 := q.Room();
    ghost var contents0 := q.Contents();
    ghost var ssn0 := qp.ssn;
    failure := None;
    committed := 0;
    assert wrList[..0] == [];
    while committed < |wrList| && failure.None?
      invariant committed <= |wrList| && q.consumerIndex == old(q.consumerIndex)
      invariant SendLoopInv(qp, wrList, mem, room0, contents0, ssn0, committed, failure)
      decreases |wrList| - committed, if failure.None? then 1 else 0
    {
      failure := PostSendTurn(qp, wrList, committed, mem, room0, contents0, ssn0);
      if failure.None? {
        committed := committed + 1;
      }
    }
  }

  /** The loop's outcome is the batch semantics of the list against the
      ring's free entries. It wraps `PostSendLoop` so that the loop's
      invariant and its translation into `Batch` are proved separately. */
  method PostSendList(qp: Qp, wrList: seq<SendWr>, mem: Memory) returns (committed: nat, failure: Option<Errno>)
    requires qp.sq.queue.Valid()
    modifies qp`ssn, qp.sq.queue`producerIndex, qp.sq.queue.data
    ensures qp.sq.queue.Valid() && qp.sq.queue.consumerIndex == old(qp.sq.queue.consumerIndex)
    ensures BatchOutcome(committed, failure) == Batch(SendCheck(qp), wrList, old(qp.sq.queue.Room()))
    ensures qp.sq.queue.Contents()
         == old(qp.sq.queue.Contents()) + SendWqesFor(qp.qpType, wrList[..committed], mem, old(qp.ssn))
    ensures qp.ssn == SsnAfter(old(qp.ssn), SsnConsumed(committed, failure))
  {
    ghost var room0 := qp.sq.queue.Room();
    committed, failure := PostSendLoop(qp, wrList, mem);
    BatchStopsAt(SendCheck(qp), wrList, room0, committed);
  }

  /** `rxe_post_send`: post a list of send requests, then ring the doorbell
      once. `hasBadWr` says whether the caller passed the out-pointer for the
      failing request; `badWr` is the position that pointer is set to;
      `doorbell` is the outcome of the notification write. */
  method PostSend(qp: Qp?, wrList: seq<SendWr>, hasBadWr: bool, mem: Memory, doorbell: Status)
    returns (r: Status, badWr: Option<nat>)
    requires qp != null ==> qp.Valid()
    modifies if qp != null then {qp, qp.sq.queue, qp.sq.queue.data, qp.context} else {}
    ensures qp == null || wrList == [] || !hasBadWr ==> r == Err(EINVAL) && badWr == None
    ensures qp != null && (wrList == [] || !hasBadWr) ==>
      unchanged(qp, qp.sq.queue, qp.sq.queue.data, qp.context)
    ensures qp != null && wrList != [] && hasBadWr ==> qp.Valid()
    ensures qp != null && wrList != [] && hasBadWr ==>
      var b := Batch(SendCheck(qp), wrList, old(qp.sq.queue.Room()));
      && badWr == (if b.failure.Some? then Some(b.committed) else None)
      && r == (if doorbell.Err? then doorbell else if b.failure.Some? then Err(b.failure.value) else Ok)
    ensures qp != null && wrList != [] && hasBadWr ==>
      var b := Batch(SendCheck(qp), wrList, old(qp.sq.queue.Room()));
      qp.sq.queue.Contents() ==
        old(qp.sq.queue.Contents()) + SendWqesFor(qp.qpType, wrList[..b.committed], mem, old(qp.ssn))
    ensures qp != null && wrList != [] && hasBadWr ==>
      var b := Batch(SendCheck(qp), wrList, old(qp.sq.queue.Room()));
      qp.ssn == SsnAfter(old(qp.ssn), SsnConsumed(b.committed, b.failure))
    ensures qp != null && wrList != [] && hasBadWr ==>
      && qp.sq.queue.consumerIndex == old(qp.sq.queue.consumerIndex)
      && qp.curIndex == old(qp.curIndex) && qp.err == old(qp.err)
      && qp.context.postSendCommands == old(qp.context.postSendCommands) + [qp.handle]
  {
    if qp == null || wrList == [] || !hasBadWr {
      return Err(EINVAL), None;
    }
    ghost var contents0 := qp.sq.queue.Contents();
    var committed, failure := PostSendList(qp, wrList, mem);
    badWr := if failure.Some? then Some(committed) else None;
    ghost var contents := qp.sq.queue.Contents();
    assert contents == contents0 + SendWqesFor(qp.qpType, wrList[..committed], mem, old(qp.ssn));
    var db := PostSendDb(qp, doorbell);
    assert qp.sq.queue.Contents() == contents;
    if db.Err? {
      r := db;
    } else if failure.Some? {
      r := Err(failure.value);
    } else {
      r := Ok;
    }
  }

  /** Requests that all pass validation fill the ring's free entries in
      order; the first one beyond them fails with ENOMEM. */
  lemma {:induction false} ValidSendsFillRoom(qp: Qp, wrs: seq<SendWr>, room: nat)
    requires forall j :: 0 <= j < |wrs| ==> ValidateSendWr(qp, wrs[j], SgeLength(wrs[j].sgList)) == Ok
    ensures Batch(SendCheck(qp), wrs, room).committed == if |wrs| <= room then |wrs| else room
    ensures Batch(SendCheck(qp), wrs, room).failure == if |wrs| <= room then None else Some(ENOMEM)
    decreases |wrs|
  {
    if wrs != [] && room > 0 {
      ValidSendsFillRoom(qp, wrs[1..], room - 1);
    }
  }

  // ---------------------------------------------------------------------
  // The receive path

  /** What one receive request meets: the ring's fullness first, then the
      scatter-gather limit. */
  function RecvStatus(rq: Wq<RecvWqe>, wr: RecvWr, room: nat): (r: Status)
    ensures room == 0 ==> r == Err(ENOMEM)
    ensures room > 0 && |wr.sgList| > rq.maxSge ==> r == Err(EINVAL)
    ensures r == Ok <==> room > 0 && |wr.sgList| <= rq.maxSge
  {
    if room == 0 then Err(ENOMEM)
    else if |wr.sgList| > rq.maxSge then Err(EINVAL)
    else Ok
  }

  function RecvCheck(rq: Wq<RecvWqe>): (check: (RecvWr, nat) -> Status)
    ensures forall w :: check(w, 0).Err?
  {
    (w: RecvWr, room: nat) => RecvStatus(rq, w, room)
  }

  /** The entry `rxe_post_one_recv` writes for a request. */
  function RecvWqeFor(wr: RecvWr): (wqe: RecvWqe)
    ensures wqe.wrId == wr.wrId && wqe.numSge == wqe.dma.numSge == |wr.sgList|
    ensures wqe.dma.length == wqe.dma.resid == SgeLength(wr.sgList)
    ensures SgeTotal(wr.sgList) < U32_LIMIT ==> wqe.dma.length == SgeTotal(wr.sgList)
    ensures wqe.dma.curSge == 0 && wqe.dma.sgeOffset == 0 && wqe.dma.payload == wr.sgList
  {
    var length := SgeLength(wr.sgList);
    RecvWqe(wr.wrId, |wr.sgList|, DmaInfo(length, length, 0, |wr.sgList|, 0, wr.sgList))
  }

  function RecvWqesFor(wrs: seq<RecvWr>): (s: seq<RecvWqe>)
    ensures |s| == |wrs|
  {
    seq(|wrs|, j requires 0 <= j < |wrs| => RecvWqeFor(wrs[j]))
  }

  /** `rxe_post_one_recv`: check for room, then the segment count, fill the
      producer slot and publish it. */
  method PostOneRecv(rq: Wq<RecvWqe>, wr: RecvWr) returns (r: Status)
    requires rq.queue.Valid()
    modifies rq.queue`producerIndex, rq.queue.data
    ensures rq.queue.Valid() && rq.queue.consumerIndex == old(rq.queue.consumerIndex)
    ensures r == RecvStatus(rq, wr, old(rq.queue.Room()))
    ensures r == Ok ==> rq.queue.Contents() == old(rq.queue.Contents()) + [RecvWqeFor(wr)]
    ensures r.Err? ==>
      && rq.queue.producerIndex == old(rq.queue.producerIndex)
      && rq.queue.data[..] == old(rq.queue.data[..])
  {
    var q := rq.queue;
    QueueFullIffNoRoom(q);
    if QueueFull(q) {
      return Err(ENOMEM);
    }
    if |wr.sgList| > rq.maxSge {
      return Err(EINVAL);
    }
    ProducerAddrNamesProducerSlot(q);
    var slot := IndexFromAddr(q, ProducerAddr(q));
    var length := SumSgeLengths(wr.sgList);
    q.data[slot] := RecvWqe(wr.wrId, |wr.sgList|, DmaInfo(length, length, 0, |wr.sgList|, 0, wr.sgList));
    AdvanceProducer(q);
    return Ok;
  }

  /** `rxe_post_recv`: post a list of receive requests (no doorbell). A null
      queue pair is only reachable once both pointer checks pass, where the
      source aborts; callers must not reach it. */
  method PostRecv(qp: Qp?, wrList: seq<RecvWr>, hasBadWr: bool) returns (r: Status, badWr: Option<nat>)
    requires qp != null ==> qp.Valid()
    requires hasBadWr && wrList != [] ==> qp != null
    modifies if qp != null then {qp.rq.queue, qp.rq.queue.data} else {}
    ensures !hasBadWr || wrList == [] ==> r == Err(EINVAL) && badWr == None
    ensures qp != null && (!hasBadWr || wrList == [] || qp.state == Reset) ==>
      r == Err(EINVAL) && badWr == None && unchanged(qp.rq.queue, qp.rq.queue.data)
    ensures qp != null && hasBadWr && wrList != [] && qp.state != Reset ==>
      var b := Batch(RecvCheck(qp.rq), wrList, old(qp.rq.queue.Room()));
      && qp.Valid()
      && badWr == (if b.failure.Some? then Some(b.committed) else None)
      && r == (if b.failure.Some? then Err(b.failure.value) else Ok)
      && qp.rq.queue.Contents() == old(qp.rq.queue.Contents()) + RecvWqesFor(wrList[..b.committed])
      && qp.rq.queue.consumerIndex == old(qp.rq.queue.consumerIndex)
  {
    if !hasBadWr || wrList == [] {
      return Err(EINVAL), None;
    }
    if qp.state == Reset {
      return Err(EINVAL), None;
    }
    ghost var contents0 := qp.rq.queue.Contents();
    var committed, failure := PostRecvList(qp.rq, wrList);
    badWr := if failure.Some? then Some(committed) else None;
    r := if failure.Some? then Err(failure.value) else Ok;
  }

  /** Extending a committed run of receive requests by one appends one entry. */
  lemma RecvWqesForSnoc(wrs: seq<RecvWr>, i: nat)
    requires i < |wrs|
    ensures RecvWqesFor(wrs[..i + 1]) == RecvWqesFor(wrs[..i]) + [RecvWqeFor(wrs[i])]
  {
  }

  /** The state of the `rxe_post_recv` loop after `committed` requests went
      in and, if `failure` is set, the next one failed. */
  ghost predicate RecvLoopInv(rq: Wq<RecvWqe>, wrList: seq<RecvWr>, room0: nat, contents0: seq<RecvWqe>,
                              committed: nat, failure: Option<Errno>)
    reads rq.queue, rq.queue.data
  {
    && committed <= |wrList| && committed <= room0
    && rq.queue.Valid()
    && (forall j :: 0 <= j < committed ==> RecvStatus(rq, wrList[j], room0 - j) == Ok)
    && rq.queue.Contents() == contents0 + RecvWqesFor(wrList[..committed])
    && (failure.None? ==> rq.queue.Room() == room0 - committed)
    && (failure.Some? ==>
          committed < |wrList| && RecvStatus(rq, wrList[committed], room0 - committed) == Err(failure.value))
  }

  /** One turn of the `rxe_post_recv` loop, kept apart from the loop so
      that the invariant is re-established by matching `RecvLoopInv`. */
  method PostRecvTurn(rq: Wq<RecvWqe>, wrList: seq<RecvWr>, i: nat,
                      ghost room0: nat, ghost contents0: seq<RecvWqe>)
    returns (failure: Option<Errno>)
    requires i < |wrList| && RecvLoopInv(rq, wrList, room0, contents0, i, None)
    modifies rq.queue`producerIndex, rq.queue.data
    ensures rq.queue.consumerIndex == old(rq.queue.consumerIndex)
    ensures failure.None? ==> RecvLoopInv(rq, wrList, room0, contents0, i + 1, None)
    ensures failure.Some? ==> RecvLoopInv(rq, wrList, room0, contents0, i, failure)
  {
    var res := PostOneRecv(rq, wrList[i]);
    if res.Err? {
      failure := Some(res.errno);
    } else {
      RecvWqesForSnoc(wrList, i);
      failure := None;
    }
  }

  /** The locked loop of `rxe_post_recv`: post requests in order until one
      fails. Every request before `committed` was accepted; the one at
      `committed`, if any, is the failure. */
  method PostRecvLoop(rq: Wq<RecvWqe>, wrList: seq<RecvWr>) returns (committed: nat, failure: Option<Errno>)
    requires rq.queue.Valid()
    modifies rq.queue`producerIndex, rq.queue.data
    ensures rq.queue.consumerIndex == old(rq.queue.consumerIndex)
    ensures failure.None? ==> committed == |wrList|
    ensures RecvLoopInv(rq, wrList, old(rq.queue.Room()), old(rq.queue.Contents()), committed, failure)
  {
    var q := rq.queue;
    ghost var room0 := q.Room();
    ghost var contents0 := q.Contents();
    failure := None;
    committed := 0;
    assert wrList[..0] == [];
    while committed < |wrList| && failure.None?
      invariant committed <= |wrList| && q.consumerIndex == old(q.consumerIndex)
      invariant RecvLoopInv(rq, wrList, room0, contents0, committed, failure)
      decreases |wrList| - committed, if failure.None? then 1 else 0
    {
      failure := PostRecvTurn(rq, wrList, committed, room0, contents0);
      if failure.None? {
        committed := committed + 1;
      }
    }
  }

  /** The loop's outcome is the batch semantics of the list against the
      ring's free entries. It wraps `PostRecvLoop` so that the loop's
      invariant and its translation into `Batch` are proved separately. */
  method PostRecvList(rq: Wq<RecvWqe>, wrList: seq<RecvWr>) returns (committed: nat, failure: Option<Errno>)
    requires rq.queue.Valid()
    modifies rq.queue`producerIndex, rq.queue.data
    ensures rq.queue.Valid() && rq.queue.consumerIndex == old(rq.queue.consumerIndex)
    ensures BatchOutcome(committed, failure) == Batch(RecvCheck(rq), wrList, old(rq.queue.Room()))
    ensures rq.queue.Contents() == old(rq.queue.Contents()) + RecvWqesFor(wrList[..committed])
  {
    ghost var room0 := rq.queue.Room();
    committed, failure := PostRecvLoop(rq, wrList);
    BatchStopsAt(RecvCheck(rq), wrList, room0, committed);
  }

  /** With room for both, a receive list whose second request has too many
      segments commits the first and reports EINVAL for the second. */
  lemma RecvStopsAtOversizedRequest(rq: Wq<RecvWqe>, wrs: seq<RecvWr>, room: nat)
    requires |wrs| >= 2 && room >= 2
    requires |wrs[0].sgList| <= rq.maxSge && |wrs[1].sgList| > rq.maxSge
    ensures Batch(RecvCheck(rq), wrs, room) == BatchOutcome(1, Some(EINVAL))
  {
    BatchStopsAt(RecvCheck(rq), wrs, room, 1);
  }

  // ---------------------------------------------------------------------
  // Completion polling

  function Min(a: int, b: int): int { if a <= b then a else b }

  /** One turn of the `rxe_poll_cq` loop: copy the oldest completion into
      `wc[i]` and release its slot. */
  method PollOne(q: QueueBuf<WorkCompletion>, wc: array<WorkCompletion>, i: nat)
    requires q.Valid() && !QueueEmpty(q)
    requires i < wc.Length && wc != q.data
    modifies q`consumerIndex, wc
    ensures q.Valid() && q.producerIndex == old(q.producerIndex)
    ensures q.Contents() == old(q.Contents())[1..]
    ensures wc[..] == old(wc[..])[i := old(q.Contents())[0]]
  {
    QueueEmptyIffNoEntries(q);
    ProducerAddrNamesProducerSlot(q);
    var src := IndexFromAddr(q, ConsumerAddr(q));
    ghost var live := q.Contents();
    assert q.SlotOf(0) == src;
    wc[i] := q.data[src];
    assert q.Contents() == live;
    AdvanceConsumer(q);
  }

  /** `rxe_poll_cq`: copy up to `ne` completions, oldest first, into `wc`,
      releasing each slot; stop early when the ring is empty. */
  method PollCq(cq: Cq, ne: i32, wc: array<WorkCompletion>) returns (npolled: i32)
    requires cq.queue.Valid()
    requires ne <= wc.Length && wc != cq.queue.data
    modifies cq.queue`consumerIndex, wc
    ensures cq.queue.Valid() && cq.queue.producerIndex == old(cq.queue.producerIndex)
    ensures npolled == Min(if ne < 0 then 0 else ne, |old(cq.queue.Contents())|)
    ensures wc[..npolled] == old(cq.queue.Contents())[..npolled]
    ensures wc[npolled..] == old(wc[npolled..])
    ensures cq.queue.Contents() == old(cq.queue.Contents())[npolled..]
  {
    var q := cq.queue;
    ghost var contents0 := q.Contents();
    npolled := 0;
    QueueEmptyIffNoEntries(q);
    while npolled < ne && !QueueEmpty(q)
      invariant q.Valid() && q.producerIndex == old(q.producerIndex)
      invariant 0 <= npolled <= |contents0| && (npolled == 0 || npolled <= ne)
      invariant q.Contents() == contents0[npolled..]
      invariant QueueEmpty(q) <==> npolled == |contents0|
      invariant wc[..npolled] == contents0[..npolled]
      invariant wc[npolled..] == old(wc[npolled..])
    {
      PollOne(q, wc, npolled);
      assert contents0[npolled..][1..] == contents0[npolled + 1..];
      npolled := npolled + 1;
      QueueEmptyIffNoEntries(q);
    }
  }
}

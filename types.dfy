/** The entities the user-space driver shares with its kernel peer and its
    callers: the work requests an application posts, the typed queue entries
    they become, the ring buffer that carries them, and the queue pair and
    completion queue that own rings. Wire layouts are replaced by typed
    records; the opcode-specific unions become tagged variants. */
module RxeTypes {
  import opened Bits

  /** The errno values the core reports. `Other` carries whatever the
      notification write to the device reported. */
  datatype Errno = EINVAL | ENOMEM | Other(code: int)

  datatype Option<T> = None | Some(value: T)

  /** `Result<(), Error>` of the source. */
  datatype Status = Ok | Err(errno: Errno)

  /** The value `check_qp_queue_full` latches into `qp.err` (libc::ENOSPC). */
  const ENOSPC: i32 := 28

  /** `IBV_SEND_INLINE` bit of `send_flags`. */
  const IBV_SEND_INLINE: u32 := 8

  datatype Opcode =
    | RdmaWrite | RdmaWriteWithImm | Send | SendWithImm | RdmaRead
    | AtomicCmpAndSwp | AtomicFetchAndAdd | LocalInv | BindMw | SendWithInv
    | Tso | Driver1
  {
    predicate IsAtomic() { this == AtomicCmpAndSwp || this == AtomicFetchAndAdd }
  }

  datatype QpType = RC | UC | UD | RawPacket | XrcSend | XrcRecv | Driver

  datatype QpState = Reset | Init | Rtr | Rts | Sqd | Sqe | Error | Unknown

  /** One scatter-gather element: `length` bytes of application memory at `addr`. */
  datatype Sge = Sge(addr: u64, length: u32, lkey: u32)

  /** A scatter-gather list; its length is the request's `num_sge`, a C int. */
  type SgList = s: seq<Sge> | |s| < 0x8000_0000

  /** Application memory as the inline copy reads it, byte by byte. */
  type Memory = nat -> u8

  /** Resolved routing data of an address handle, copied verbatim into a
      datagram entry. */
  datatype AddressVector = AddressVector(bytes: seq<u8>)

  /** The driver's address handle: its routing data and the kernel's index
      for it (0 when the kernel keeps no copy). */
  datatype AddressHandle = AddressHandle(av: AddressVector, ahNum: i32)

  /** The opcode-specific part (`wr` union) of an application send request. */
  datatype WrPayload =
    | NoPayload
    | Rdma(remoteAddr: u64, rkey: u32)
    | Atomic(remoteAddr: u64, compareAdd: u64, swap: u64, rkey: u32)
    | Ud(ahPtr: u64, ah: AddressHandle, remoteQpn: u32, remoteQkey: u32)
  {
    /** The union's leading 64-bit word, read as `rdma.remote_addr` or
        `atomic.remote_addr`. The RDMA and atomic views put the remote
        address there; the datagram view puts the address handle pointer
        there, whose bits `ahPtr` stands for. */
    function RemoteAddr(): u64 {
      match this
      case Rdma(a, _) => a
      case Atomic(a, _, _, _) => a
      case Ud(p, _, _, _) => p
      case NoPayload => 0
    }
  }

  datatype MemoryRegion = MemoryRegion(lkey: u32)
  datatype MemoryWindow = MemoryWindow(rkey: u32)
  datatype BindInfo = BindInfo(mr: MemoryRegion, addr: u64, length: u64, mwAccessFlags: u32)
  /** The memory-window bind arguments (`bind_mw` union member). */
  datatype BindMwArgs = BindMwArgs(mw: MemoryWindow, rkey: u32, bindInfo: BindInfo)

  /** An application send request (`ibv_send_wr`); the list link is the
      position in a sequence. */
  datatype SendWr = SendWr(
    wrId: u64,
    sgList: SgList,
    opcode: Opcode,
    sendFlags: u32,
    immData: u32,
    wr: WrPayload,
    bindMw: BindMwArgs)

  /** An application receive request (`ibv_recv_wr`). */
  datatype RecvWr = RecvWr(wrId: u64, sgList: SgList)

  /** The opcode-specific part of the kernel's send request (`rxe_send_wr.wr`).
      A datagram entry's `av` is None while it is left zero-filled. */
  datatype KernelWrPayload =
    | KNone
    | KRdma(remoteAddr: u64, rkey: u32)
    | KAtomic(remoteAddr: u64, compareAdd: u64, swap: u64, rkey: u32)
    | KUd(remoteQpn: u32, remoteQkey: u32, ahNum: u32, av: Option<AddressVector>)
    | KMw(addr: u64, length: u64, mrLkey: u32, mwRkey: u32, rkey: u32, access: u32)

  /** The kernel's copy of a send request (`rxe_send_wr`). */
  datatype KernelSendWr = KernelSendWr(
    wrId: u64,
    numSge: u32,
    opcode: Opcode,
    sendFlags: u32,
    immData: u32,
    wr: KernelWrPayload)

  /** The payload area of a send entry: inline bytes or a copy of the
      scatter-gather list. */
  datatype SendData = InlineData(bytes: seq<u8>) | SgeArray(sges: seq<Sge>)

  /** DMA bookkeeping of an entry (`rxe_dma_info`). */
  datatype DmaInfo<D> = DmaInfo(
    length: u32,
    resid: u32,
    curSge: u32,
    numSge: u32,
    sgeOffset: u32,
    payload: D)

  /** A send queue entry (`rxe_send_wqe`), the fields the driver writes. */
  datatype SendWqe = SendWqe(
    wr: KernelSendWr,
    iova: u64,
    state: u32,
    ssn: u32,
    dma: DmaInfo<SendData>)

  /** A receive queue entry (`rxe_recv_wqe`). */
  datatype RecvWqe = RecvWqe(wrId: u64, numSge: u32, dma: DmaInfo<seq<Sge>>)

  /** A work completion (`ibv_wc`), copied verbatim to the caller. */
  datatype WorkCompletion = WorkCompletion(
    wrId: u64,
    status: u32,
    opcode: u32,
    vendorErr: u32,
    byteLen: u32,
    immData: u32,
    qpNum: u32,
    srcQp: u32,
    wcFlags: u32,
    pkeyIndex: u16,
    slid: u16,
    sl: u8,
    dlidPathBits: u8)

  /** The shared ring buffer (`rxe_queue_buf`): a fixed header and an element
      array of `index_mask + 1` slots of `2^log2_elem_size` bytes. The
      producer and consumer indices are the only fields that change. */
  class QueueBuf<T> {
    const log2ElemSize: u32
    const indexMask: u32
    var producerIndex: u32
    var consumerIndex: u32
    const data: array<T>

    constructor (log2ElemSize: u32, indexMask: u32, data: array<T>)
      ensures this.log2ElemSize == log2ElemSize && this.indexMask == indexMask && this.data == data
      ensures producerIndex == 0 && consumerIndex == 0
    {
      this.log2ElemSize := log2ElemSize;
      this.indexMask := indexMask;
      this.data := data;
      producerIndex := 0;
      consumerIndex := 0;
    }

    function Capacity(): nat { indexMask + 1 }

    function ElemSize(): nat { Pow2(log2ElemSize) }

    /** The header facts the kernel fixes at creation: a power-of-two
        capacity, a shift that fits a u32, an element area addressable with
        32-bit offsets, and as many slots as the capacity. */
    ghost predicate Shaped() {
      && IsLowMask(indexMask)
      && log2ElemSize < 32
      && Capacity() * ElemSize() <= U32_LIMIT
      && data.Length == Capacity()
    }

    ghost predicate Valid()
      reads this
    {
      Shaped() && producerIndex <= indexMask && consumerIndex <= indexMask
    }

    /** Number of live entries, those in `[consumer, producer)` round the ring. */
    ghost function Count(): (n: nat)
      reads this
      requires Valid()
      ensures n < Capacity()
    {
      if consumerIndex <= producerIndex then producerIndex - consumerIndex
      else Capacity() - consumerIndex + producerIndex
    }

    /** The slot that holds the i-th live entry. */
    ghost function SlotOf(i: nat): (k: nat)
      reads this
      requires Valid() && i < Capacity()
      ensures k < Capacity()
    {
      if consumerIndex + i < Capacity() then consumerIndex + i
      else consumerIndex + i - Capacity()
    }

    /** The live entries, oldest first. */
    ghost function Contents(): (s: seq<T>)
      reads this, data
      requires Valid()
      ensures |s| == Count()
    {
      seq(Count(), i requires Valid() && 0 <= i < Count() reads this, data => data[SlotOf(i)])
    }

    /** Entries that can still be published: one slot always stays unused. */
    ghost function Room(): nat
      reads this
      requires Valid()
    {
      Capacity() - 1 - Count()
    }
  }

  /** A work queue (`rxe_wq`): a ring and the limits requests are checked against. */
  datatype Wq<T> = Wq(queue: QueueBuf<T>, maxSge: u32, maxInline: u32)

  /** The device context: the command file descriptor, seen through the log of
      post-send commands (each naming a queue pair handle) written to it. */
  class Context {
    var postSendCommands: seq<u32>

    constructor ()
      ensures postSendCommands == []
    {
      postSendCommands := [];
    }
  }

  /** A queue pair (`rxe_qp` with the fields of its `ibv_qp` the core reads). */
  class Qp {
    const sq: Wq<SendWqe>
    const rq: Wq<RecvWqe>
    const qpType: QpType
    const state: QpState
    const handle: u32
    const context: Context
    var ssn: u32
    var curIndex: u32
    var err: i32

    constructor (sq: Wq<SendWqe>, rq: Wq<RecvWqe>, qpType: QpType, state: QpState,
                 handle: u32, context: Context)
      ensures this.sq == sq && this.rq == rq && this.qpType == qpType
      ensures this.state == state && this.handle == handle && this.context == context
      ensures ssn == 0 && curIndex == 0 && err == 0
    {
      this.sq := sq;
      this.rq := rq;
      this.qpType := qpType;
      this.state := state;
      this.handle := handle;
      this.context := context;
      ssn := 0;
      curIndex := 0;
      err := 0;
    }

    ghost predicate Valid()
      reads sq.queue, rq.queue
    {
      sq.queue.Valid() && rq.queue.Valid()
    }
  }

  /** A completion queue (`rxe_cq`): a kernel-filled ring and a local read cursor. */
  class Cq {
    const queue: QueueBuf<WorkCompletion>
    var curIndex: u32

    constructor (queue: QueueBuf<WorkCompletion>)
      ensures this.queue == queue && curIndex == 0
    {
      this.queue := queue;
      curIndex := 0;
    }
  }
}

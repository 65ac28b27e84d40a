# urxe user-space RXE driver: ring buffers and the work-request lifecycle

This project models the core of the user-space provider for the Linux soft-RoCE
(RXE) device, in Dafny:

- the single-producer/single-consumer ring buffer that the driver shares with the
  kernel (`librxe-sys/src/queue.rs`): index advance by masking, empty and full
  tests, index loads and stores, slot addresses and their inverse, and the
  completion-queue and queue-pair read cursors;
- the work-request lifecycle (`librxe/src/lib.rs`): posting a list of send
  requests (validation, conversion into the kernel's layout, building the send
  entry in the producer slot, publishing it, ringing the doorbell), posting
  receive requests, and polling completions into the caller's array.

Modules:

- `Bits` (`bits.dfy`): the fixed-width integers `u8` … `u64` and `i32`, and 32-bit
  wrap-around. It also defines bitwise AND, shifts, and the lemma that masking with
  `2^k - 1` is reduction modulo `2^k`.
- `RxeTypes` (`types.dfy`): the records the driver reads and writes. The
  opcode-specific unions are tagged variants. The ring is the class `QueueBuf`, with
  its producer and consumer indices and its slot array, plus the ghost views
  `Count`, `Contents` (live entries, oldest first) and `Room`. The queue pair `Qp`,
  the completion queue `Cq` and the device `Context` are classes.
- `RxeQueue` (`queue.dfy`): the ring operations.
- `Rxe` (`lib.dfy`): the send, receive and poll paths. Each method is proved
  against a specification function. Posting a list is specified by `Batch`, which
  states how many requests are committed and which error stops the list. The new
  ring contents are the old contents followed by the entries built from the
  committed requests.

Notable behaviour of the code, which the model keeps:

- `rxe_post_send` never consults the queue pair's latched error (`qp.err`).
  `check_qp_queue_full` is a separate operation that nothing on the send path
  calls.
- `rxe_poll_cq` decides emptiness with `queue_empty` (producer against consumer
  index) and advances the consumer index. It never uses the completion queue's own
  `cur_index`.
- `rxe_post_recv` checks only the `bad_wr` and request-list pointers for null. A
  null queue pair fails in `to_rqp`, so `PostRecv` requires one whenever the list
  is non-empty and `bad_wr` is given.
- Rings always have a power-of-two number of slots (`index_mask + 1`), one of which
  stays unused. A ring whose slot count is not a power of two is not a valid ring here.

## Model

| member | source | states |
|---|---|---|
| Bits.MaskIsMod | librxe-sys/src/queue.rs:40-44 | AND with a mask `2^k - 1` is reduction modulo `2^k`, so masking an index wraps it round the ring |
| Bits.WrappingAdd32 | librxe/src/lib.rs:300 | unsigned 32-bit addition wraps: the sum when it fits, otherwise the sum minus 2^32 |
| Bits.ShlThenShr | librxe-sys/src/queue.rs:96-112 | a left shift then a right shift by the same amount gives the value back when no bit leaves the 32 bits |
| RxeQueue.NextIndex | librxe-sys/src/queue.rs:40-51 | `(index + 1) & mask` is always a valid index; on a valid ring it is the successor, wrapping from the last slot to 0 |
| RxeQueue.QueueEmpty | librxe-sys/src/queue.rs:26-30 | on a valid ring, `queue_empty` holds exactly when no entry is live |
| RxeQueue.QueueFull | librxe-sys/src/queue.rs:33-37 | on a valid ring, `queue_full` holds exactly when no room is left for another entry |
| RxeQueue.QueueEmptyIffNoEntries | librxe-sys/src/queue.rs:26-30 | `queue_empty` holds exactly when the ring has no live entries |
| RxeQueue.QueueFullIffNoRoom | librxe-sys/src/queue.rs:33-37 | `queue_full` holds exactly when no room is left, i.e. exactly when every slot but one is live |
| RxeQueue.EmptyFullExclusive | librxe-sys/src/queue.rs:26-37 | a ring of at least two slots is never empty and full at once |
| RxeQueue.SingleSlotRingEmptyAndFull | librxe-sys/src/queue.rs:26-37 | a one-slot ring (mask 0) is both empty and full when its indices agree |
| RxeQueue.ContentsAfterPublish | librxe-sys/src/queue.rs:40-44 | moving the producer on by one appends the entry in the old producer slot to the live entries |
| RxeQueue.AdvanceProducer | librxe-sys/src/queue.rs:40-44 | publishes the producer slot: the live entries gain that entry at the end, the consumer index is unchanged, and advancing a full ring makes it look empty |
| RxeQueue.AdvanceConsumer | librxe-sys/src/queue.rs:47-51 | releases the oldest entry: the live entries lose their head, the producer index is unchanged, and advancing an empty ring makes it look full |
| RxeQueue.LoadProducerIndex | librxe-sys/src/queue.rs:54-56 | the loaded producer index lies within the ring |
| RxeQueue.LoadConsumerIndex | librxe-sys/src/queue.rs:64-66 | the loaded consumer index lies within the ring |
| RxeQueue.StoreProducerIndex | librxe-sys/src/queue.rs:59-61 | a later load sees the stored producer index; the consumer index is untouched |
| RxeQueue.StoreConsumerIndex | librxe-sys/src/queue.rs:69-71 | a later load sees the stored consumer index; the producer index is untouched |
| RxeQueue.StoreBothIndices | librxe-sys/src/queue.rs:171-176 | storing one value into both indices leaves the ring empty |
| RxeQueue.AddrFromIndex | librxe-sys/src/queue.rs:96-104 | the offset of an index is its slot number (index modulo capacity) times the element size; it is element-aligned and the whole element lies inside the area |
| RxeQueue.SlotInsideArea | librxe-sys/src/queue.rs:96-104 | slot `k` of `cap` slots of `size` bytes ends inside the area and starts on an element boundary |
| RxeQueue.MaskKeepsValidIndex | librxe-sys/src/queue.rs:74-93 | masking an index that is already within the ring leaves it unchanged |
| RxeQueue.ProducerAddr | librxe-sys/src/queue.rs:74-82 | on a valid ring, the unmasked shift of the producer index equals the masked slot address |
| RxeQueue.ConsumerAddr | librxe-sys/src/queue.rs:85-93 | on a valid ring, the unmasked shift of the consumer index equals the masked slot address |
| RxeQueue.IndexFromAddr | librxe-sys/src/queue.rs:107-112 | the index recovered from any offset lies within the ring |
| RxeQueue.AddrIndexRoundTrip | librxe-sys/src/queue.rs:96-112 | index to offset and back gives the index modulo the capacity, which is the masked index |
| RxeQueue.ProducerAddrNamesProducerSlot | librxe-sys/src/queue.rs:74-93 | the producer and consumer offsets map back to the producer and consumer indices |
| RxeQueue.AdvanceFromTestIndex | librxe-sys/src/queue.rs:178-182 | in the 65536-slot test ring, advancing from 0xCCCC gives 0xCCCD |
| RxeQueue.ProducerAddrIsShiftedIndex | librxe-sys/src/queue.rs:184-193 | the producer offset is the producer index times the element size whenever that product fits in 32 bits |
| RxeQueue.TestProducerAddr | librxe-sys/src/queue.rs:184-193 | in the test ring (1 KiB elements, producer 0xCCCC) the producer offset is 0xCCCC << 10 |
| RxeQueue.AdvanceCqCurIndex | librxe-sys/src/queue.rs:115-119 | the completion queue's cursor moves to the masked successor and stays within the ring |
| RxeQueue.CheckCqQueueEmpty | librxe-sys/src/queue.rs:121-127 | holds exactly when the read cursor equals the producer index; while the cursor tracks the consumer index, that is exactly when the ring has no live entries |
| RxeQueue.AdvanceQpCurIndex | librxe-sys/src/queue.rs:130-133 | the queue pair's cursor moves to the masked successor and stays within the ring |
| RxeQueue.LatchedQpError | librxe-sys/src/queue.rs:136-146 | a latched error is kept; otherwise the error becomes ENOSPC exactly when the consumer sits right after the cursor; nothing else can appear |
| RxeQueue.LatchIsSticky | librxe-sys/src/queue.rs:136-146 | once an error is latched, no later check clears or changes it |
| RxeQueue.CheckQpQueueFull | librxe-sys/src/queue.rs:136-146 | `qp.err` becomes the latched error and is returned; a non-zero error is never overwritten |
| Rxe.SumSgeLengths | librxe/src/lib.rs:119-125 | the summed length is the total of the SGE lengths modulo 2^32, and the exact total when it fits |
| Rxe.InlineBytes | librxe/src/lib.rs:254-272 | the inline payload is as long as the total SGE length |
| Rxe.InlineBytePlacement | librxe/src/lib.rs:263-271 | byte `t` of SGE `j` lands at offset (lengths of SGEs before `j`) + `t` of the inline payload, copied from address `addr + t` |
| Rxe.CopyInline | librxe/src/lib.rs:254-272 | the copy loop produces exactly the concatenated SGE bytes |
| Rxe.ValidateSendWr | librxe/src/lib.rs:140-177 | validation reports success or EINVAL and nothing else |
| Rxe.ValidateSendWrAcceptsExactly | librxe/src/lib.rs:140-177 | a request is accepted exactly when it has at most `max_sge` SGEs, and an atomic one has at least 8 bytes and an 8-byte-aligned remote address. An inline one must fit in `max_inline`. A memory-window bind must have no length, no SGEs, no immediate data, and an RC or UC queue pair |
| Rxe.InlineLimitIsInclusive | librxe/src/lib.rs:157-159 | an inline payload of exactly `max_inline` bytes passes and one byte more fails |
| Rxe.AhNumAsU32 | librxe/src/lib.rs:206 | the signed address-handle number is reinterpreted as unsigned: unchanged when non-negative, plus 2^32 when negative |
| Rxe.KernelPayload | librxe/src/lib.rs:192-227 | the kernel payload kind follows the opcode: RDMA opcodes give RDMA fields, atomics atomic fields, a bind gives window fields, and a send gives datagram fields exactly on a UD queue pair (with no address vector yet). RDMA and atomic payloads carry the union's leading word as remote address |
| Rxe.ConvertSendWr | librxe/src/lib.rs:179-228 | the kernel request carries the caller's id, SGE count, opcode, flags and immediate data |
| Rxe.ConvertKeepsPayload | librxe/src/lib.rs:190-226 | an RDMA request's payload is exactly its remote address and key; an atomic's is exactly its remote address, operands and key; a datagram send on a UD queue pair gets exactly the remote QPN, remote QKey and the handle's number as unsigned (no address vector yet); a bind gets exactly the bind address, length, region key, window key, new key and access flags; a send on any other queue pair type carries none |
| Rxe.SendWqeFor | librxe/src/lib.rs:237-301 | the entry holds the converted request. The address vector is copied in exactly for a datagram send on a UD queue pair whose address handle has number 0. `iova` is the union's leading word, the sequence number is the given one, and the payload is the inline bytes or the SGE list as the inline flag says |
| Rxe.SendWqeBookkeeping | librxe/src/lib.rs:273-301 | a built entry records the request's length as its DMA length and residue, its SGE count, and the given sequence number; it holds the payload inline or the SGE list |
| Rxe.AcceptedInlinePayloadFits | librxe/src/lib.rs:157-159 | an accepted inline request whose length does not wrap puts at most `max_inline` bytes into the entry |
| Rxe.InlineCheckUsesWrappedTotal | librxe/src/lib.rs:119-159 | two SGEs of 2^31 bytes each pass the inline limit check (their summed length wraps to 0) while the bytes to copy number 2^32 |
| Rxe.ValidateSendWrExact | librxe/src/lib.rs:157-159 | the inline limit checked on the exact segment total: it accepts only what the wrapped check accepts, and agrees with it whenever the total fits in 32 bits |
| Rxe.ExactInlineCheckBoundsCopy | librxe/src/lib.rs:157-159 | with the exact check, an accepted inline request never puts more than `max_inline` bytes into the entry, for every segment list |
| Rxe.ExactInlineCheckRefusesWrappedTotal | librxe/src/lib.rs:119-159 | the exact check refuses the two-segment request that the wrapped check accepts |
| Rxe.Batch | librxe/src/lib.rs:20-29 | a list walk commits at most the list length and at most the room; it reports no failure exactly when it commits the whole list |
| Rxe.BatchSpec | librxe/src/lib.rs:20-29 | every committed request passed its check with the room left at its turn, and the reported failure is the check of the first uncommitted request |
| Rxe.BatchStopsAt | librxe/src/lib.rs:20-29 | if the first `i` requests pass and request `i` fails, the walk commits `i` and reports that failure |
| Rxe.SendStatus | librxe/src/lib.rs:114-138 | validation comes first: a request that fails it gives EINVAL whatever the room. A valid request gives ENOMEM exactly when no room is left, and is accepted exactly when it is valid and there is room |
| Rxe.InitSendWqe | librxe/src/lib.rs:230-304 | the sequence number goes up by one with wrap-around, and only the target slot changes: it receives the entry built from the request with the new sequence number |
| Rxe.ProducerSlotNotLive | librxe-sys/src/queue.rs:74-82 | the producer slot never holds a live entry, so building an entry there disturbs nothing the consumer may read |
| Rxe.PostOneSend | librxe/src/lib.rs:114-138 | the outcome is the request's status at the current room. On success the built entry is appended. On ENOMEM the live entries are unchanged but the sequence number was consumed and the non-live producer slot holds the built entry. On EINVAL nothing changes. Unless validation failed, exactly the old producer slot of the slot array changes |
| Rxe.PostSendDb | librxe/src/lib.rs:306-329 | the doorbell appends one post-send command naming the queue pair to the device's command log |
| Rxe.SsnAfterIsModular | librxe/src/lib.rs:300 | `n` wrapping increments of the sequence number add `n` modulo 2^32 |
| Rxe.PostSendLoop | librxe/src/lib.rs:20-29 | the loop commits requests in order, each accepted at the room left at its turn. The ring gains their entries, numbered on from the old sequence number. It stops at the first failure, which is that request's status, and it stops only then or at the end of the list |
| Rxe.PostSendList | librxe/src/lib.rs:20-29 | the walk over the list stops as `Batch` says; the ring gains the entries of the committed requests, and the sequence number advances once per committed request plus once for a request refused for lack of room |
| Rxe.PostSend | librxe/src/lib.rs:4-42 | a null queue pair, empty list or missing `bad_wr` gives EINVAL and changes nothing. Otherwise the committed requests' entries are appended and the doorbell is always rung. The doorbell's error takes precedence over the list's error. `bad_wr` names the first uncommitted request |
| Rxe.ValidSendsFillRoom | librxe/src/lib.rs:20-29 | a list of valid requests is committed in full when it fits, and otherwise up to the room, stopping with ENOMEM |
| Rxe.RecvStatus | librxe/src/lib.rs:331-344 | a full ring gives ENOMEM whatever the request; with room, a request with more than `max_sge` SGEs gives EINVAL; a receive request is accepted exactly when there is room and it has at most `max_sge` SGEs |
| Rxe.RecvWqeFor | librxe/src/lib.rs:344-375 | the receive entry carries the id, the SGE count and the SGE list. Its DMA length and residue are the SGE total, wrapped to 32 bits and exact when it fits. Its cursors start at zero |
| Rxe.PostOneRecv | librxe/src/lib.rs:331-379 | the outcome is the request's status at the current room; on success the entry is appended; on an error the ring is unchanged |
| Rxe.PostRecvLoop | librxe/src/lib.rs:63-72 | the loop commits receive requests in order, each accepted at the room left at its turn. The ring gains their entries, and the loop stops at the first failure, which is that request's status |
| Rxe.PostRecvList | librxe/src/lib.rs:62-72 | the walk stops as `Batch` says and the ring gains the entries of the committed receive requests |
| Rxe.PostRecv | librxe/src/lib.rs:44-82 | an empty list or missing `bad_wr` gives EINVAL. A queue pair in RESET gives EINVAL. Otherwise the committed entries are appended, `bad_wr` names the first uncommitted request, and the list's error is returned |
| Rxe.RecvStopsAtOversizedRequest | librxe/src/lib.rs:62-72 | a receive list stops at the first request with too many SGEs, with EINVAL, after committing those before it |
| Rxe.PollOne | librxe/src/lib.rs:97-104 | one completion is copied from the consumer slot to the caller's array and released from the ring |
| Rxe.PollCq | librxe/src/lib.rs:84-112 | the number polled is the lesser of the requested count (none when negative) and the completions available. The caller's array receives them oldest first and is untouched beyond them. Exactly those completions leave the ring |

## Left out

- Atomics and memory orderings on the ring indices are not modelled, and neither are the spin locks: the send queue's around the `rxe_post_send` loop, the receive queue's around the `rxe_post_recv` loop, and the completion queue's around the `rxe_poll_cq` loop. Each operation runs alone, and index loads and stores are plain field accesses.
- Rxe.PostSendDb: `post_send_db` writes a command to the device file. It is modelled as an append to the context's command log plus an outcome supplied by the caller. The write itself comes from the kernel, outside this model. The source panics (`unwrap`) when the write fails, and returns the current errno only after a short write. The `doorbell` parameter accepts any error, so it over-approximates those two cases. The panic is not modelled.
- Memory layout and ABI are not modelled: the padding, pointer arithmetic and casts between `ibv_*` and `rxe_*` structures. Entries are typed records and slot addresses are byte offsets from the start of the element area. Fields of a reused slot that the driver does not write are not modelled.
- A negative `num_sge` is not modelled: scatter-gather lists are sequences, so their length is never negative.
- Rxe.KernelPayload: the source reinterprets the raw bytes when it reads a union member other than the one the opcode selects. The model zeroes that member's fields, except the leading 64-bit word. That word is the remote address in the RDMA and atomic views and the address handle pointer's bits (`ahPtr`) in the datagram view, and it is zero for a request with no payload. So an RDMA or atomic opcode with a datagram payload reads the pointer's bits as its remote address, both in the entry and in the atomic alignment check.
- Rxe.SendWqeFor: the source copies the address handle's vector whenever the queue pair is UD and the handle's number is 0, whatever the opcode. The model copies it only into a datagram send, the one entry kind that has a field for it. It takes `iova` from the union's leading word for every opcode; for a datagram send that is the address handle pointer's bits, as in the source.
- The `expect` panics on a bad pointer are not modelled. For `to_rqp` and `to_rcq` the model takes a queue pair or completion queue object, which `PostRecv` requires when it would be reached. For `to_rah` it is different. On a UD queue pair the source looks up the address handle from the union's leading word: in `init_send_wqe` for every opcode, and in `convert_send_wr` for sends. A null word there makes the source panic. The model accepts such a request instead: a datagram send with no datagram payload gets zero datagram fields. The handle's pointer bits `ahPtr` and the handle `ah` are independent fields of the datagram payload, and nothing ties them together; in particular a null `ahPtr` with a handle of number 0 still has that handle's address vector copied in.
- Rxe.InitSendWqe, Rxe.PostOneSend: the size of a slot's inline data area is not modelled; an entry holds any number of inline bytes. In the source the inline copy writes from the producer slot onwards, so an inline payload larger than the area overruns the following slots, live ones included. The one-slot frame of these contracts does not show that overrun; see the finding below.
- Debug builds panic on overflow of the length sum, of `ssn + 1`, and of the index increments `+ 1` in `queue_full`, `advance_producer`, `advance_consumer`, `advance_cq_cur_index`, `advance_qp_cur_index` and `check_qp_queue_full`. An index at 2^32 - 1 is reachable through the cursors, which those operations take as any u32. The model follows release builds, which wrap; for the index increments the mask drops the carry, so the model adds without truncating and then masks.
- Rxe.PostSend, Rxe.PostRecv: on the early EINVAL path the source leaves `*bad_wr` untouched. The model reports no index there.

## Findings

| source | as written | input that shows it | evidently intended | confidence | as-written member | corrected member |
|---|---|---|---|---|---|---|
| librxe/src/lib.rs:119-159 | the SGE lengths are summed in a u32 that wraps in release builds, and the inline limit is checked on that wrapped sum; the copy loop then copies every segment in full | an inline send with two SGEs of 2^31 bytes each: the sum wraps to 0, the check passes for any `max_inline`, and 2^32 bytes are copied from the producer slot onwards | compare the inline limit with the exact total, so an accepted inline payload never exceeds `max_inline` | medium, not executed | Rxe.InlineCheckUsesWrappedTotal | Rxe.ValidateSendWrExact, Rxe.ExactInlineCheckBoundsCopy |

The posting path (`PostOneSend`, `PostSend`) keeps the check as written, since it models
`post_one_send` as it is; `ValidateSendWrExact` is the intended check, with
`ExactInlineCheckBoundsCopy` and `ExactInlineCheckRefusesWrappedTotal` proved about it.

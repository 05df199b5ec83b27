# Verified models of dswifi and its Mbed TLS slice

dswifi drives the Nintendo DS and DSi wireless hardware from two CPUs that share memory, and carries the part of
Mbed TLS that it needs. This project models the parts of both whose correctness is hard to see from any one
function, and proves what they are for. All results are for every input, every run or every interleaving.

* **Buffer allocator** (`HeapModel`, `HeapTheorems`, `HeapOrder`, `HeapMemory`, `HeapAlloc`). One buffer, an address-ordered block
  chain and an independent free list. The invariant is local (each header and its four neighbours, plus a measure that falls
  along `next_free`); the global shape of chain and list, soundness of live allocations and restoration of the
  initial heap follow from it. `HeapMemory` lays the headers out in bytes and takes the results to runs in which
  clients write into their payloads. `HeapAlloc` is the allocator itself: it reads and writes headers in the bytes
  of the buffer, and its map of headers is ghost.
* **Packet ring** (`RingModel`, `RingTheorems`, `Ring`, `RingTransmit`). The single-producer, single-consumer queue
  between the CPUs as a machine of interleaved steps: sampling the read index, the two markers, arbitrary writes inside the
  region, trailing stop marker, write index, size word; and on the other side looking, fetching byte by byte and
  moving on. `Ring` is the code of each side, run without interference, on the shared buffer; `RingTransmit` is the
  transmit reader of the NTR driver.
* **Key wrap, CBC with padding, XTS, CTR** (`KeyWrap`, `KeyWrapRfc`, `KeyWrapCode`, `Cbc`, `Padding`, `CipherSpec`,
  `CipherLayer`, `Gf128`, `Xts`, `Ctr`) over any 16-byte permutation E with inverse D.
* **AES** (`Aes`, `AesLayers`, `AesCode`, `AesBytes`): cipher, inverse cipher and equivalent inverse cipher by the laws of
  their layers, and the table rounds and key schedules of the code. `AesCode.BlocksUndo` is what the modes ask of
  their E and D.
* **SHA-1, HMAC, PBKDF2** (`Sha1Compress`, `Sha1`, `Hmac`, `Pbkdf2`): the compression function against FIPS 180-4,
  and the incremental layers against their one-shot forms, for every split of the input.
* **Branch-free primitives** (`ConstantTime`, `CtMemory`): the C fallbacks on 32-bit words, with the bit operators
  written out bit by bit.
* **Saved and scanned access points** (`Crc16`, `AccessPoints`).

`Bytes` and `LittleEndian` hold what the modules share. `size_t` is 32 bits wide, as on the target; sums and products that can wrap
are written to wrap.

Some layers know the function below them only as an opaque parameter (`mask`, `C`, `H`, `prf`, `count`, `bump`,
`next`) together with a predicate such as `IsCounter` or `IsCompress` that says, for every argument someone
asks about, what its value is. The entry points (`NistKwUnwrap`, `HashChunks`, `HmacTwice`, `Pbkdf2HmacSha1`,
`CtrChunks`, `CryptXts`, `SetKeyEnc`) put the real function in.

## What turned out different from what one might expect

* `check_all_free` can report an empty heap while blocks are live (`CheckAllFreeIsMisled`); `CheckAllFree` says
  exactly when it is right.
* A packet of size 0 stops the ring's reader for good (`EmptyPacketBlocks`, `EmptyPacketRun`), because its size word
  is the stop marker; `RestsExactly` says that nothing else does.
* The NTR transmit reader steps over the size word only of a packet that is too long for its destination. It then
  stands on the packet's first word, which is 0 in everything the producers queue, takes it for the stop marker and
  never sends anything again (`SkipJams`, `SkipIsFinal`, `JammingRun`). Nothing that was not committed is ever sent
  (`TxRunKeeps`), and the reader is stuck exactly when it has stepped over a packet (`StuckExactly`).
* The ring's allocator would grant a packet larger than the buffer if the 32-bit sum wrapped (`OversizedGranted`),
  and the size check of key wrap would pass if the wrapped length did (`SizeCheckIsExact`).
* Decryption with plain zero padding returns the message exactly for the messages that `CipherSpec.Survives` admits.
* The free of the allocator stores its fields in another order than the model: there the block is taken off the
  free list before its size and `next` change. The stores do not touch the same fields, so the result is the same.

## Model

| member | source | states |
|---|---|---|
| `HeapModel.Apart` | `mbedtls/library/memory_buffer_alloc.twl.c:296-312` | two blocks of a consistent chain never overlap, however far apart they are on it |
| `HeapModel.TakeKeepsInv` | `mbedtls/library/memory_buffer_alloc.twl.c:255-272` | handing out a whole block keeps chain, free list and coalescing |
| `HeapModel.SplitKeepsInv` | `mbedtls/library/memory_buffer_alloc.twl.c:296-332` | so does splitting one and leaving the remainder in its place on the free list |
| `HeapModel.MergePrevKeeps` | `mbedtls/library/memory_buffer_alloc.twl.c:405-421` | regrouping a freed block with the free block before it keeps the chain and the list; only the gap behind it may still be open |
| `HeapModel.UnlinkDetaches` | `mbedtls/library/memory_buffer_alloc.twl.c:433-443` | taking a block off the free list leaves a list without it |
| `HeapModel.AbsorbKeepsInv` | `mbedtls/library/memory_buffer_alloc.twl.c:425-463` | regrouping with the free block after it, taking over its list place, restores the whole invariant |
| `HeapModel.PrependKeepsInv` | `mbedtls/library/memory_buffer_alloc.twl.c:468-474` | so does prepending a block that merged with nothing |
| `HeapTheorems.FreeListIsExact` | `mbedtls/library/memory_buffer_alloc.twl.c:199-479` | from the local links alone: the free list is one doubly linked list without cycles that holds exactly the unallocated blocks, each once |
| `HeapTheorems.ChainIsExact` | `mbedtls/library/memory_buffer_alloc.twl.c:153-197` | the block chain tiles the buffer exactly, in address order, holds every block, and next and prev of each lead to its neighbours |
| `HeapTheorems.RequestIsExact` | `mbedtls/library/memory_buffer_alloc.twl.c:214-220` | the wrapped product and the division test reject exactly the requests n * size that are zero, overflow or cannot be rounded up |
| `HeapTheorems.FindFails` | `mbedtls/library/memory_buffer_alloc.twl.c:227-239` | the search fails if and only if no free block is large enough |
| `HeapTheorems.FindIsFirst` | `mbedtls/library/memory_buffer_alloc.twl.c:227-239` | it finds a block no later in free-list order than any block that fits (first fit) |
| `HeapTheorems.CallocHandsOut` | `mbedtls/library/memory_buffer_alloc.twl.c:199-358` | a successful calloc makes exactly one free block live, at least n * size long, and new headers appear only behind the bytes asked for |
| `HeapTheorems.CallocFailsExactly` | `mbedtls/library/memory_buffer_alloc.twl.c:210-239` | calloc returns NULL if and only if n * size is zero or too large or no free block fits, and then changes nothing |
| `HeapTheorems.CallocIsTight` | `mbedtls/library/memory_buffer_alloc.twl.c:255-332` | the block handed out has the bytes asked for, rounded up, and less than a header and the alignment more: a longer block is cut right behind them and the rest stays free with its exact size |
| `HeapOrder.CallocOrder` | `mbedtls/library/memory_buffer_alloc.twl.c:227-332` | calloc takes the first block on the free list, as a sequence, that is long enough; the list then has the remainder in its place, or one block less |
| `HeapOrder.FreeOrder` | `mbedtls/library/memory_buffer_alloc.twl.c:392-474` | the free list after free, as a sequence, for each case of free neighbours: in front, in the place of the block before, in the place of the block behind |
| `HeapOrder.ListedOnce` | `mbedtls/library/memory_buffer_alloc.twl.c:199-479` | a heap has one free list |
| `HeapTheorems.FreeEndsOne` | `mbedtls/library/memory_buffer_alloc.twl.c:392-474` | free ends exactly one allocation; every other stays live with its size |
| `HeapTheorems.LiveIsSound` | `mbedtls/library/memory_buffer_alloc.twl.c:290-299` | live payloads are aligned, inside the buffer and pairwise disjoint |
| `HeapTheorems.InitialInv` | `mbedtls/library/memory_buffer_alloc.twl.c:562-594` | the heap that init builds satisfies the invariant and has nothing live |
| `HeapTheorems.AllFreeIsInitial` | `mbedtls/library/memory_buffer_alloc.twl.c:405-474` | whenever nothing is live the heap is the single initial free block again |
| `HeapTheorems.PayloadUntouched` | `mbedtls/library/memory_buffer_alloc.twl.c:199-479` | a call that writes under headers and in the block it hands out changes no byte of a payload that stays live |
| `HeapTheorems.RunsRestoreTheHeap` | `mbedtls/library/memory_buffer_alloc.twl.c:199-594` | in every run of calloc and valid frees after init the invariant holds, and freeing everything, in any order, gives the initial heap back |
| `HeapMemory.HeaderRoundTrip` | `mbedtls/library/memory_buffer_alloc.twl.c:299-308` | a header written to memory as eight little-endian words is what a later read of those bytes finds |
| `HeapMemory.FieldOffsets` | `mbedtls/library/memory_buffer_alloc.twl.c:33-46` | the eight words lie in the order of the struct |
| `HeapMemory.StoreBacks` | `mbedtls/library/memory_buffer_alloc.twl.c:255-332` | writing one header leaves every other header in memory as it was |
| `HeapMemory.PayloadBacks` | `mbedtls/library/memory_buffer_alloc.twl.c:290-291` | the memset of a payload, and any store of a client inside its payload, leaves every header as it was |
| `HeapMemory.RunIsSound` | `mbedtls/library/memory_buffer_alloc.twl.c:199-479` | in every run of calloc, free and client stores the invariant holds and memory holds the headers |
| `HeapMemory.PayloadPersists` | `mbedtls/library/memory_buffer_alloc.twl.c:199-479` | over a whole run a payload keeps each byte from allocation to free unless its owner writes it |
| `HeapMemory.RunRestores` | `mbedtls/library/memory_buffer_alloc.twl.c:199-594` | such a run is back at the initial heap exactly when everything is freed |
| `HeapAlloc.InvVerified` | `mbedtls/library/memory_buffer_alloc.twl.c:113-197` | every heap that satisfies the invariant passes verify_chain |
| `HeapAlloc.BufferAlloc.VerifyChain` | `mbedtls/library/memory_buffer_alloc.twl.c:153-197` | returns 0 if and only if every header on the chain is plausible and points back to its predecessor |
| `HeapAlloc.BufferAlloc.Init` | `mbedtls/library/memory_buffer_alloc.twl.c:562-594` | aligns the buffer and builds the initial heap, or nothing when it is too small |
| `HeapAlloc.BufferAlloc.Search` | `mbedtls/library/memory_buffer_alloc.twl.c:227-235` | the loop over next_free computes the first fit |
| `HeapAlloc.BufferAlloc.Calloc` | `mbedtls/library/memory_buffer_alloc.twl.c:199-358` | reading and writing headers in the bytes of the buffer: the new heap and pointer are those of the specification, the payload is zeroed, live payloads and other headers keep their bytes, no fatal exit; the block handed out is no longer than it must be |
| `HeapAlloc.BufferAlloc.FreePointer` | `mbedtls/library/memory_buffer_alloc.twl.c:360-479` | the new heap is that of the specification, live payloads and other headers keep their bytes; exits exactly on a pointer outside the buffer, not behind a header, or behind one of an unallocated block |
| `HeapAlloc.BufferAlloc.CheckAllFree` | `mbedtls/library/memory_buffer_alloc.twl.c:618-631` | what it tests, and that it agrees with "nothing is live" if and only if the free list is not headed by a first block with another block behind it |
| `HeapAlloc.CheckAllFreeIsMisled` | `mbedtls/library/memory_buffer_alloc.twl.c:618-631` | two allocations and a free lead to a heap with a live block that check_all_free reports as empty |
| `RingModel.ChoiceIsSafe` | `source/arm7/ipc.c:51-120` | whatever older value of the read index the allocator saw, the region it chooses is inside the buffer, clear of unread records and of the marker the reader rests on |
| `RingModel.OversizedGranted` | `source/arm7/ipc.c:61-112` | a request larger than the buffer is granted exactly when the 32-bit sum wraps below the limit it is compared with |
| `RingModel.ChoiceIsExact` | `source/arm7/ipc.c:61-112` | for every ring a packet is refused exactly when it fits neither behind the write index nor at the start of the buffer, and goes behind whenever it fits there |
| `RingTheorems.NextKeeps` | `source/arm7/ipc.c:51-120` | every step of either CPU keeps the ring's invariant |
| `RingTheorems.DeliveredIsPrefix` | `source/arm9/wifi_arm9.c:25-88` | in every interleaving the packets delivered are, in order and exactly once each, a prefix of the packets committed |
| `RingTheorems.RegionIsFree` | `source/arm7/ipc.c:51-120` | in every interleaving the region being filled lies in the buffer and holds no byte, but its own size word, that the reader may look at or touches in its next access |
| `RingTheorems.TouchesMayBeRead` | `source/arm9/wifi_arm9.c:35-75` | every byte that a look or a packet handler touches is one that the region of the writer is kept clear of |
| `RingTheorems.IndicesStayInside` | `source/arm7/ipc.c:51-65` | the assertions in the code hold: indices aligned and leaving room for a size word; the bytes a packet handler is given lie in the buffer and are the next packet, and what it has read so far is a prefix of it |
| `RingTheorems.RestsExactly` | `source/arm9/wifi_arm9.c:35-50` | in every run a look at the markers comes to rest exactly when everything is delivered or the next packet is empty; with packets left over exactly in the latter case |
| `RingTheorems.EmptyPacketBlocks` | `source/arm9/wifi_arm9.c:38-43` | in every run a committed packet of size 0 is never delivered, nor is anything behind it |
| `RingTheorems.EmptyPacketRun` | `source/arm7/ntr/rx_queue.c:20-71` | a run in which an empty packet is committed and the reader rests in front of it |
| `RingTheorems.DrainedAccepts` | `source/arm9/ipc.c:355-423` | a drained ring takes a packet exactly if it fits behind the indices or in front of them, so every packet that needs less than half of the buffer, wherever the indices stand |
| `RingTransmit.RawTxFrame` | `source/arm9/ntr/rx_tx_queue.c:19-72` | a frame as it is queued: 12 bytes of header, the data and 4 bytes for the checksum; its first word is 0 |
| `RingTransmit.TxRunKeeps` | `source/arm7/ntr/tx_queue.c:352-366` | in every interleaving, whatever the lengths of the packets, the NTR transmit reader sends a prefix of the packets committed, in order and exactly once, each within its destination |
| `RingTransmit.SkipJams` | `source/arm7/ntr/tx_queue.c:168-203` | stepping over a packet that is too long leaves the read index on the packet's own first word, which is 0, and the producer clear of it |
| `RingTransmit.JammedStep` | `source/arm7/ntr/tx_queue.c:352-358` | no step of the producer changes that word, and the reader only looks and rests |
| `RingTransmit.StuckExactly` | `source/arm7/ntr/tx_queue.c:168-203` | in every run the reader stands on a stop marker with packets left exactly when it has stepped over one; that one is next and too long, so it never happens while all packets fit |
| `RingTransmit.SkipIsFinal` | `source/arm7/ntr/tx_queue.c:189-203` | in every run nothing is sent after a packet was stepped over |
| `RingTransmit.JammingRun` | `source/arm7/ntr/tx_queue.c:168-203` | every frame of Wifi_RawTxFrame that fits the ring but not its destination has a run that gets stuck on it |
| `Ring.PacketRing.AllocBuffer` | `source/arm9/ipc.c:355-423` | the place chosen, or -1 exactly when there is room neither behind the write index nor at the start; the markers written before wrapping, and 32-bit sums, on the buffer itself (the allocators of both directions are the same) |
| `Ring.PacketRing.AddPacket` | `source/arm7/ntr/rx_queue.c:20-71` | queues the packet at the end, behind the write index or at the start of the buffer, and refuses it and keeps the contents exactly when it fits in neither place; in a drained ring every packet that needs less than half of the buffer fits |
| `Ring.PacketRing.Update` | `source/arm9/wifi_arm9.c:25-88` | hands over packets from the front in order, at most 22, stopping early only when drained or at an empty packet |
| `KeyWrap.WalkUndone` | `mbedtls/library/nist_kw.twl.c:129-317` | the backward walk t = k..1 undoes the forward walk t = 1..k over the registers, for every k |
| `KeyWrap.WalkRedone` | `mbedtls/library/nist_kw.twl.c:129-317` | and the forward walk undoes the backward walk |
| `KeyWrap.PadLenExact` | `mbedtls/library/nist_kw.twl.c:408-418` | the 32-bit padlen subtraction passes exactly the lengths 1..n whose padding it is; an oversized Plen cannot pass |
| `KeyWrap.WrapUnwrap` | `mbedtls/library/nist_kw.twl.c:129-450` | unwrapping a wrapped key returns its bytes and length, for every permitted KW and KWP length |
| `KeyWrap.UnwrapIsSound` | `mbedtls/library/nist_kw.twl.c:323-450` | unwrap accepts a ciphertext only if it is exactly the wrap of the key it returns, which is not empty |
| `KeyWrapRfc.TargetIs` | `mbedtls/library/nist_kw.twl.c:206-237` | step n * j + i works on register i |
| `KeyWrapRfc.WrapStepBytes` | `mbedtls/library/nist_kw.twl.c:218-236` | one step in bytes: B = E(A and R[i]), A is the first half of B plus the counter, R[i] the second half, all other registers unchanged |
| `KeyWrapRfc.UnwrapStepBytes` | `mbedtls/library/nist_kw.twl.c:283-304` | and one step back |
| `KeyWrapRfc.SixRounds` | `mbedtls/library/nist_kw.twl.c:206-237` | after six rounds the form with an index agrees with the register-shifting form of RFC 3394 |
| `KeyWrapRfc.WrapIsStandard` | `mbedtls/library/nist_kw.twl.c:129-250` | for every key and both schemes the wrapped key is the register-shifting form applied to check value, length, key and zeros |
| `KeyWrapCode.CalcAXorT` | `mbedtls/library/nist_kw.twl.c:117-123` | the byte loop adds the big-endian 64-bit step counter to the first eight bytes and touches no other |
| `KeyWrapCode.CounterIs` | `mbedtls/library/nist_kw.twl.c:117-123` | byte i of the counter is t shifted right by 7 - i bytes |
| `KeyWrapCode.WrapLoop` | `mbedtls/library/nist_kw.twl.c:206-237` | the in-place walk through the moving pointer R2 is the walk over the registers |
| `KeyWrapCode.UnwrapLoop` | `mbedtls/library/nist_kw.twl.c:278-305` | and so is the walk back through R |
| `KeyWrapCode.SizeCheckIsExact` | `mbedtls/library/nist_kw.twl.c:143-170` | the 32-bit size check is right exactly when the wrapped key has a 32-bit length |
| `KeyWrapCode.NistKwWrap` | `mbedtls/library/nist_kw.twl.c:129-250` | the output buffer holds the wrapped key of the standard, or is unchanged on bad input; success exactly for permitted lengths that fit |
| `KeyWrapCode.NistKwUnwrap` | `mbedtls/library/nist_kw.twl.c:323-450` | the output buffer holds the key and zeros, only zeros with length 0 when authentication fails, or is unchanged on bad input |
| `Cbc.CbcUndone` | `mbedtls/library/aes.twl.c:1072-1147` | CBC decryption undoes CBC encryption |
| `Cbc.CryptAppend` | `mbedtls/library/aes.twl.c:1072-1147` | running in two pieces, carrying the chaining value, is running in one |
| `Cbc.CryptIsChained` | `mbedtls/library/aes.twl.c:1104-1136` | on bytes, block j of the ciphertext is E of plaintext block j plus the ciphertext block before it, and decryption the other way round; the last ciphertext block is left for the next call |
| `Cbc.CryptCbc` | `mbedtls/library/aes.twl.c:1072-1147` | the block loop computes one-shot CBC, chained at every block of the bytes, and leaves the chaining value; refuses partial blocks |
| `Padding.EndsUnique` | `mbedtls/library/cipher.twl.c:831-967` | a block reads as padded in at most one way, except for plain zeros |
| `Padding.PkcsShape` | `mbedtls/library/cipher.twl.c:831-845` | a PKCS7 block ends in that many bytes of that value |
| `Padding.OneAndZerosShape` | `mbedtls/library/cipher.twl.c:883-893` | 80 and zeros |
| `Padding.ZerosAndLenShape` | `mbedtls/library/cipher.twl.c:927-937` | zeros and the length |
| `Padding.ZerosShape` | `mbedtls/library/cipher.twl.c:974-978` | zeros only |
| `Padding.AddPadding` | `mbedtls/library/cipher.twl.c:831-978` | each add function fills the block from the data on, and keeps the data |
| `Padding.GetPkcsPadding` | `mbedtls/library/cipher.twl.c:847-876` | accepts exactly the PKCS7 blocks despite the unsigned wrap of pad_idx, and returns the length before the padding, 0 on failure |
| `Padding.GetOneAndZerosPadding` | `mbedtls/library/cipher.twl.c:895-922` | accepts exactly the 80 00.. blocks and returns the length before them |
| `Padding.GetZerosAndLenPadding` | `mbedtls/library/cipher.twl.c:939-967` | accepts exactly the 00..len blocks and returns the length before them |
| `Padding.GetZerosPadding` | `mbedtls/library/cipher.twl.c:980-998` | strips exactly the trailing zero bytes and never fails |
| `CipherSpec.RoundTrip` | `mbedtls/library/cipher.twl.c:1020-1119` | decrypting an encrypted message never fails, and gives the message back if and only if the padding is not plain zeros or no message byte can be taken for padding |
| `CipherSpec.PadMessageIs` | `mbedtls/library/cipher.twl.c:1076-1086` | a message is filled up to the next multiple of 16 behind it, byte by byte for each scheme |
| `CipherSpec.EncryptAllIs` | `mbedtls/library/cipher.twl.c:1020-1119` | one-shot encryption is the padded message chained block by block |
| `CipherLayer.CipherContext.Update` | `mbedtls/library/cipher.twl.c:650-734` | every byte in is given out or held: bytes out plus unprocessed_len grows by the input; all output so far is CBC of all whole blocks so far |
| `CipherLayer.CipherContext.Finish` | `mbedtls/library/cipher.twl.c:1071-1119` | all output together is the one-shot form of all input, with the error returns |
| `CipherLayer.CryptChunks` | `mbedtls/library/cipher.twl.c:1315-1400` | for every split of the input into updates followed by finish the output is the padded message in CBC, block by block, or its inverse |
| `CipherLayer.EncryptThenDecrypt` | `mbedtls/library/cipher.twl.c:650-734` | encrypting under any split and decrypting under any other returns the message |
| `Gf128.Gf128MulX` | `mbedtls/library/aes.twl.c:1165-1178` | the two 64-bit words and the shifted 0x87 compute the byte procedure of IEEE Std 1619 |
| `Gf128.MulXIsTimesX` | `mbedtls/library/aes.twl.c:1165-1178` | coefficient by coefficient that is multiplication by x modulo x^128 + x^7 + x^2 + x + 1 |
| `Xts.CryptUndone` | `mbedtls/library/aes.twl.c:1189-1285` | decryption undoes encryption, including ciphertext stealing and the swapped tweaks |
| `Xts.TweakIsPower` | `mbedtls/library/aes.twl.c:1235-1260` | the tweaks start at the encrypted unit number and each is the one before times x, coefficient by coefficient |
| `Xts.CryptBytesIsXts` | `mbedtls/library/aes.twl.c:1225-1282` | on bytes, every block lies between two additions of its tweak; the end is stolen and the tweaks are swapped as in IEEE Std 1619 |
| `Xts.CryptXts` | `mbedtls/library/aes.twl.c:1189-1285` | the in-place code computes the data unit with tweak j the encrypted unit number times x^j; refuses exactly the lengths below 16 bytes or above 2^20 blocks and then writes nothing; in bytes it is XTS of IEEE Std 1619 |
| `Xts.EncryptThenDecrypt` | `mbedtls/library/aes.twl.c:1189-1285` | a data unit of every accepted length comes back |
| `Ctr.IncWordsBe` | `mbedtls/library/ctr.h:21-33` | the word-wise carry is big-endian + 1 modulo the block size |
| `Ctr.IncrementCounter` | `mbedtls/library/ctr.h:21-33` | the loop over 32-bit words with early exit, in place |
| `Ctr.CryptedSplit` | `mbedtls/library/aes.twl.c:1437-1481` | two calls in a row are one call on the concatenation |
| `Ctr.CryptedTwice` | `mbedtls/library/aes.twl.c:1437-1481` | applying the mode twice is the identity |
| `Ctr.CryptedIs` | `mbedtls/library/aes.twl.c:1454-1475` | output byte i is input byte i plus byte i mod 16 of the enciphered counter |
| `Ctr.CounterBlockIs` | `mbedtls/library/ctr.h:21-33` | the counter block is the number in 16 bytes, modulo 2^128 |
| `Ctr.CtrContext.Crypt` | `mbedtls/library/aes.twl.c:1437-1481` | resumes anywhere in a block: output byte k is input byte k plus byte k mod 16 of E((nonce + k / 16) mod 2^128), counted from the start of the stream; offsets above 15 are refused without effect |
| `Ctr.CtrChunks` | `mbedtls/library/aes.twl.c:1437-1481` | over any sequence of calls the output is that of one call on everything, which is counter mode byte by byte |
| `Aes.InvCipherUndoes` | `mbedtls/library/aes.twl.c:883-1000` | the inverse cipher of FIPS 197 undoes the cipher, for every schedule and number of rounds |
| `Aes.CipherUndoes` | `mbedtls/library/aes.twl.c:883-1000` | and the cipher undoes the inverse cipher |
| `Aes.EqInvIsInv` | `mbedtls/library/aes.twl.c:728-748` | with the reversed schedule, inner keys through the inverse mix, the equivalent inverse cipher is the inverse cipher on every block |
| `AesLayers.LayersObey` | `mbedtls/library/aes.twl.c:831-877` | table rounds obey the laws of the layers: the S-boxes and row shifts cancel, the inverse mix commutes with key addition |
| `AesCode.SetKeyEnc` | `mbedtls/library/aes.twl.c:613-678` | the words written satisfy the key expansion recurrence of FIPS 197 for 128, 192 and 256 bits, byte by byte, and there are enough of them |
| `AesCode.ScheduleUnique` | `mbedtls/library/aes.twl.c:617-676` | the recurrence determines the schedule |
| `AesCode.ScheduleIsExpanded` | `mbedtls/library/aes.twl.c:617-676` | the recurrence byte by byte: rotation, S-box and round constant every nk words, S-box alone in the middle for 256 bits, a plain sum otherwise |
| `AesCode.SetKeyDec` | `mbedtls/library/aes.twl.c:728-748` | the pointer walk writes the reversed schedule; the S-boxes in RT(FSb(.)) cancel and leave the inverse mix |
| `AesCode.DecKeys` | `mbedtls/library/aes.twl.c:728-748` | those words are the reversed schedule of the equivalent inverse cipher |
| `AesCode.EncryptState` | `mbedtls/library/aes.twl.c:883-938` | two table rounds at a time compute the cipher of FIPS 197 |
| `AesCode.DecryptState` | `mbedtls/library/aes.twl.c:945-1000` | and the equivalent inverse cipher |
| `AesBytes.CipherIs` | `mbedtls/library/aes.twl.c:831-938` | cell by cell, a round takes row r of a column from r columns on through the S-box, mixes the column and adds the key; the last round does not mix |
| `AesBytes.Encrypt` | `mbedtls/library/aes.twl.c:883-938` | the table rounds compute that cipher |
| `AesBytes.BlockCells` | `mbedtls/library/aes.twl.c:892-937` | byte r + 4c of a block is row r of column c |
| `AesCode.EncryptThenDecrypt` | `mbedtls/library/aes.twl.c:728-748` | for every encryption schedule of 10, 12 or 14 rounds, decrypting with the schedule built from it inverts encryption |
| `AesCode.BlocksUndo` | `mbedtls/library/aes.twl.c:883-1000` | encryption and decryption are inverse permutations of the blocks, which is all the modes ask of their cipher |
| `Sha1Compress.ScheduleNext` | `mbedtls/library/sha1.twl.c:91-98` | every word of the 80-word schedule satisfies the recurrence |
| `Sha1Compress.ScheduleIs` | `mbedtls/library/sha1.twl.c:72-98` | the words of the chunk, then each word from those 3, 8, 14 and 16 places back |
| `Sha1Compress.WordsAre` | `mbedtls/library/sha1.twl.c:72-87` | the words of a chunk are big-endian |
| `Sha1Compress.SigmaIs` | `mbedtls/library/sha1.twl.c:91-98` | the sum of the four words is rotated left by one |
| `Sha1Compress.RoundIs` | `mbedtls/library/sha1.twl.c:100-105` | one round: the sum for a, the rotation of b by 30, and the shift of the registers |
| `Sha1Compress.ChSelects` | `mbedtls/library/sha1.twl.c:113-113` | F of the first rounds selects by the bits of x |
| `Sha1Compress.MajVotes` | `mbedtls/library/sha1.twl.c:167-167` | F of the third group is the majority |
| `Sha1Compress.ConstantsAreRoots` | `mbedtls/library/sha1.twl.c:114-195` | the four constants are the square roots of 2, 3, 5 and 10 in 30 binary places |
| `Sha1Compress.R` | `mbedtls/library/sha1.twl.c:91-98` | the word 16 back in the circular buffer is overwritten with the next word of the schedule |
| `Sha1Compress.P` | `mbedtls/library/sha1.twl.c:100-105` | one round on registers whose names rotate is one round on registers that shift |
| `Sha1Compress.Process` | `mbedtls/library/sha1.twl.c:65-231` | the circular schedule and rotated names compute the 80-word, shifting-register compression of FIPS 180-4 |
| `Sha1.FoldAppend` | `mbedtls/library/sha1.twl.c:272-279` | processing one chunk more extends the hash by that chunk |
| `Sha1.LengthWords` | `mbedtls/library/sha1.twl.c:322-328` | the two length words are the bit length of the whole message modulo 2^64 |
| `Sha1.PaddedIs` | `mbedtls/library/sha1.twl.c:296-334` | the padded message byte by byte: 80, as few zeros as fill a chunk, the bit length as a 64-bit number |
| `Sha1.InitialPattern` | `mbedtls/library/sha1.twl.c:55-59` | the initial value counts 01 23 .. EF up, FE DC .. 10 down and F0 E1 D2 C3 down |
| `Sha1.DigestIs` | `mbedtls/library/sha1.twl.c:336-340` | the digest is the five registers after all chunks, in order and big-endian |
| `Sha1.Sha1Context.Update` | `mbedtls/library/sha1.twl.c:238-286` | keeps: state = hash of the whole chunks, buffer = unprocessed tail, two words = total length mod 2^64 |
| `Sha1.Sha1Context.Finish` | `mbedtls/library/sha1.twl.c:291-347` | returns the digest of everything taken in, with the one- or two-chunk padding of FIPS 180-4 |
| `Sha1.HashChunks` | `mbedtls/library/sha1.twl.c:238-347` | for every sequence of updates finish returns the digest of the concatenation |
| `Hmac.HmacContext.Starts` | `mbedtls/library/md.twl.c:969-1015` | the pads are those of the key, hashed first when longer than a block; the context is ready for text |
| `Hmac.HmacContext.Reset` | `mbedtls/library/md.twl.c:1055-1070` | the context is ready for text again, whatever it was used for |
| `Hmac.HmacContext.Finish` | `mbedtls/library/md.twl.c:1026-1053` | returns HMAC of the text taken in since the last start or reset |
| `Hmac.HmacIs` | `mbedtls/library/md.twl.c:969-1053` | with pads of the key plus 36 and 5c in every byte: the digest of the outer pad and the digest of the inner pad and the text |
| `Hmac.HmacTwice` | `mbedtls/library/md.twl.c:969-1070` | independent of an earlier use and of how the input is split, the value is that of RFC 2104 over SHA-1 |
| `Pbkdf2.IncBe` | `mbedtls/library/pkcs5.twl.c:342-346` | the byte-wise counter loop is big-endian + 1 |
| `Pbkdf2.TsPrefix` | `mbedtls/library/pkcs5.twl.c:295-347` | derived keys of all lengths are prefixes of the same T1, T2, ... joined |
| `Pbkdf2.SumOfChain` | `mbedtls/library/pkcs5.twl.c:296-334` | F starts at U1, U(j+1) is the PRF of Uj, and each iteration adds the next U |
| `Pbkdf2.DerivedByte` | `mbedtls/library/pkcs5.twl.c:295-347` | byte j of a derived key is byte j mod 20 of the block with number j / 20 + 1 |
| `Pbkdf2.Block` | `mbedtls/library/pkcs5.twl.c:296-334` | the inner loop computes U1 ^ ... ^ Uc |
| `Pbkdf2.Derive` | `mbedtls/library/pkcs5.twl.c:268-355` | the loops write the first key_length bytes of T1, T2, ... joined for any PRF context |
| `Pbkdf2.Pbkdf2HmacSha1` | `mbedtls/library/pkcs5.twl.c:268-355` | PBKDF2 of RFC 2898 with HMAC-SHA-1, for every password, salt, iteration count and key length (a count of 0 acts as 1) |
| `ConstantTime.Bool` | `mbedtls/library/constant_time_impl.h:183-202` | all ones exactly for a non-zero word |
| `ConstantTime.If` | `mbedtls/library/constant_time_impl.h:264-268` | a mask selects the first or the second word |
| `ConstantTime.Lt` | `mbedtls/library/constant_time_impl.h:350-380` | all ones exactly when x < y, for all 32-bit words |
| `ConstantTime.Ne` | `mbedtls/library/constant_time_impl.h:382-389` | all ones exactly when x != y |
| `ConstantTime.BoolOr` | `mbedtls/library/constant_time_impl.h:525-529` | zero exactly when both are |
| `CtMemory.Memcmp` | `mbedtls/library/constant_time.twl.c:68-115` | returns zero exactly when the ranges are equal |
| `CtMemory.MemcmpPartial` | `mbedtls/library/constant_time.twl.c:121-145` | the same for the range without head and tail |
| `CtMemory.MemmoveLeft` | `mbedtls/library/constant_time.twl.c:151-166` | the nested loops are a move left and zero fill, for every size and offset |
| `CtMemory.MemcpyIf` | `mbedtls/library/constant_time.twl.c:170-213` | the first source or the second, the destination itself when there is no second; by words and by bytes |
| `CtMemory.MemcpyOffset` | `mbedtls/library/constant_time.twl.c:215-228` | reading every candidate slice is a copy of the slice at the secret offset |
| `Crc16.CheckPasses` | `source/arm7/wfc.c:15-31` | the CRC of at least two bytes is 0 if and only if the last two, low byte first, are the CRC of the rest |
| `Crc16.StepsInjective` | `source/arm7/wfc.c:21-27` | the shift register loses nothing in any number of steps |
| `Crc16.StepIsTimesX` | `source/arm7/wfc.c:21-27` | a shift multiplies by x modulo x^16 + x^15 + x^2 + 1 |
| `Crc16.CrcLinear` | `source/arm7/wfc.c:15-31` | the CRC of the exclusive or of two strings is the exclusive or of their CRCs, which fixes the initial value 0 |
| `Crc16.Crc16Slow` | `source/arm7/wfc.c:15-31` | the nested loops on an int compute that CRC, and its upper half stays zero |
| `AccessPoints.RunKeeps` | `source/arm7/access_point.c:16-219` | in every run of Add (whose lock may fail), Tick and ClearAll active entries have pairwise different BSSIDs and counters no larger than the timeout |
| `AccessPoints.ReplacedOnlyWhenFull` | `source/arm7/access_point.c:80-95` | an active entry gives way to another BSSID only when all 32 are active and none has a larger counter |
| `AccessPoints.AddedOnce` | `source/arm7/access_point.c:50-123` | an addition that gets its lock leaves the access point in the table once, and touches no other entry |
| `AccessPoints.EntryAges` | `source/arm7/access_point.c:198-219` | in every run an access point reported once is active for exactly the timeout in ticks and inactive from the next one, unless cleared, replaced or reported again |
| `AccessPoints.ActiveWasReported` | `source/arm7/access_point.c:50-219` | in every run an active entry was reported, and its counter is the number of ticks since |
| `AccessPoints.ApList.Add` | `source/arm7/access_point.c:50-123` | slot choice and update in place; nothing changes when the lock fails |
| `AccessPoints.ApList.Tick` | `source/arm7/access_point.c:198-219` | counts up active entries and deactivates those over the timeout, ten times as long in DSi mode |
| `AccessPoints.ApList.ClearAll` | `source/arm7/access_point.c:16-34` | deactivates every entry and clears its BSSID |

## Left out

- Hardware and assembly paths (AESNI, AESCE, Padlock, ARM assembly, NEON) and the PSA branches: other builds of the same functions.
- Execution time of the constant-flow code, and wiping of temporaries.
- The S-box and T-table constants and `aes_gen_tables`: the S-boxes are taken as mutually inverse, the column mix as linear with an inverse, the T-tables as the S-box followed by the column mix.
- Other digests than SHA-1, other modes (ECB, CFB, OFB, GCM, CCM, ChaCha20-Poly1305), tags and associated data.
- A block cipher or digest that reports failure, and calls on contexts that were never set up.
- Input and output buffers that overlap: `mbedtls_cipher_update` refuses most of it, XTS with leftover bytes needs disjoint buffers; the models take the input as a value.
- The heap's debug counters, backtraces, mutex wrappers and status output.
- HeapAlloc.BufferAlloc.FreePointer: a pointer into a payload whose bytes in front of it have been made to look like the header of an allocated block; the code would go on to relink through them.
- Ring.PacketRing.AddPacket: packets that are granted only because the sum of their size and an index passes 2^32 (`OversizedGranted`); they would be written past the buffer. The statistics counters.
- RingModel.Next: both CPUs are taken to see stores in program order, as on the uncached mirror of main memory that the driver uses; the order of the stores themselves is that of the code.
- RingTransmit.NextTx: the packet type flags that share the size word in the transmit direction; they choose the destination, whose size (0xA00, 0xB00 or 0xC00) is here any function of the packet's place in the queue. The copy itself is fetched byte by byte, as in the other direction.
- KeyWrapCode.NistKwWrap: keys within 16 bytes of 2^32, whose wrapped form has no 32-bit length (`SizeCheckIsExact`).
- KeyWrap.WrapUnwrap: the same keys; their wrapped form cannot be passed to unwrap.
- Sha1Compress.Run: the eighty unrolled macro calls are a loop whose index into the registers rotates as the macro arguments do; likewise the unrolled key expansion in `AesCode.KeyTurn`.
- AccessPoints.ApList.Add: SSID, channel, signal strength, security fields and vendor data of an entry, which do not influence the choice of slot; the entropy seed.
- XTS key splitting, `mbedtls_cipher_set_padding_mode`, `mbedtls_md_hmac` and other thin wrappers.
- ASN.1 parsing in PKCS5, self tests, FIFO handlers, mode requests, firmware reads, association polling and lwIP.

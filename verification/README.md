# A verified model of wolfPSA

wolfPSA puts the PSA Crypto API on top of wolfCrypt. Most cryptographic primitives are
calls into wolfCrypt, but several algorithms and state machines are written in wolfPSA
itself: streaming AES-CCM, multipart CBC with PKCS#7, the key-derivation operation, the
XOF operation, and the key store with its two persistent backends. This project models
those parts in Dafny and proves what they promise.

## How it is organised

| files | what they hold |
|---|---|
| `Bytes.dfy`, `Psa.dfy` | byte strings, XOR, big-endian integers; the status codes |
| `CcmSpec.dfy` | CCM over whole messages as NIST SP 800-38C states it |
| `CcmStream.dfy` | the streaming CCM code, in place on its 16-byte buffers |
| `AeadOperation.dfy`, `AeadMessages.dfy`, `AeadRuns.dfy` | the multipart AEAD operation, whole messages in any chunks, and arbitrary runs of calls |
| `BlockModes.dfy`, `CipherOperation.dfy`, `CipherMessages.dfy` | CBC, ECB and PKCS#7 over whole messages; the multipart cipher operation; messages in chunks and one-shot calls |
| `Xof.dfy` | the XOF operation |
| `KdfSpec.dfy`, `KdfLoops.dfy`, `KdfOperation.dfy`, `KdfRuns.dfy` | derivations as functions of their inputs; the hand-written loops; the operation; whole runs |
| `KdfBytes.dfy`, `KdfOrders.dfy` | what a run yields byte for byte in terms of the primitives; which inputs and outputs succeed in which order |
| `Der.dfy` | the DER writers and a strict parser |
| `Policy.dfy` | algorithm intersection of copied keys, on 32-bit words |
| `KeyRecord.dfy`, `PosixStore.dfy`, `ZephyrStore.dfy` | the persistent record and its two backends |
| `VolatileKeys.dfy` | the linked list of volatile keys and the id counter |
| `KeyStoreInterleaving.dfy`, `KeyStoreAgreement.dfy` | threads that import, destroy and read, as a state machine over their steps; those steps against the two backends |

Each imperative method is proved against a function of whole inputs (or of the whole
history, kept in ghost fields), and the lemmas are about those functions. Opaque
primitives are function values: a block cipher, HMAC, CMAC, the sponge output. Results
of calls into wolfCrypt and of the operating system that can fail are parameters
(`backend`, `keyStatus`, `io`, `Faults`), so every contract speaks about failures too.

## Findings

* PBKDF2 with AES-CMAC counts blocks in a 32-bit variable and loops while it is at most
  the block count. RFC 8018 allows 2^32 - 1 blocks; there the counter wraps and the loop
  does not end. `KdfLoops.Pbkdf2LoopExits` proves that the loop ends exactly for at most
  2^32 - 2 blocks, and `KdfLoops.Pbkdf2LoopWrapsAtTheLimit` names the failing count.
* For MAC policies the algorithm intersection of a copy is exact if and only if the two
  length fields agree in the sense of `Policy.MacLengthsAgree`; canonical lengths (0 for
  full, otherwise shorter) always do. `Policy.MacMeetNeedsCanonicalLengths` gives two
  policies that both permit the full HMAC-SHA-256 and whose copy is refused.
* The permission test for signatures (`src/psa_key_storage.c:2859-2873`) lets hashless ECDSA
  pass under an ECDSA policy whose hash is open, which the comment in the intersection
  (`src/psa_key_storage.c:2592-2599`) says is not covered; the intersection refuses it.
  `Policy.SignMeetExact` proves that the intersection is exact in all other cases, and
  `Policy.SignMeetNeedsAHash` gives the two policies.
* The comment above the SP 800-108 loop (`src/psa_key_derivation.c:1561-1568`) first says
  that the largest bit count does not fit 32 bits and then that it does. It does:
  `KdfSpec.LengthAndCounterExact`.

## Assumptions

* The block cipher of a cipher operation satisfies only that decryption undoes
  encryption. AES-GCM and ChaCha20-Poly1305 are a keystream and a tag function of nonce,
  associated data and plaintext. The one-shot wolfCrypt calls behind a buffered finish or
  verify compute the same functions as the streaming ones, which for CCM are those of
  SP 800-38C.
* HKDF extraction and expansion, the TLS 1.2 PRF and PBKDF2-HMAC are wolfCrypt calls and
  return prefixes of one byte stream per input. For the loops written in wolfPSA this
  prefix law is proved.
* Persistent records use the byte order and sizes of a little-endian 64-bit host.
* `rename` and the ITS `set` are atomic, an open file keeps its inode, and the temporary
  file name is created exclusively.

## Model

| member | source | states |
|---|---|---|
| CcmSpec.FormatParses | src/psa_aead.c:687-765 | a parser that sees only the formatted blocks recovers nonce, associated data, payload and tag length, for both length prefixes |
| CcmSpec.FormatInjective | src/psa_aead.c:687-765 | the blocks fed to the CBC-MAC determine the message (SP 800-38C section 5.4) |
| CcmSpec.CounterBlocksDistinct | src/psa_aead.c:767-782 | within one message all counter blocks differ from each other and from B0 |
| CcmSpec.DecryptUndoesEncrypt | src/psa_aead.c:1038-1061 | the decryption-verification process returns the payload of the generation-encryption process |
| CcmStream.CtrInc | src/psa_aead.c:640-653 | the byte-carry loop adds one modulo 256^lenSz and leaves the front of the block alone |
| CcmStream.CounterAdvances | src/psa_aead.c:802-811 | while the payload fits its length field an increment goes from counter block c to c + 1 without wrapping |
| CcmStream.MacAfterByte | src/psa_aead.c:822-841 | how one payload byte moves the chaining value and the partial block of the CBC-MAC |
| CcmStream.MacOfMessage | src/psa_aead.c:861-873 | the MAC of the whole formatted message from the streaming state, partial block included |
| CcmStream.ShiftedBytesAreBigEndian | src/psa_aead.c:718-730 | the shifted casts of the length prefix are the big-endian integer |
| CcmStream.CcmContext.Init | src/psa_aead.c:658-788 | succeeds exactly for a valid nonce and a payload length that fits, with the CBC-MAC over B0 and all associated-data blocks and the first keystream block in place |
| CcmStream.CcmContext.MacAadRest | src/psa_aead.c:749-764 | the block loop leaves the CBC-MAC over all padded associated-data blocks |
| CcmStream.CcmContext.Update | src/psa_aead.c:792-848 | any chunk, in place or apart, comes out under the keystream from the current offset, and the state follows the longer payload |
| CcmStream.CcmContext.Finish | src/psa_aead.c:852-892 | the tag is that of SP 800-38C for the whole message |
| CcmStream.CcmContext.CheckTag | src/psa_aead.c:1038-1061 | success exactly when the given tag is the tag of the message |
| CcmStream.AllEqual | src/psa_aead.c:1050-1058 | the accumulated difference is zero exactly when all bytes agree |
| AeadOperation.CheckLengthsFits | src/psa_aead.c:158-191 | a successful length check means that the payload fits the CCM length field and the associated data 32 bits |
| AeadOperation.CheckLengthsExact | src/psa_aead.c:154-191 | which lengths are accepted and which are refused as invalid, in numbers |
| AeadOperation.TagLengths | src/psa_aead.c:309-454 | the tag lengths of CCM, GCM and ChaCha20-Poly1305, in numbers |
| AeadOperation.AeadOperation.ContextTag | src/psa_aead.c:930-962 | the tag of a streamed message follows from the calls made into the primitive: the associated data it was started with and the data after it |
| AeadOperation.CryptInvolutive | src/psa_aead.c:898-986 | the same keystream takes its own output back |
| AeadOperation.AeadOperation.Setup | src/psa_aead.c:309-454 | which algorithm, tag length and key outcome give which status, and the fresh state |
| AeadOperation.AeadOperation.SetLengths | src/psa_aead.c:456-482 | lengths once, before any data, checked against a nonce that may be set already; a failure ends the operation |
| AeadOperation.AeadOperation.SetNonce | src/psa_aead.c:484-537 | the nonce once, checked against lengths that may be set already; a refusal changes nothing |
| AeadOperation.AeadOperation.UpdateAd | src/psa_aead.c:583-634 | associated data accumulates up to its declared and 32-bit limits and is frozen once the body has started |
| AeadOperation.AeadOperation.Update | src/psa_aead.c:1070-1163 | every outcome in order; buffering and streaming never mix; the associated data goes to the primitive once, before the payload; the chunk comes out under the keystream |
| AeadOperation.AeadOperation.StreamChunk | src/psa_aead.c:898-986 | one chunk through the streaming primitive keeps emitted bytes, fed bytes and CCM state in step |
| AeadOperation.AeadOperation.Finish | src/psa_aead.c:1165-1345 | success means that declared totals are met, the tag is that of the whole message (for GCM and ChaCha20-Poly1305 wolfCrypt's over nonce, all associated data and plaintext) and all ciphertext is out, streamed or buffered; the operation ends |
| AeadOperation.AeadOperation.Verify | src/psa_aead.c:1347-1522 | success exactly when the tag is right, with totals met and all plaintext out; a wrong tag length is a wrong tag |
| AeadMessages.LengthsBeforeNonce | src/psa_aead.c:158-191 | lengths that pass with the nonce known pass without it, so both orders of the two calls work |
| AeadMessages.SealChunks | src/psa_aead.c:1070-1163 | any chunks of associated data and payload, streamed or buffered, lengths first, nonce first or without lengths, give the AEAD of the concatenations, and for GCM and ChaCha20-Poly1305 the keystream over the payload and wolfCrypt's tag |
| AeadMessages.OpenChunks | src/psa_aead.c:1552-1573 | any chunks of ciphertext give the plaintext exactly when the tag is right, for GCM and ChaCha20-Poly1305 wolfCrypt's over nonce, associated data and plaintext |
| AeadMessages.SealedByPrimitives | src/psa_aead.c:930-962 | sealing and opening with GCM and ChaCha20-Poly1305 in terms of wolfCrypt's keystream and tag alone |
| AeadMessages.CcmIsSp80038C | src/psa_aead.c:792-892 | for CCM these are the processes of SP 800-38C sections 6.1 and 6.2 |
| AeadMessages.OpenUndoesSeal | src/psa_aead.c:792-848 | with independent chunks on the two sides decryption recovers the payload and accepts the tag |
| AeadRuns.RunCalls | src/psa_aead.c:442-1573 | for any calls in any order every status is the one that the calls and replies before it determine; a finish or verify succeeds only with declared totals met and CCM lengths declared, and its output and tag are those of the whole message |
| AeadRuns.TagsAreOfTheMessage | src/psa_aead.c:930-1573 | in every run the tag that a finish puts out or a verify accepts under GCM and ChaCha20-Poly1305 is wolfCrypt's over the nonce, all associated data and the whole plaintext |
| AeadRuns.NeverBack | src/psa_aead.c:583-1163 | in every run, as long as no setup begins a new message, a started body stays started with its associated data, and what is streamed or buffered stays so |
| AeadRuns.NoMixing | src/psa_aead.c:1070-1163 | in no run does one message take both streamed and buffered payload, in either order |
| AeadRuns.AssociatedDataFrozen | src/psa_aead.c:456-634 | in no run do associated data or lengths join a message whose body has started, not even an empty chunk |
| BlockModes.RunAppend | src/psa_cipher.c:817-909 | a mode run over two parts is the run over their concatenation, with the chaining value handed on |
| BlockModes.RunInverts | src/psa_cipher.c:795-905 | decryption of whole blocks undoes encryption for CBC and ECB |
| BlockModes.RunIsMode | src/psa_cipher.c:795-905 | a run is CBC or ECB block for block: each plaintext block masked with the ciphertext block before it, or the cipher alone; nothing else is a run |
| BlockModes.ChainIsLastBlock | src/psa_cipher.c:842-891 | the chaining value behind a run is the last ciphertext block |
| BlockModes.ResultIsProcessed | src/psa_cipher.c:1376-1519 | a message has a result exactly when there are bytes that the mode makes of it block for block, padding included, and then these |
| BlockModes.UnpadOfPad | src/psa_cipher.c:1412-1490 | PKCS#7 padding comes off again |
| BlockModes.PadOfUnpad | src/psa_cipher.c:1477-1490 | only the padded form of a message unpads to it |
| BlockModes.UnpadLastBlock | src/psa_cipher.c:1477-1490 | the padding of a message is decided by its last block |
| BlockModes.DecryptInvertsEncrypt | src/psa_cipher.c:1546-1738 | every message round-trips under PKCS#7, and without padding exactly those of whole blocks |
| CipherOperation.DueGrows | src/psa_cipher.c:1035-1047 | the bytes due after an update follow from the bytes held before it, with or without hold-back |
| CipherOperation.BufferedGrows | src/psa_cipher.c:792-1145 | new input joins the held bytes, and what is due goes through the mode |
| CipherOperation.CipherOperation.SetIv | src/psa_cipher.c:586-676 | once, before any input, with the block length; a failure ends the operation |
| CipherOperation.CipherOperation.Transfer | src/psa_cipher.c:817-915 | the partial block, then the whole blocks, then the remainder: exactly the due bytes of held and new input are processed, also for disjoint ranges of one buffer |
| CipherOperation.CipherOperation.Update | src/psa_cipher.c:738-1282 | every outcome in order, overlap included; consumed and emitted bytes and the untouched rest of the output |
| CipherOperation.CipherOperation.EmittedLength | src/psa_cipher.c:921-1145 | after T bytes encryption has emitted the whole blocks of T and holds less than a block, PKCS#7 decryption the whole blocks of T - 1 and holds 1 to one block |
| CipherOperation.CheckPadding | src/psa_cipher.c:1477-1485 | the masked accumulate loop is zero exactly for good padding |
| CipherOperation.CipherOperation.Finish | src/psa_cipher.c:1376-1519 | the result of the whole message, which is what the mode makes of its blocks, or the padding, residue or buffer error that there is; the operation ends |
| CipherOperation.CipherOperation.Process | src/psa_cipher.c:842-891 | one wolfCrypt call turns whole blocks block for block from the chaining register on, and leaves the last ciphertext block there |
| CipherOperation.OverlapMeansCommonPlace | src/psa_cipher.c:776-785 | ranges count as overlapping exactly when some place lies in both |
| CipherOperation.PaddedResult | src/psa_cipher.c:1395-1450 | the last padded block completes the encryption of the padded message |
| CipherOperation.UnpaddedResult | src/psa_cipher.c:1451-1508 | decryption has a result only when a full block is held back, and then what that block says |
| CipherMessages.RunChunks | src/psa_cipher.c:738-1519 | any chunks give exactly the bytes that the mode makes of the blocks of their concatenation, or no result when there are none |
| CipherMessages.AnyChunksRoundTrip | src/psa_cipher.c:921-1145 | whatever either side splits, decryption returns the message |
| CipherMessages.EncryptOneShot | src/psa_cipher.c:1546-1639 | every outcome in order, and on success the initial vector in front of what the mode makes of the blocks |
| CipherMessages.DecryptOneShot | src/psa_cipher.c:1641-1738 | every outcome in order, and on success what the mode makes of the blocks behind the initial vector |
| CipherMessages.OneShotSucceeds | src/psa_cipher.c:1546-1738 | a one-shot call succeeds exactly when the message has a result and the result fits |
| CipherMessages.OpenedUndoesSealed | src/psa_cipher.c:1546-1738 | the one-shot calls undo each other |
| Xof.DirectBlocks | src/psa_xof.c:416-453 | the block count of a direct squeeze is positive, fits the request and the 32-bit byte range |
| Xof.XofOperation.Grow | src/psa_xof.c:140-174 | the capacity reaches the need, never exceeds the word32 range, and keeps the content |
| Xof.XofOperation.SetContext | src/psa_xof.c:255-285 | no supported algorithm takes a context, and the attempt ends the operation |
| Xof.XofOperation.Update | src/psa_xof.c:289-329 | input accumulates up to the word32 limit, before any squeeze only |
| Xof.XofOperation.Absorb | src/psa_xof.c:357-394 | all input is absorbed, once, and the buffer released |
| Xof.XofOperation.Serve | src/psa_xof.c:396-482 | the serving loop ends and delivers the next bytes of the sponge, through the staging buffer and by direct squeezes |
| Xof.XofOperation.Output | src/psa_xof.c:340-484 | the next n bytes of the sponge output of all input, one absorb at most, nothing for a zero request |
| Xof.RunXof | src/psa_xof.c:289-484 | any chunks in and any requests out: the outputs are consecutive slices of the sponge output, byte for byte |
| KdfSpec.ConcatPrefix | src/psa_key_derivation.c:1518 | fewer blocks are a prefix of more |
| KdfSpec.LengthAndCounterExact | src/psa_key_derivation.c:1561-1578 | up to the largest capacity the length field is the exact bit count and counters do not repeat |
| KdfSpec.PremasterParses | src/psa_key_derivation.c:1252-1283 | the premaster encoding gives both secrets back |
| KdfSpec.DerivedPrefix | src/psa_key_derivation.c:1831-1860 | a shorter derivation is a prefix of a longer one, for the hand-written loops and the assumed streams |
| KdfLoops.Sp800HmacLoop | src/psa_key_derivation.c:1527-1659 | the loop writes K(1) \|\| K(2) \|\| ... truncated (SP 800-108r1 section 4.1) |
| KdfLoops.Sp800CmacLoop | src/psa_key_derivation.c:1676-1829 | the same over CMAC with the K_0 term |
| KdfLoops.Pbkdf2LoopExits | src/psa_key_derivation.c:1412-1413 | the block loop ends if and only if there are at most 2^32 - 2 blocks |
| KdfLoops.Pbkdf2LoopWrapsAtTheLimit | src/psa_key_derivation.c:1412-1413 | at 2^32 - 1 blocks, which RFC 8018 allows, it does not end |
| KdfLoops.Pbkdf2BlockLoop | src/psa_key_derivation.c:1413-1477 | a block is U_1 xor ... xor U_cost (RFC 8018 section 5.2) |
| KdfLoops.Pbkdf2CmacLoop | src/psa_key_derivation.c:1341-1487 | the loop writes T_1 \|\| T_2 \|\| ... truncated, under the normalised key of RFC 4615 |
| KdfLoops.WritePremaster | src/psa_key_derivation.c:1242-1283 | the buffer is the premaster secret of RFC 4279, zeros standing in for no other secret |
| KdfOperation.ComputeOutput | src/psa_key_derivation.c:1831-1860 | the argument errors of every arm, and otherwise the first n bytes of the derivation |
| KdfOperation.HistoryStep | src/psa_key_derivation.c:720-786 | an accepted input extends exactly its own buffer and stays the only one of its step unless it is PBKDF2 salt |
| KdfOperation.SingleInput | src/psa_key_derivation.c:306-331 | the buffer of a single-use step is its one accepted input, unchanged |
| KdfOperation.CacheFailsAlike | src/psa_key_derivation.c:1950-1979 | deriving all of a small capacity at once fails exactly when deriving the request would, so the cache shows in no status |
| KdfOperation.KdfOperation.Setup | src/psa_key_derivation.c:509-615 | the initial capacity of every algorithm; the bare category derives only behind a key agreement |
| KdfOperation.KdfOperation.SetCapacity | src/psa_key_derivation.c:648-698 | capacity only goes down, and a refused value changes nothing |
| KdfOperation.KdfOperation.InputBytes | src/psa_key_derivation.c:720-803 | the step order of every algorithm, and the sticky error state |
| KdfOperation.KdfOperation.InputInteger | src/psa_key_derivation.c:805-862 | the cost once, for PBKDF2 only, from 1 to 2^32 - 1 |
| KdfOperation.KdfOperation.InputKey | src/psa_key_derivation.c:903-976 | key, policy and step checks in order, and when the operation may output a key |
| KdfOperation.KdfOperation.KeyAgreement | src/psa_key_derivation.c:978-1063 | when an agreed secret becomes an input, and every refusal in order |
| KdfOperation.KdfOperation.InputsAreGiven | src/psa_key_derivation.c:720-786 | the derivation sees exactly the accepted inputs |
| KdfOperation.KdfOperation.Reserve | src/psa_key_derivation.c:1862-1948 | required inputs, the snapshot of L, and capacity taken out before any byte is produced |
| KdfOperation.KdfOperation.Serve | src/psa_key_derivation.c:1981-2018 | cache, first derivation and recomputation all deliver the same slice; the cache is never too short |
| KdfOperation.KdfOperation.OutputBytes | src/psa_key_derivation.c:1862-2036 | the next n bytes of the one stream; capacity plus delivered bytes stay constant; L never changes; failures are sticky |
| KdfOperation.KdfOperation.VerifyBytes | src/psa_key_derivation.c:2101-2158 | success exactly when the next bytes are the expected ones, a mismatch is not sticky, and both take the bytes out of the capacity |
| KdfOperation.KdfOperation.OutputKey | src/psa_key_derivation.c:2038-2099 | the key is the next bytes of the stream, for a permitted and unstructured key |
| KdfRuns.RunCalls | src/psa_key_derivation.c:509-2158 | for any calls in any order, inputs, capacity changes, reads, comparisons and keys, every reply is that of a machine that knows the accepted inputs and no buffer or cache; the run ends early exactly at a call that never returns |
| KdfRuns.SlicesOfOneStream | src/psa_key_derivation.c:1862-2158 | in every run all bytes read or put into keys, and all verdicts of comparisons, are those of consecutive slices of one stream, that of the inputs and of the length bound at the end of the run |
| KdfRuns.GivenIsAccepted | src/psa_key_derivation.c:720-1063 | that stream is the one of the inputs whose calls reported success, in order |
| KdfRuns.CapacityBoundsOutput | src/psa_key_derivation.c:1862-1948 | after any point of a run at most the capacity at that point comes out, and counter mode never yields more than the length it binds |
| KdfRuns.FailureIsSticky | src/psa_key_derivation.c:473-507 | after a failure every later call but the capacity query reports a bad state and yields nothing |
| KdfRuns.KeysNeedConsent | src/psa_key_derivation.c:954-1042 | a key can come out only behind an accepted secret or password of a key that may derive, or an agreed secret |
| KdfBytes.BytesOfRuns | src/psa_key_derivation.c:1067-1860 | in every run every byte read or put into a key is the primitive's, applied to the accepted inputs by name, at the place behind all bytes taken before; a comparison succeeds exactly for these bytes |
| KdfBytes.StreamBytes | src/psa_key_derivation.c:1067-1860 | byte j of each derivation: HKDF as extraction then expansion, the TLS PRF, PSK-to-MS, PBKDF2 and counter mode |
| KdfOrders.InputOutcome | src/psa_key_derivation.c:306-456 | the reply to every byte input for every algorithm and whatever came before: the inputs it has, their order, their lengths |
| KdfOrders.ReadOutcome | src/psa_key_derivation.c:1862-1948 | the reply to every read: required inputs, capacity, supported hash, and the length limits in numbers |
| KdfOrders.InitialCapacity | src/psa_key_derivation.c:591-612 | the capacity behind setup, in numbers, and what the bare category stands for |
| KdfOrders.CapacityOutcome | src/psa_key_derivation.c:648-698 | in every run a new capacity is taken exactly when it is no larger than the one there is |
| KdfOrders.FailedExactly | src/psa_key_derivation.c:473-507 | in every run the operation has failed exactly when some call ended it, a mismatch, a bad handle and a refused capacity aside, and then only the capacity can be had |
| KdfOrders.InputOrderOfRuns | src/psa_key_derivation.c:306-456 | in every run the accepted inputs keep the order of their algorithm, whether bytes, keys or agreed secrets, and none comes behind output |
| KdfOrders.OrderlyExactly | src/psa_key_derivation.c:306-456 | a sequence of byte inputs is accepted exactly when each fits behind those before it |
| KdfOrders.UsualOrderWorks | src/psa_key_derivation.c:306-2036 | for every algorithm the usual inputs, with the optional ones or without, then a read within the limits, all succeed |
| Der.LengthParses | src/psa_key_storage.c:783-806 | lengths are definite, in the fewest octets, and read back |
| Der.IntegerParses | src/psa_key_storage.c:838-870 | integers are minimal, non-negative and read back, whatever leading zeros the input has |
| Der.PublicKeyParses | src/psa_key_storage.c:2257-2270 | a strict DER parser recovers n and e from the exported key |
| Der.LenSize | src/psa_key_storage.c:767-781 | the precomputed length size is the written one |
| Der.IntSize | src/psa_key_storage.c:813-833 | the precomputed integer size is the written one |
| Der.WriteInt | src/psa_key_storage.c:838-870 | writes exactly the encoding and nothing else |
| Der.ExportPublicKey | src/psa_key_storage.c:2257-2270 | writes exactly the precomputed total, or refuses a smaller buffer |
| Policy.IntersectByParts | src/psa_key_storage.c:2560-2661 | for MAC and AEAD the intersection depends on family, wildcard flag and length only |
| Policy.MacMeetExact | src/psa_key_storage.c:2612-2635 | for MAC policies the intersection permits exactly what both sides permit if and only if their lengths agree, as canonical ones do |
| Policy.MacMeetNeedsCanonicalLengths | src/psa_mac.c:168-191 | two policies that both permit a request and have no intersection |
| Policy.AeadMeetExact | src/psa_key_storage.c:2636-2659 | for AEAD policies the intersection permits exactly what both sides permit |
| Policy.AeadPermitsByParts | src/psa_aead.c:210-225 | what an AEAD policy permits in terms of family, wildcard flag and tag length |
| Policy.SignMeetExact | src/psa_key_storage.c:2577-2611 | for signature policies the intersection permits exactly what both sides permit if and only if it does not set a hashless algorithm against an open hash |
| Policy.SignMeetNeedsAHash | src/psa_key_storage.c:2859-2873 | two signature policies that both permit a request and have no intersection |
| Policy.IntersectExamples | src/psa_key_storage.c:2556-2661 | copies of real signature, MAC, AEAD and cipher policies, in the words of the API |
| Policy.KnownAlgorithms | src/psa_aead.c:210-225 | the AEAD algorithms that policies know, each permitting itself and not the next |
| Policy.CopyOutcome | src/psa_key_storage.c:2718-2756 | a copy comes about exactly when the source may be copied and both algorithms intersect; then usage is what both sides set |
| Policy.ChainExists | src/psa_key_storage.c:2718-2828 | a chain of copies exists exactly when every policy but the last may be copied and the algorithms intersect all along |
| Policy.UsageOfChain | src/psa_key_storage.c:2751-2752 | at the end of any chain a usage flag is set exactly when the first policy and every request set it |
| Policy.MacChainShrinks | src/psa_key_storage.c:2743-2754 | along any chain of copies of a MAC key permitted requests only shrink, also when its two algorithms belong to families of different full lengths |
| Policy.AeadChainShrinks | src/psa_key_storage.c:2825-2828 | along any chain of copies of an AEAD key permitted requests only shrink |
| KeyRecord.DeserializeOfSerialize | src/psa_key_storage.c:973-1061 | deserialization undoes serialization, but for the enrollment algorithm that is never stored |
| KeyRecord.LoadOfRecord | src/psa_key_storage.c:1101-1150 | a stored record reads back as the same attributes and data |
| KeyRecord.LoadOfPrefix | src/psa_key_storage.c:1109-1147 | a record cut short anywhere never reads as a key |
| KeyRecord.RecordInjective | src/psa_key_storage.c:1591-1658 | a record determines attributes and data |
| KeyRecord.RecordLayout | src/psa_key_storage.c:973-1010 | where each field of a record lies, least significant byte first |
| KeyRecord.LoadOutcome | src/psa_key_storage.c:1101-1150 | what a read makes of any bytes, with the length limits in numbers |
| KeyRecord.ExportOfRecord | src/psa_key_storage.c:2045-2051 | an export returns exactly the keys whose export flag is set |
| PosixStore.FileStore.Write | src/psa_store_posix.c:720-739 | a short write or a failed flush marks the handle, whatever reached the file |
| PosixStore.FileStore.Close | src/psa_store_posix.c:665-706 | the record name gets everything that was written or keeps what it had, other names are untouched, and the temporary name stays exactly when a failed write could not be cleaned up |
| PosixStore.RunWrites | src/psa_store_posix.c:665-739 | over any run of failing writes and a failing close the record name maps to old content or a complete new record, whether or not the temporary file can be removed |
| PosixStore.ImportRecord | src/psa_key_storage.c:1616-1658 | success exactly when nothing failed, and then the whole record is committed; otherwise the name is as before |
| PosixStore.GetKeyData | src/psa_key_storage.c:1101-1150 | header and body come from one open file |
| PosixStore.DestroyRecord | src/psa_store_posix.c:497-524 | a destroy takes the record name away and nothing else, or says why not |
| PosixStore.ImportThenGet | src/psa_key_storage.c:1591-1658 | a key reads back exactly when its import succeeded, with the same attributes and data |
| ZephyrStore.OpenSnapshot | src/psa_store_zephyr.c:107-176 | the snapshot is the front of the object at the get, of the size at the query, or an error |
| ZephyrStore.ZephyrHandle.Read | src/psa_store_zephyr.c:222-243 | reads are consecutive slices of the snapshot |
| ZephyrStore.ZephyrHandle.Write | src/psa_store_zephyr.c:245-287 | the object becomes all that was written so far, or stays |
| ZephyrStore.ReadAcrossReplacement | src/psa_store_zephyr.c:132-172 | an object replaced between size query and get never reads as a mixed or truncated key |
| ZephyrStore.ImportRecord | src/psa_key_storage.c:1591-1658 | success exactly when the object was set to the whole record |
| ZephyrStore.DestroyRecord | src/psa_store_zephyr.c:184-202 | the same for the Zephyr backend |
| VolatileKeys.LookupAfterRemoval | src/psa_key_storage.c:440-472 | removal takes out one id and no other |
| VolatileKeys.VolatileKeys.Find | src/psa_key_storage.c:379-391 | the list walk finds the key of an id |
| VolatileKeys.VolatileKeys.Store | src/psa_key_storage.c:393-438 | a new id gets its key, a used id is refused, other keys stay |
| VolatileKeys.VolatileKeys.Remove | src/psa_key_storage.c:440-472 | unlinking removes exactly the key of the id |
| VolatileKeys.VolatileKeys.IssueId | src/psa_key_storage.c:1533-1548 | ids come from the vendor range, are never issued twice, and run out only when all are issued |
| KeyStoreInterleaving.StepKeepsInv | src/psa_key_storage.c:1591-1636 | every step of every thread keeps lock, store, history and thread invariants |
| KeyStoreInterleaving.CommitsAndRemovalsAlternate | src/psa_key_storage.c:1935-1965 | in every interleaving commits and removals of an id take turns, so two imports never both succeed without a destroy between them |
| KeyStoreInterleaving.EventsAreSuccesses | src/psa_key_storage.c:1616-1658 | a step commits or removes a key exactly when it makes its thread report success |
| KeyStoreInterleaving.ImportsCommit | src/psa_key_storage.c:1640-1658 | an import that reported success committed its key, and a name exists exactly between commit and removal |
| KeyStoreInterleaving.ReadsReturnTheCurrentImport | src/psa_key_storage.c:2030-2081 | in every interleaving a read behaves as at one moment between its begin and its end: success returns attributes and data of the import current then, and no key found means there was none; an export succeeds with an exportable key only |
| KeyStoreInterleaving.ReadsSucceed | src/psa_key_storage.c:2030-2081 | in every run the last step of a read succeeds with the import current at the open, and only an export of a key without the export flag is refused |
| KeyStoreInterleaving.DestroyOfRuns | src/psa_key_storage.c:1956-1964 | in every run a destroy finds no key exactly when the last event of its id is no commit, otherwise removes it and nothing else, and without success changes nothing |
| KeyStoreInterleaving.DestroysRemove | src/psa_key_storage.c:1935-1965 | a destroy that reported success removed its key |
| KeyStoreInterleaving.ImportsBegin | src/psa_key_storage.c:1513-1572 | which imports reach the store |
| KeyStoreAgreement.PosixReadAgrees | src/psa_key_storage.c:1101-1150 | whatever other threads do in between, the open, header and body steps of a read or an export end in what the POSIX path computes from the record at the open |
| KeyStoreAgreement.ZephyrReadAgrees | src/psa_store_zephyr.c:107-176 | the steps of a snapshot read end in what the Zephyr read path computes from the objects at the size query and at the get |
| KeyStoreAgreement.PosixImportAgrees | src/psa_key_storage.c:1591-1658 | the steps of an import end in the status and the record of the POSIX import path under the same faults |
| KeyStoreAgreement.ZephyrImportAgrees | src/psa_key_storage.c:1591-1658 | the steps of an import end in the status and the record of the Zephyr import path |
| KeyStoreAgreement.DestroyAgrees | src/psa_key_storage.c:1956-1964 | the step of a destroy ends in the status and the content of the destroy path of the backends |

## Left out

- wolfCrypt itself, its failures in the middle of a CCM, cipher, KDF or XOF call, and allocation failure.
- Null-pointer checks, zeroization, tracing, constant-time behaviour, and initialisation of the library.
- AES stream modes of the cipher operation (CTR, CFB, OFB, CCM* without tag) and ChaCha20: they buffer nothing and pass through to wolfCrypt.
- One-shot AEAD calls and the one-shot-only XChaCha20-Poly1305 and Ascon paths: dispatch around the modelled operation or around wolfCrypt.
- `psa_aead_generate_nonce` and `psa_cipher_generate_iv`: random generation in front of the modelled set calls.
- Signature, key-agreement, KEM, key-wrap, hash and MAC front ends; for verify usages they also accept the other ECDSA or HashML-DSA family, which the signature policies here do not.
- Type, size and lifetime checks of `psa_copy_key`, and the attribute and key-material checks of `psa_import_key`.
- The size of the caller's buffer in `psa_export_key`.
- `psa_export_public_key` in the single-record claim: it opens its record twice.
- Path trust checks, environment variables, directory creation and Windows branches of the POSIX store; memory failure inside both stores.
- A volatile key with the id of a persistent record: import does not check that caller-chosen ids lie outside the vendor range, so shadowing is outside the interleaving model, which covers persistent keys only.
- PosixStore.ImportRecord: is stated for data up to INT_MAX - 24 bytes, because beyond that the C cast of the record length to `int` is implementation-defined.
- ZephyrStore.ImportRecord: is stated for data up to INT_MAX - 24 bytes, for the same cast.
- KDF setup refusing unsupported or malformed algorithm identifiers: the model starts from a supported algorithm.
- KdfOperation.ComputeOutput: requires of PBKDF2-CMAC, when its arguments are good, that the block loop ends, which holds exactly for at most 2^32 - 2 blocks.
- KdfOperation.KdfOperation.OutputBytes: requires that the request does not reach that loop with more blocks, because the code then does not return; `KdfRuns.RunCalls` ends there.
- KdfOperation.KdfOperation.VerifyBytes: carries the same requirement.
- KdfOperation.KdfOperation.OutputKey: carries the same requirement, and takes the outcome of importing the derived key as a parameter.
- Der.ExportPublicKey: is stated for integers of word32 size, which is what the RSA decoder returns.
- AeadOperation.AeadOperation.Verify: says nothing about the plaintext buffer when the tag is wrong.

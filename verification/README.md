# LoRa mesh firmware: verified model

This Dafny project models the protocol cores of the LoRa mesh firmware and proves what they are for:
the ratcheting session, crash-safe packet identifiers, the over-the-air updater, onion layers, two serial
framers with their checksum, the Meshtastic codec, cipher, channel and radio layers, contact records, and the
two fixed tables. `dafny verify dfyconfig.toml` checks all of it.

## How the model is built

- **Two layers.** Where the firmware updates a structure in place, a class with the same fields does so here, and
  its methods are proved equal to functions from state to state. The protocol theorems are lemmas about those
  functions, so they hold of the implementation.
- **Both ends are pinned.** A law that one function undoes another leaves open what goes in between, so every format
  and cipher also has a law of its own that spells the bytes out, down to HKDF and AES where there are keys
  (`EncryptBytes`, `OpenExactly`, `FrameBytes`, `HeaderLayout` and their like).
- **Cryptographic primitives are parameters** (`Primitives.Prims`, `Ota.Crypto`, `MeshCrypto.Aes`): X25519, HKDF,
  SHA-256, Ed25519 and the AES block are arbitrary functions. The only law assumed, and only as a hypothesis of the
  lemmas that need it, is Diffie-Hellman commutation (`DhCommutes`, section 6.1 of RFC 7748). HMAC padding, tag
  truncation and counter mode are built here as the firmware builds them.
- **Randomness, flash results and session identifiers are parameters** of the operations that draw them.
- **Words are bounded integers** with wrap-around written out; the checksum register is a 16-bit vector.

| file | contents |
|---|---|
| `Bytes`, `Primitives`, `ByteVec` | words, exclusive or, little-endian coding, counter mode, HMAC tag, bounded vectors |
| `SkippedKeys`, `Session`, `SessionRun` | skipped-key table, one session, whole runs of two sessions over a network |
| `PacketId` | identifier generator, its RTC writes, runs with power loss |
| `Ota` | updater state machine, safety over runs, chunking |
| `Onion` | layers, peeling, route building |
| `Crc16`, `Streaming`, `MeshCoreFrames`, `Kiss` | checksum, byte-fed parsers, the two framers |
| `Protobuf`, `MeshData`, `MeshUser` | varints, fields, the Data and User messages |
| `MeshCrypto`, `MeshPacket`, `MeshChannel`, `NodeKeys`, `MeshRadio` | cipher, header, channels, key store, end to end |
| `ContactCodec`, `ContactStore` | contact records and the contact table |

## Where the code differs from its own description

The model follows the code. What that means for the theorems:

- `prev_chain_len` is described as the length of the previous chain but carries the sender's *receive* count
  (lunarcore/lunar/session.c:290, 430). `SessionRun` therefore uses that number, and a link that loses nothing stops
  at the first ratchet exactly when it exceeds 200 (`LosslessLink`).
- Encryption steps the chain key before it checks the length (lunarcore/lunar/session.c:427, 437, 459), so a
  plaintext of more than 240 bytes leaves chain key and counter apart: `EncryptKeepsStep` is an equivalence.
- A second copy of a message advances the chain key but sets the receive counter to just past its own number
  (lunarcore/lunar/session.c:350-358): `PassedNumberParts` and `RepeatParts` say exactly which messages part the two.
- A header with another ratchet public takes effect before its tag is checked (lunarcore/lunar/session.c:472-494):
  `OtherPublicReplaces`.
- Inserting into a full skipped-key table drops the key without an error (lunarcore/lunar/session.c:93, 327). Runs may
  do so: only the message whose key was dropped can no longer be opened (`RunAgreement`, `SpentExactly`).
- KISS encoding escapes the command byte but the parser takes an escaped command for data
  (lunarcore/lunar/rnode.c:214-242, 290-364): `FrameRoundTrip` is an equivalence, `FeedEscapedCommand` says what
  comes out instead.
- The transmit path accepts an encoded message of 240 bytes; the receive path keeps 239
  (meshtastic_lite/meshtastic_radio.c:215, meshtastic_lite/meshtastic_packet.c:7-30). `EndToEnd` states both cases.
- A varint reader accepts nine bytes, so values from 2^63 on are written but refused
  (meshtastic_lite/pb_functions.c:29-42): `VarintRoundTrip` states both cases.
- A contact whose DID and name together exceed 148 bytes is encoded with fields missing
  (lunarcore/lunar/vec_helpers.c:48-85): `ContactRoundTrip` is exact at that bound.

## Model

| member | source | states |
|---|---|---|
| SessionRun.RunAgreement | lunarcore/lunar/session.c:260-518 | From a paired sender and receiver, in every run of any length with automatic ratchets, over a network that loses, reorders and repeats, all is well (each message opens to its plaintext, each ratchet brings both ends back in step) if and only if every delivery is timely: its number is at or past the receive count or its key found room when passed over, and a ratchet asks for at most 100 keys beyond the count. The run delivers nothing older than the newest chain and leaves no chain out, ratchet publics have new 8-byte prefixes, and a wrong key does not produce the tag |
| SessionRun.OrderIndependence | lunarcore/lunar/session.c:313-360 | With an empty table, messages of one chain in any order all open if and only if none arrives twice; the 100-key limit is never met |
| SessionRun.LosslessLink | lunarcore/lunar/session.c:260-335 | With nothing lost or reordered and any skipped table, full ones included, all goes well if and only if there are at most 100 messages or the sender's receive count, which it announces as previous chain length, is at most 200 |
| SessionRun.LosslessTimely | lunarcore/lunar/session.c:467-486 | Every such run is one the run theorem covers, and its deliveries are timely under exactly that condition |
| SessionRun.OneChainTimely | lunarcore/lunar/session.c:313-335 | While the table has room for a whole chain, deliveries of one chain without repeats are all timely |
| SessionRun.RunFromInvariant | lunarcore/lunar/session.c:416-518 | The equivalence of RunAgreement from any state satisfying the invariant |
| SessionRun.PairedInv | lunarcore/lunar/session.c:198-213 | Paired sessions satisfy the run invariant |
| SessionRun.DeliverCorrect | lunarcore/lunar/session.c:468-518 | One timely delivery opens to its plaintext and keeps the invariant: receive key is chain(receive count), and the table holds exactly the keys of the current chain that were set aside |
| SessionRun.DeliverUntimely | lunarcore/lunar/session.c:313-316 | Any other delivery of the current or next chain: a spent number is tried with the key of the present position and key and counter part; too large a skip is refused with nothing changed |
| SessionRun.SpentExactly | lunarcore/lunar/session.c:78-94 | A number is spent exactly by its own delivery or by being passed over after the slots ran out |
| SessionRun.TimelyOnce | lunarcore/lunar/session.c:338-360 | A run whose deliveries are all timely delivers no message twice, so by RunAgreement no run with a repeat goes right |
| SessionRun.SendCorrect | lunarcore/lunar/session.c:416-465 | One send succeeds and keeps the invariant; a new chain begins exactly with the hundredth message |
| SessionRun.EnterNextChain | lunarcore/lunar/session.c:473-481 | A header of the next chain moves the receiver to the root and chain key the sender derived, by Diffie-Hellman commutation, after setting aside what the header asks for |
| SessionRun.SkipToStores | lunarcore/lunar/session.c:313-335 | Skipping forward stores the keys of the messages passed over, as many as there is room for and lowest numbers first, each findable under its number, and changes no other answer |
| SessionRun.TakeKeptKey | lunarcore/lunar/session.c:338-343 | A message whose key was set aside gets its own chain's key and the key leaves the table |
| SessionRun.TakeNewKey | lunarcore/lunar/session.c:344-359 | A message at or past the receive count gets its own key, and the gap before it is stored as far as there is room |
| SessionRun.SendKeepsChains | lunarcore/lunar/session.c:266-292 | The sender's ratchet links the new chain to the old root and keeps all prefixes distinct |
| SessionRun.PassedNumberParts | lunarcore/lunar/session.c:338-360 | For any state and any message under the current ratchet public, whatever its tag: chain key and counter still agree afterwards if and only if the message was refused outright, its key was set aside, or its number is at or past the receive count |
| SessionRun.RepeatParts | lunarcore/lunar/session.c:338-360 | In a run: a delivery from the current chain leaves key and counter in agreement if and only if it is timely; a second copy never is |
| SessionRun.OtherPublicReplaces | lunarcore/lunar/session.c:472-485 | A header with any other ratchet public, an older chain's included, replaces root, chain and counter before the tag is looked at, whatever it then says, unless it asks for more than 100 keys; a key set aside for the message opens it all the same |
| SessionRun.EncryptKeepsStep | lunarcore/lunar/session.c:416-465 | Encryption keeps chain key and counter together, the hundredth message of a chain included, if and only if the plaintext has at most 240 bytes |
| Session.OpenSeal | lunarcore/lunar/session.c:432-459 | Opening with the sealing key and header returns the plaintext |
| Session.EncryptBytes | lunarcore/lunar/session.c:416-465 | The bytes of a sealed message, written out down to HKDF and AES: header, every byte masked with its key stream byte, tag over header and masked bytes; and exactly when there is one, with the error otherwise |
| Session.OpenBytes | lunarcore/lunar/session.c:486-516 | Opening with a key succeeds if and only if the last 16 bytes are the tag of header and body and there are at most 256 bytes, each failure with its error; the result is the body unmasked byte by byte |
| SessionRun.DecryptKey | lunarcore/lunar/session.c:468-490 | Which key decryption uses for any message on the receiver's chain: the one set aside, or the one its number and the chain, stepped as often as it is ahead, give; more than 100 ahead is refused |
| SessionRun.DecryptBytes | lunarcore/lunar/session.c:468-518 | Whatever is decrypted successfully is the ciphertext unmasked byte by byte under that key and a valid tag |
| Session.EncryptKeys | lunarcore/lunar/session.c:266-292 | The whole state after an encryption: chain step and count, or at the hundredth message a clamped private key and root and chain derived from the old root and its Diffie-Hellman output |
| Session.ClampBits | lunarcore/lunar/session.c:271-274 | The private key is the random one with bits 0, 1, 2 and 255 clear and bit 254 set |
| Session.PrefixBytes | lunarcore/lunar/session.c:341-342 | Keys set aside under two publics are told apart exactly when the first eight bytes differ |
| Session.Session.EncryptMessage | lunarcore/lunar/session.c:416-465 | The in-place encryption equals the state function in result, error cases and whole new state |
| Session.Session.DecryptMessage | lunarcore/lunar/session.c:468-518 | The in-place decryption equals the state function, including the state left behind by each failure |
| Session.Session.TakeMessageKey | lunarcore/lunar/session.c:338-360 | Stored key first, otherwise skip and derive; equals the state function |
| Session.Session.SkipKeys | lunarcore/lunar/session.c:313-335 | The loop reaches the recursive skipping function's state, or refuses and changes nothing |
| Session.Session.AdvanceSendRatchet | lunarcore/lunar/session.c:266-292 | The field updates equal the send-ratchet function |
| Session.Session.AdvanceRecvRatchet | lunarcore/lunar/session.c:295-310 | The field updates equal the receive-ratchet function |
| SkippedKeys.InsertLookup | lunarcore/lunar/session.c:78-94 | Inserting a message unknown so far changes the answer for it and for no other |
| SkippedKeys.ReleaseLookup | lunarcore/lunar/session.c:96-109 | Taking a key makes that message unknown and leaves every other answer alone |
| SkippedKeys.InsertKeeps | lunarcore/lunar/session.c:78-94 | Insertion uses one slot and keeps answers unique |
| SkippedKeys.ReleaseKeeps | lunarcore/lunar/session.c:96-109 | Taking a key frees one slot and keeps answers unique |
| SkippedKeys.InsertFull | lunarcore/lunar/session.c:81-93 | Insertion leaves the table as it was if and only if it is full |
| SkippedKeys.InsertElsewhere | lunarcore/lunar/session.c:78-94 | With or without room, insertion changes no answer for another message |
| SkippedKeys.Table.Put | lunarcore/lunar/session.c:78-94 | First free slot; fails exactly when none is free; the counter stays the number of occupied slots |
| SkippedKeys.Table.Take | lunarcore/lunar/session.c:96-109 | First matching slot, its key returned and the slot released; the counter stays exact |
| Primitives.CtrTwice | lunarcore/lunar/session.c:433-453 | Counter mode is its own inverse |
| Primitives.CtrByte | lunarcore/lunar/session.c:443-453 | Byte k is masked with byte k mod 16 of the encryption of nonce and block number k / 16 |
| Primitives.TagIsHmac | lunarcore/lunar/session.c:225-257 | The tag is HMAC as section 2 of RFC 2104 writes it, with the key padded to 64 bytes |
| Primitives.CtrInPlace | lunarcore/lunar/session.c:443-453 | The chunk loop masks byte k with byte k mod 16 of block k / 16, and nothing beyond the length |
| Primitives.ComputeTag | lunarcore/lunar/session.c:225-257 | The padded two-pass hash equals truncated HMAC-SHA256 |
| Bytes.ConstantTimeEq | lunarcore/lunar/session.c:151-158 | The or-of-differences loop answers true exactly on equal byte strings |
| Bytes.XorBit | lunarcore/lunar/packet_id.c:92-100 | Exclusive or acts on every bit separately |
| Bytes.ShrBounds | lunarcore/lunar/packet_id.c:92-100 | The shift is division by a power of two |
| Bytes.Le32Bytes | lunarcore/lunar/contact.c:276-280 | Words are laid out low byte first |
| Bytes.Le64Bytes | lunarcore/lunar/session.c:181-186 | The same for 64-bit words |
| PacketId.NeverReused | lunarcore/lunar/packet_id.c:148-239 | Over every run of calls, rotations, invalidations and power losses between any two RTC writes, from any RTC contents, no (session, sequence) pair is issued twice, provided that a session identifier, when one is drawn at all, is one under which nothing has been issued |
| PacketId.NeverRepeated | lunarcore/lunar/packet_id.c:226-239 | Hence all 32-bit identifiers of one session are pairwise different, across reboots |
| PacketId.StepSafe | lunarcore/lunar/packet_id.c:148-271 | One completed call, crash point or invalidation keeps: issued numbers at most checkpoint + 255, RAM ahead of all of them, none issued twice |
| PacketId.RunSafe | lunarcore/lunar/packet_id.c:148-271 | The checkpoint invariant holds after every run |
| PacketId.WakeSafe | lunarcore/lunar/packet_id.c:160-223 | Waking keeps the bound at each of its crash points and ends past everything issued, including the clamp near 0xFFFFFFFE; an unused session is needed only where waking draws one |
| PacketId.DrawSafe | lunarcore/lunar/packet_id.c:226-239 | A completed draw keeps the bound with the new number counted, through checkpoint and rotation; an unused session is needed only at the last number of a session |
| PacketId.OpSafe | lunarcore/lunar/packet_id.c:148-157 | Power loss between the writes of a draw or a rotation leaves a checkpoint that still covers everything issued |
| PacketId.IdsDistinct | lunarcore/lunar/packet_id.c:92-100 | Within a session two sequence numbers share an identifier if and only if they are equal |
| PacketId.MixRoundTrip | lunarcore/lunar/packet_id.c:92-100 | The mixer has an inverse on 32-bit words |
| PacketId.IdentifierWritten | lunarcore/lunar/packet_id.c:226-239 | The identifier in plain arithmetic |
| PacketId.PowerLossCost | lunarcore/lunar/packet_id.c:160-239 | After n draws in a new session and a power loss the next draw issues the first multiple of 256 that is at least n, or the last number at the very end: at most 255 numbers are lost |
| PacketId.DrawsIssue | lunarcore/lunar/packet_id.c:226-239 | n draws issue 0 to n - 1 and leave the last multiple of 256 issued in RTC memory |
| PacketId.DrawAfterLoss | lunarcore/lunar/packet_id.c:160-223 | From any checkpoint: the draw after a power loss issues 256 past it, clamped at the end, and counts the boot |
| PacketId.RotationStartsOver | lunarcore/lunar/packet_id.c:242-246 | After a rotation the next number issued is 0 of the new session |
| PacketId.InvalidationStartsOver | lunarcore/lunar/packet_id.c:268-271 | After an invalidation and a power loss a new session starts at 0 |
| PacketId.Generator.Init | lunarcore/lunar/packet_id.c:160-223 | RAM state, RTC contents and the order of RTC writes are those of the wake function |
| PacketId.Generator.DrawId | lunarcore/lunar/packet_id.c:226-239 | Identifier of the old (session, sequence), new state and write order as specified |
| PacketId.Generator.NextPacketId | lunarcore/lunar/packet_id.c:226-239 | Wake if needed, then draw: the composed state and write trace |
| PacketId.Generator.RotateInternal | lunarcore/lunar/packet_id.c:148-157 | New session, sequence 0, and two RTC writes in that order |
| PacketId.Generator.RotateSession | lunarcore/lunar/packet_id.c:242-246 | Wake if needed, then rotate |
| Ota.OnlyJustifiedAttempts | lunarcore/src/ota.rs:264-437 | In every run, whenever the boot partition was asked to be switched, successfully or not, flash held exactly the header's number of bytes (1 to 3584000), hashing to its hash, signed by a key trusted when the header was accepted, at a version not below the minimum then set; progress never exceeds 100 |
| Ota.RunKeepsInv | lunarcore/src/ota.rs:264-455 | Hasher input and flash contents agree with the byte count through every run |
| Ota.StepSafe | lunarcore/src/ota.rs:264-455 | One operation, with any flash failures, keeps that invariant |
| Ota.WriteSplit | lunarcore/src/ota.rs:295-416 | Two writes in a row equal one write of the concatenation, in every state and for every split: state, hasher input, flash, boot attempts |
| Ota.AnyChunking | lunarcore/src/ota.rs:295-416 | Any chunking of a stream equals one write of it |
| Ota.ImageOutcome | lunarcore/src/ota.rs:264-416 | An acceptable header and its image, however chunked and whatever follows: a matching hash ends Complete with that image booted, another hash ends Idle with nothing booted |
| Ota.PercentBound | lunarcore/src/ota.rs:350-385 | Progress is the exact quotient, at most 100, with no truncation and no division by zero |
| Ota.PackOrder | lunarcore/src/ota.rs:25-28 | Packed versions compare as major, then minor, then patch |
| Ota.DowngradeRejectedExactly | lunarcore/src/ota.rs:247-254 | Once a.b.c is the minimum, an otherwise acceptable header is rejected if and only if its version is older |
| Ota.RejectionReason | lunarcore/src/ota.rs:316-338 | The one reason each header is rejected for, in plain numbers and with the signature check written out |
| Ota.HeaderLayout | lunarcore/src/ota.rs:57-110 | Reading a header laid out in 144 bytes returns it, whatever follows |
| Ota.HeaderInverse | lunarcore/src/ota.rs:57-110 | A header is read if and only if the first five bytes are LUNA and 1 and there are 144; its layout is those bytes |
| Ota.AbortThenBegin | lunarcore/src/ota.rs:264-293 | Beginning works only from Idle, with its errors in order; after an abort, from any state, it starts from nothing, keys and minimum version kept |
| Ota.WriteConserves | lunarcore/src/ota.rs:295-385 | A successful write accounts for every byte it reports, and takes all it was offered unless the image is full |
| Ota.FirmwareSplit | lunarcore/src/ota.rs:350-385 | The split law within the image |
| Ota.HeaderSplit | lunarcore/src/ota.rs:305-348 | The split law across the header boundary |
| Ota.OtaManager.BeginUpdate | lunarcore/src/ota.rs:264-293 | In-place form of the begin function, with Busy, partition and flash errors |
| Ota.OtaManager.WriteChunk | lunarcore/src/ota.rs:295-303 | In-place form of the write function in every phase |
| Ota.OtaManager.FillHeader | lunarcore/src/ota.rs:305-348 | Header bytes are collected across calls; a full header is judged and the remainder passed on |
| Ota.OtaManager.RejectHeader | lunarcore/src/ota.rs:319-340 | The order of rejections: size, missing keys, version, signature |
| Ota.OtaManager.FillFirmware | lunarcore/src/ota.rs:350-385 | No byte beyond the announced size is hashed or written |
| Ota.OtaManager.Finish | lunarcore/src/ota.rs:387-416 | Hash, end, boot switch, with the state each failure leaves |
| Ota.OtaManager.VerifySignature | lunarcore/src/ota.rs:418-437 | The search over trusted keys answers true exactly when the header's key is among them and its signature verifies |
| Ota.OtaManager.AbortUpdate | lunarcore/src/ota.rs:447-455 | Handle dropped, phase Idle, everything else kept |
| Ota.OtaManager.AddTrustedKey | lunarcore/src/ota.rs:238-245 | Appends unless two keys are there |
| Onion.PeelRoundTrip | lunarcore/lunar/onion.c:106-287 | For every accepted route, hop-by-hop unwrapping forwards to exactly the route's hints in order and delivers the payload if and only if no hop after the first has hint 0; each layer adds 18 bytes |
| Onion.PeelFrom | lunarcore/lunar/onion.c:191-287 | The same from any hop on, by induction over the rest of the route |
| Onion.HopOpens | lunarcore/lunar/onion.c:191-243 | Each hop authenticates and opens exactly its own layer and reads the right next hint and layer number |
| Onion.OpenLayerRoundTrip | lunarcore/lunar/onion.c:289-355 | Opening a layer with its key returns the inner bytes and hint |
| Onion.OpenExactly | lunarcore/lunar/onion.c:191-287 | For every packet: it opens if and only if bytes 2 to 17 are the tag of the rest under the key written out, errors included, and to the rest unmasked byte by byte |
| Onion.UnwrapExactly | lunarcore/lunar/onion.c:191-287 | For every packet: both ways of unwrapping need that tag, forwarding also a nonzero next hint from the first two bytes, high byte first |
| Onion.ChangedTagRefused | lunarcore/lunar/onion.c:218-222 | A wrapped packet with any change to its tag is refused by its first hop |
| Onion.WrapOutcome | lunarcore/lunar/onion.c:106-125 | Exactly which routes and payloads are refused, and how |
| Onion.Router.WrapRoute | lunarcore/lunar/onion.c:106-188 | The loop from the last hop backwards builds the recursively defined layering; too short or long routes and too large payloads are refused |
| Onion.Router.UnwrapOne | lunarcore/lunar/onion.c:191-243 | Equals the unwrap function, errors included |
| Onion.Router.Open | lunarcore/lunar/onion.c:245-287 | Length check, tag check, decryption, in that order |
| Onion.Router.EncryptLayer | lunarcore/lunar/onion.c:289-315 | In-place masking equals counter mode with a zero nonce |
| Onion.BuildRoute | lunarcore/lunar/onion.c:415-433 | The first n - 1 relays and then the destination, exactly when n is 3 to 7 and there are enough relays |
| Crc16.ComputeCrc16 | lunarcore/lunar/protocol.c:138-147 | The table-driven loop equals the bit-serial CRC with polynomial 0x1021 and initial value 0xFFFF, for every length |
| Crc16.CheckValue | lunarcore/lunar/protocol.c:138-147 | The published check value of CRC-16/CCITT-FALSE: 0x29B1 |
| Crc16.TableCorrect | lunarcore/lunar/protocol.c:101-135 | Every one of the 256 entries is the bit-serial remainder of its index |
| Crc16.TableStepCorrect | lunarcore/lunar/protocol.c:138-147 | One table step equals eight bit steps on every register and byte |
| Crc16.OctetLinear | lunarcore/lunar/protocol.c:138-147 | The zero-input step is linear over exclusive or |
| Crc16.BitLinear | lunarcore/lunar/protocol.c:138-147 | One bit of the division is linear over exclusive or |
| Crc16.WordInjective | lunarcore/lunar/protocol.c:138-147 | Different bytes enter the register differently |
| Crc16.OctetInjective | lunarcore/lunar/protocol.c:138-147 | The zero-input step is injective, by an explicit inverse |
| Crc16.CrcInjective | lunarcore/lunar/protocol.c:138-147 | Common bytes never merge two different registers |
| Crc16.BurstDetected | lunarcore/lunar/protocol.c:138-147 | Strings differing only within two adjacent bytes have equal checksums if and only if they are equal |
| MeshCoreFrames.StreamRoundTrip | lunarcore/lunar/protocol.c:150-315 | Any list of frames, with any noise in between that contains no sync pair (single sync bytes, and one right before a frame, are allowed), parses back to exactly that list |
| MeshCoreFrames.CorruptionDetected | lunarcore/lunar/protocol.c:280-315 | Changing one byte or two adjacent bytes of command, sequence and data makes the parser emit nothing from that encoding |
| MeshCoreFrames.FeedWire | lunarcore/lunar/protocol.c:224-315 | A frame-shaped string yields its frame exactly when checksum and command are valid, and always leaves the parser between frames |
| MeshCoreFrames.ParseByte | lunarcore/lunar/protocol.c:224-315 | Each byte keeps: data held = data index < announced length <= 255 while data is awaited, so no append is ever dropped |
| Streaming.FeedConcat | lunarcore/lunar/protocol.c:224-315 | For both framers: feeding two strings in turn is feeding their concatenation |
| Streaming.StreamOut | lunarcore/lunar/protocol.c:224-315 | For both framers: if each frame with its noise comes out alone and leaves an idle parser idle, every stream comes out as exactly its frames |
| MeshCoreFrames.CommandRoundTrip | lunarcore/lunar/protocol.c:34-78 | A byte decodes to a command exactly when it is that command's byte |
| MeshCoreFrames.FrameBytes | lunarcore/lunar/protocol.c:150-171 | The frame byte by byte, with its length, checksum and end marker |
| MeshCoreFrames.WrongEndRefused | lunarcore/lunar/protocol.c:296-313 | A frame that is right but for its last byte is dropped |
| MeshCoreFrames.OversizeRefused | lunarcore/lunar/protocol.c:247-260 | A length above 255 sends the parser back to looking for a frame |
| MeshCoreFrames.EncodeFrame | lunarcore/lunar/protocol.c:150-171 | The buffer receives the frame's encoding and its length |
| MeshCoreFrames.FrameParser.FeedByte | lunarcore/lunar/protocol.c:224-315 | The in-place parser equals the feed function |
| Kiss.StreamRoundTrip | lunarcore/lunar/rnode.c:214-364 | Every list of frames with plain commands, with delimiter-free noise in between, parses back to exactly that list |
| Kiss.FrameRoundTrip | lunarcore/lunar/rnode.c:214-364 | A frame is recovered if and only if its command is neither delimiter nor escape byte |
| Kiss.FeedEscapedCommand | lunarcore/lunar/rnode.c:290-364 | Otherwise exactly one frame comes out: under the previous command, its data the command byte followed by the frame's data, cut to 512 bytes |
| Kiss.FendDelimits | lunarcore/lunar/rnode.c:214-242 | In an encoding the delimiter occurs exactly at the two ends |
| Kiss.StuffedBytes | lunarcore/lunar/rnode.c:214-242 | What byte stuffing does to each byte, with the four codes written out |
| Kiss.FeedEscaped | lunarcore/lunar/rnode.c:330-364 | What an escape does to the byte after it, for every byte, and at the 512-byte limit |
| Kiss.ExtraDelimiters | lunarcore/lunar/rnode.c:290-310 | Any number of extra delimiters may stand before a frame |
| Kiss.FrameBuffer.EncodeFrame | lunarcore/lunar/rnode.c:214-242 | The 1028-byte buffer holds the whole encoding of any frame: no push is dropped |
| Kiss.KissParser.FeedByte | lunarcore/lunar/rnode.c:290-364 | The in-place parser equals the feed function, with the 512-byte limit on data |
| Protobuf.VarintRoundTrip | meshtastic_lite/pb_functions.c:29-42 | A written value below 2^63 is read back taking exactly its bytes; every larger one is refused |
| Protobuf.VarintBound | meshtastic_lite/pb_functions.c:29-42 | Whatever is read is below 2^63 |
| Protobuf.VarintBytes | meshtastic_lite/pb_functions.c:167-177 | A varint byte by byte: byte i holds the i-th group of seven bits, with the high bit on all but the last |
| Protobuf.ReadsLocal | meshtastic_lite/pb_functions.c:29-136 | No successful read depends on the bytes after it |
| Protobuf.TagRoundTrip | meshtastic_lite/pb_functions.c:69-75 | Field number and wire type come back, for all 32-bit numbers |
| Protobuf.DelimitedRoundTrip | meshtastic_lite/pb_functions.c:126-136 | Length and bytes come back |
| Protobuf.Cursor.TakeVarint | meshtastic_lite/pb_functions.c:29-42 | The shift-and-or loop computes the base-128 value and refuses the tenth byte |
| Protobuf.Cursor.TakeBytes | meshtastic_lite/pb_functions.c:126-136 | At most the buffer's bytes are kept, the whole field is consumed |
| Protobuf.Cursor.Skip | meshtastic_lite/pb_functions.c:79-110 | Exactly one field of the wire type is consumed, or the read is refused inside the buffer |
| Protobuf.Cursor.TakeTag | meshtastic_lite/pb_functions.c:69-75 | Field number and wire type of the next tag |
| Protobuf.Writer.PutVarint | meshtastic_lite/pb_functions.c:167-177 | Writes the encoding exactly when it fits the capacity |
| Protobuf.Writer.PutBytesField | meshtastic_lite/pb_functions.c:192-200 | Writes tag, length and bytes exactly when they fit |
| MeshData.DataRoundTrip | meshtastic_lite/meshtastic_pb.c:16-74 | Decoding restores port, payload, reply flag and MQTT bit if and only if the port is in 1..65535 |
| MeshData.DecodeEncoded | meshtastic_lite/meshtastic_pb.c:275-295 | What decoding makes of every encoding with a port below 2^63 |
| MeshData.DataBytes | meshtastic_lite/meshtastic_pb.c:275-295 | The encoded message with its tag bytes |
| MeshData.OtherFields | meshtastic_lite/meshtastic_pb.c:42-66 | How destination, source, request identifier and a wide bitfield are read |
| MeshData.TrailingBytes | meshtastic_lite/meshtastic_pb.c:16-74 | How a message may end: no tag ends it, a broken value refuses it |
| MeshData.UnknownFieldIgnored | meshtastic_lite/meshtastic_pb.c:16-74 | Inserting a complete field of unknown number after any run of complete fields leaves the result unchanged, whatever follows |
| MeshData.UnknownFieldForms | meshtastic_lite/pb_functions.c:79-110 | Every way of writing an unknown field, in all four wire types, is such a field |
| MeshData.TurnLocal | meshtastic_lite/meshtastic_pb.c:20-72 | A field read completely is read the same way whatever follows |
| MeshData.FieldsThen | meshtastic_lite/meshtastic_pb.c:19-72 | Decoding a run of complete fields and then more is decoding the rest from the accumulated message |
| MeshData.DecodeData | meshtastic_lite/meshtastic_pb.c:16-74 | On every byte string of at most 65535 bytes the loop ends, stays inside the buffer and equals the decoding function |
| MeshData.EncodeData | meshtastic_lite/meshtastic_pb.c:275-295 | The encoding and its length, or 0 exactly when it exceeds the capacity |
| MeshUser.UserRoundTrip | meshtastic_lite/meshtastic_pb.c:146-190 | A User comes back if and only if every field fits its buffer; otherwise the long fields come back cut |
| MeshUser.UserBytes | meshtastic_lite/meshtastic_pb.c:302-329 | The encoded User with its tag bytes |
| MeshUser.DecodeUser | meshtastic_lite/meshtastic_pb.c:146-190 | Total on every byte string, equal to the decoding function |
| MeshUser.EncodeUser | meshtastic_lite/meshtastic_pb.c:302-329 | The encoding and its length, or 0 exactly when it does not fit |
| MeshCrypto.CryptTwice | meshtastic_lite/meshtastic_crypto.c:66-79 | Decryption undoes encryption, with every key length and without a key |
| MeshCrypto.NonceBytes | meshtastic_lite/meshtastic_crypto.c:22-32 | The nonce byte by byte |
| MeshCrypto.NonceDistinct | meshtastic_lite/meshtastic_crypto.c:22-32 | Two nonces are equal if and only if sender and packet identifier are |
| MeshCrypto.CryptByte | meshtastic_lite/meshtastic_crypto.c:38-63 | Byte k is masked with byte k mod 16 of the encryption of identifier, sender and block number k / 16; without a key it is unchanged |
| MeshCrypto.CryptInPlace | meshtastic_lite/meshtastic_crypto.c:38-63 | The block loop equals counter mode with a 32-bit big-endian block counter |
| MeshCrypto.Increment | meshtastic_lite/meshtastic_crypto.c:38-63 | The byte-carry loop adds one modulo 2^32 to the last four bytes and leaves the rest |
| MeshCrypto.CounterNext | meshtastic_lite/meshtastic_crypto.c:38-63 | Stepping the counter block i times adds i modulo 2^32 |
| MeshPacket.ParseBuild | meshtastic_lite/meshtastic_packet.c:7-58 | Parsing a built frame returns every header field, with the payload cut to 239 bytes |
| MeshPacket.PacketBytes | meshtastic_lite/meshtastic_packet.c:36-58 | The frame byte by byte: addresses, identifier, flag bits, hash, hops |
| MeshPacket.BuildParse | meshtastic_lite/meshtastic_packet.c:7-30 | A frame is refused if and only if it has fewer than 16 bytes; any other is the frame of what is parsed from it, up to 255 bytes |
| MeshPacket.FlagsRoundTrip | meshtastic_lite/meshtastic_packet.c:7-58 | The flag byte separates hop limit, hop start, acknowledgement and MQTT bit |
| MeshPacket.BuildInto | meshtastic_lite/meshtastic_packet.c:36-58 | The output buffer receives header and payload |
| MeshChannel.Table.AddChannel | meshtastic_lite/meshtastic_channel.c:109-143 | Appends the specified channel, key inherited from the primary where due, or refuses the ninth |
| MeshChannel.PskExpanded | meshtastic_lite/meshtastic_channel.c:28-63 | The expanded key byte by byte: raw keys are used as they are if and only if they have 0, 16 or 32 bytes, one byte replaces the default key's last and stands for the default key if and only if it is 1, shorter keys are filled with zeros, longer ones cut |
| MeshChannel.ChannelAdded | meshtastic_lite/meshtastic_channel.c:109-143 | Every property of a new channel: name, key or the primary's key it inherits, hash |
| MeshChannel.InheritedIs | meshtastic_lite/meshtastic_channel.c:126-137 | The inherited key is the first enabled primary channel's |
| MeshChannel.XorHashSplit | meshtastic_lite/meshtastic_channel.c:11-16 | The hash of a concatenation is the exclusive or of the hashes |
| MeshChannel.HashIsFold | meshtastic_lite/meshtastic_channel.c:66-71 | A channel's hash is that of its name and key bytes together |
| MeshChannel.ComputeXorHash | meshtastic_lite/meshtastic_channel.c:11-16 | The loop folds all bytes |
| MeshChannel.Table.FindByHash | meshtastic_lite/meshtastic_channel.c:159-170 | The first enabled channel with the hash, or none exists |
| MeshChannel.Table.TryDecrypt | meshtastic_lite/meshtastic_channel.c:192-213 | The first enabled channel with the hash whose plaintext decodes, and that plaintext |
| MeshRadio.EndToEnd | meshtastic_lite/meshtastic_radio.c:152-233 | A built frame that the receiver cannot take for one encrypted to its own key pair, received by any session whose only enabled channel with that hash has the same key, returns port, payload, MQTT bit and all header fields if its encoding has at most 239 bytes, and is dropped if it has 240 |
| MeshRadio.ReceiveDirect | meshtastic_lite/meshtastic_radio.c:163-176 | Exactly when a packet is taken as a direct message, whatever the channels hold, and that every other frame is received as if there were no key pair |
| MeshRadio.ReceiveChannel | meshtastic_lite/meshtastic_radio.c:178-195 | Otherwise the first enabled channel with the hash whose plaintext decodes gives the result, and there is none exactly when no channel does |
| MeshRadio.FrameBytes | meshtastic_lite/meshtastic_radio.c:209-233 | The transmitted frame byte by byte: header fields and masked message |
| MeshRadio.CutRefused | meshtastic_lite/meshtastic_packet.c:7-30 | A 240-byte encoding without its last byte never decodes |
| MeshRadio.AnnouncementTeaches | meshtastic_lite/meshtastic_pki.c:278-289 | A node announcement carrying a 32-byte key always fits a frame, and its receiver ends up with exactly that key for the sender |
| MeshRadio.CryptCut | meshtastic_lite/meshtastic_crypto.c:38-63 | Decrypting a cut ciphertext gives the cut plaintext |
| MeshRadio.Session.BuildTx | meshtastic_lite/meshtastic_radio.c:209-233 | The buffer receives the specified frame under the next identifier, or 0 exactly when the channel is missing or the message does not fit; then no identifier is drawn |
| MeshRadio.Session.ProcessRx | meshtastic_lite/meshtastic_radio.c:152-203 | Equals the receive function: key-pair decryption first when it applies, then channels; the key store learns what the result announces |
| MeshRadio.IdsEqual | meshtastic_lite/meshtastic_radio.c:99-113 | In any run of draws two identifiers are equal if and only if their random parts are equal and the draws lie a multiple of 1024 apart |
| MeshRadio.IdsOfBlock | meshtastic_lite/meshtastic_radio.c:107-113 | Between two renewals of the random part all identifiers are pairwise different |
| MeshRadio.IdParts | meshtastic_lite/meshtastic_radio.c:107-113 | The low ten bits of the i-th identifier are the counter's, the rest is the random part then in force |
| MeshRadio.BaseRenewed | meshtastic_lite/meshtastic_radio.c:107-113 | The random part is renewed exactly every 1024 identifiers, from the random word then drawn |
| MeshRadio.Session.LearnKey | meshtastic_lite/meshtastic_pki.c:278-289 | The store changes only for an announcement with a 32-byte key |
| NodeKeys.RunRefines | meshtastic_lite/meshtastic_pki.c:41-70 | After every run of updates the store is the last 64 insertions in order, each node once and with its latest key |
| NodeKeys.GetAfterRun | meshtastic_lite/meshtastic_pki.c:73-82 | A lookup after any run returns the latest key for exactly the nodes of the last 64 insertions |
| NodeKeys.SetRefines | meshtastic_lite/meshtastic_pki.c:41-70 | One update keeps that |
| NodeKeys.Store.SetKey | meshtastic_lite/meshtastic_pki.c:41-70 | In place: overwrite, append, or shift out the oldest |
| NodeKeys.Store.GetKey | meshtastic_lite/meshtastic_pki.c:73-82 | The search equals the lookup function |
| ContactCodec.ContactRoundTrip | lunarcore/lunar/contact.c:244-347 | A contact comes back unchanged if its version is 3 and DID and name fit in 148 bytes, and loading fails otherwise |
| ContactCodec.HelloRoundTrip | lunarcore/lunar/contact.c:40-181 | The same equivalence for a hello; a hello that decodes at all decodes to itself |
| ContactCodec.SignedPart | lunarcore/lunar/contact.c:40-74 | Which fields survive the 256-byte buffer, for every pair of lengths |
| ContactCodec.HelloBytes | lunarcore/lunar/contact.c:40-105 | The hello on the wire, field by field |
| ContactCodec.HelloAccepted | lunarcore/lunar/contact.c:108-181 | Which byte strings are hellos, and the error for each of the others, in plain numbers |
| ContactCodec.HelloFields | lunarcore/lunar/contact.c:108-181 | An accepted hello's fields spell exactly the bytes read |
| ContactCodec.ContactBytes | lunarcore/lunar/contact.c:244-280 | The record, field by field, with the trust codes |
| ContactCodec.RecordAccepted | lunarcore/lunar/contact.c:283-347 | Which byte strings are records and what they say, unknown trust levels and over-long petnames included |
| ContactCodec.WriteSigned | lunarcore/lunar/contact.c:40-74 | The appends produce the signed part |
| ContactCodec.WriteHello | lunarcore/lunar/contact.c:98-105 | The appends produce the encoded hello |
| ContactCodec.WriteContact | lunarcore/lunar/contact.c:244-280 | The appends produce the record |
| ContactCodec.ReadHello | lunarcore/lunar/contact.c:108-181 | The moving position with a check before every read equals the decoding function, error by error |
| ByteVec.Vec.ExtendFromSlice | lunarcore/lunar/vec_helpers.c:48-66 | All of the slice or none of it |
| ByteVec.Vec.Push | lunarcore/lunar/vec_helpers.c:68-86 | Appends, or drops the byte when full |
| ContactStore.RunStore | lunarcore/lunar/contact.c:359-448 | Over every run of additions and removals the slots hold exactly the finite map the operations describe, at most 64 fingerprints, and the counter is its size |
| ContactStore.Store.AddContact | lunarcore/lunar/contact.c:384-412 | Adds or replaces; fails exactly when the fingerprint is new and the map holds 64 |
| ContactStore.Store.GetContact | lunarcore/lunar/contact.c:415-422 | Finite-map lookup |
| ContactStore.Store.RemoveContact | lunarcore/lunar/contact.c:435-448 | Finite-map removal, returning the old value |
| ContactStore.Store.Probe | lunarcore/lunar/contact.c:366-412 | Probing finds a free slot unless all are taken |
| ContactStore.ContentsAt | lunarcore/lunar/contact.c:384-422 | A slot holds a fingerprint if and only if the map does, with the map's value |
| ContactStore.ContentsSize | lunarcore/lunar/contact.c:451-454 | The number of taken slots is the size of the map |
| ContactStore.ContentsUpdate | lunarcore/lunar/contact.c:384-448 | Writing one slot changes the map at the fingerprints involved and nowhere else |
| ContactStore.AddExactly | lunarcore/lunar/contact.c:350-412 | A contact is stored under the first eight bytes of the SHA-256 of its signing key; nothing else changes; turned away exactly when that is new and 64 are held |
| ContactStore.HashStep | lunarcore/lunar/contact.c:366-375 | The slot hash is 32-bit FNV-1a |

## Left out

- The cryptographic primitives, unforgeability of tags, and the quality of randomness: outside the functional model.
- Session agreement as set up by `session_new`: the two roles derive their roots with different salts (lunarcore/lunar/session.c:369-371), so agreement starts from the `Paired` predicate instead.
- Runs that go on after a message of an older chain, or one that leaves a chain out: the code does not support them; `SessionRun.OtherPublicReplaces` shows what they do.
- Traffic in both directions at once: `SessionRun` has one sender and one receiver; the ratchet reply in the other direction is not part of a run.
- SessionRun.PassedNumberParts: leaves out receive counts within 101 of 2^64, where the counter wraps.
- Time-based ratcheting, session serialisation, the session manager and NVS storage.
- The tag function's fixed 512-byte scratch buffer: tags here are over byte strings of any length.
- Primitives.CtrInPlace: counts blocks without bound; the 64-bit block counter of the source cannot wrap on its 256-byte buffers.
- `next_packet_id_64`, which takes no checkpoint, concurrent callers, and the initialisation spin wait (lunarcore/lunar/packet_id.c:258-265).
- How session identifiers are generated: that a run draws unused ones is a hypothesis (`FreshRun`).
- The updater's C twin (lunarcore/lunar/ota.c), whose first error code negates to 0, and the effect of a flash abort on flash contents; confirmation, rollback and reboot. Counters of chunk bytes are not bounded by the target's 32-bit `usize`.
- Delivery of the first MeshCore frame to the protocol detector, the host-side message builders, and the second half of lunarcore/lunar/rnode.c, which redefines the same names.
- Random number generator health, address lookup, the C session manager, and `encrypt_for_tx` / `decrypt_from_rx`.
- Floating-point airtime, slot and backoff formulas, signal strength fields, region tables, battery curve.
- Loading contacts from NVS, `contact_store_get_mut`, QR text, and signing: signatures are carried as bytes.
- Key-pair encryption of direct messages: `MeshRadio.Session.ProcessRx` takes the decryption attempt as a parameter that returns a plaintext of at most 240 bytes.
- Position and telemetry decoders, `readFixed64`, `readFloat` and the terminating zero of strings; User fields are byte strings without their terminators.
- A null validation callback in `tryDecrypt`; the receive path always passes one.
- The C library's global cursors: the cursor and writer are objects set up on the caller's buffer, as their declarations intend.
- MeshCrypto.CryptInPlace: lengths from 0xFFF0 on, where the 16-bit offset of the source wraps, are excluded; packets have at most 239 bytes.
- MeshRadio.EndToEnd: excludes frames with channel hash 0 addressed to a receiver with a key pair, which tries that first.

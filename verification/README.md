# A verified model of the firmware's protocol, storage and display logic

This project models parts of a drone ground-unit firmware in Dafny and proves what they do, for
every input and every run. `dafny verify dfyconfig.toml` checks all of it.

**The bitproto codec** (`Bits`, `Numbers`, `CopyBits`, `Schema`, `Codec`, `Walker`, `Encoding`,
`Memory`, `Decoding`, `RoundTrip`, `Cursors`, `Messages`, `Drone`, `AnyWire`, `Places`,
`DroneLayout`). A message type is a tree of descriptors; the walkers pack its
fields bit by bit. `CopyBits.CopyBufferBits` is the copy loop with its word, byte and OR-ing
branches, on arrays; it is proved equal to a closed form, bit by bit, for every initial
destination and for both builds. `Walker` has the walkers on a context, a wire buffer and struct
memory, for little- and big-endian hosts, each proved to do what `Codec.Walk` says. The semantics
that `Walk` is measured against is independent of it: `Schema.WireBits` is the concatenation of
the low bits of the fields of a value, and `Schema.Read` is the value that a host's memory holds.
`Encoding.EncodeType` and `Decoding.DecodeType` connect the two, and `RoundTrip.RoundTrip` states
the result: a compatible reader on a host of either byte order gets what its type has room for of
the writer's value, both cursors end at the same bit, and nothing else changes. `Cursors.OwnCursor`
is the exact condition, for whole type trees, under which decoding ends where encoding did, and
`AnyWire` says what decoding makes of bytes that no encoder need have produced. `Places` says where
each scalar of a type is, and `DroneLayout` lists those of a drone, field by field.

**Frames over a stream socket** (`FrameHeader`, `Sockets`, `Framing`, `Telemetry`). The bodies of the socket's
methods leave open how many bytes a call moves, when it asks to be called again or fails, and how
much time passes; the socket records its calls, and every outcome is tied to that record. `Framing.Parse` says what the front of a stream is to a reader; `ReadFrame` and
`WriteFrame` are proved against it. `WriteFrames` and `ReadFrames` run them one after the other;
`Framing.FramesArrive` says what the reads get from the bytes that the writes left, however either
ended, and `Framing.AllFramesArrive` that they get everything unless the socket interrupts them.
`Telemetry` does the same for encoded and decoded drones, and has the round of one echoed drone.

**Waiting for the modem** (`Wrappers`, `CStrings`, `Matcher`). The response matcher works on the
receive buffer in place and is proved equal to a search of the whole history of the stream; which
marker gives which answer is in `Matcher.VerdictIs` and in the contract of `Matcher.WaitResponse`.

**The server address that survives reboots** (`Checksum`, `ServAddr`) and **the modem's one
socket** (`Offload`). The operations change state in place and are proved to take the steps of a
state machine; the invariants are about all of its runs. The steps themselves are pinned down
without the functions that compute them (`ServAddr.CopyIs`, `ServAddr.LoadIs`, `ServAddr.PromoteIs`,
`Offload.Created`, `Offload.Successes`, `Offload.Failures`).

**Text on the display** (`Framebuffer`, `Utf8`, `Layout`, `Font`, `Text`). The packed framebuffer
refines a grid of pixels; text goes through decoding, wrapping, the sorted glyph table and the
rasterizer of the font tool down to the pixels (`Text.TextOnDisplay`).

Some things the code does that its names do not suggest; the model follows the code:

- The decoder of an extensible array skips by the sender's capacity times its own capacity, not
  times the width of an element (`src/bitproto/bitproto.c:277`). `Cursors.OwnCursor` and
  `Cursors.ExtensibleArrayCursor` give the exact condition under which the cursor is right all the
  same.
- The bit count that an extensible message sends ahead is whatever its descriptor states. If it
  does not count its own 16 bits, a reader that knows fewer fields stops too early
  (`Cursors.PrefixMustBeCounted`).
- Decoding ORs into the last, partial byte in some positions only, so that old bits there may or
  may not survive (`CopyBits.StaleBits`).
- A frame that is refused for its length is left in the stream without its header
  (`Framing.RefusedFrameStays`).
- A NUL from the modem hides what follows it as long as it is in the buffer (`Matcher.NulHides`,
  `Matcher.WindowDecidesExactly`).
- Promoting the address that is already active succeeds without writing it, even after a failed
  save has destroyed the record (`ServAddr.FailedSaveStays`).
- Opening a TLS connection does not set the flag that sending and receiving ask for, so that a TLS
  socket connects and carries nothing (`Offload.TlsCarriesNothing`).
- The loop over the rounds of a session leaves after its first round, whatever that gave
  (`src/drone.c:100`).
- Overlong UTF-8 forms are decoded like the shortest ones (`Utf8.DecodedForm`), and with no
  columns the layout still draws, one character a row, from the second row on (`Layout.NoColumns`).

## Model

| member | source | states |
|---|---|---|
| CopyBits.CopyBufferBits | src/bitproto/bitproto.c:292-398 | For every n, offsets and initial destination, either build of the loop terminates and leaves exactly the closed form `Copied`, with every access inside the arrays; so the word-copy and byte-only builds agree bit for bit. |
| CopyBits.CopyAligned | src/bitproto/bitproto.c:311-365 | At a destination byte boundary, whichever of the word, half-word, byte or OR-ing branches is taken, at least one bit and no more than what is left is copied, and the destination is the closed form up to there. |
| CopyBits.StoreShifted | src/bitproto/bitproto.c:329-347 | Storing a shifted little-endian word changes exactly the bits of its bytes: the source bits above the shift, then zeros. |
| CopyBits.OrInto | src/bitproto/bitproto.c:362-390 | OR-ing a masked byte sets exactly the addressed bits that the source has set and clears none, also where an empty source byte is skipped. |
| CopyBits.CopyPlaces | src/bitproto/bitproto.c:292-398 | If the destination is clear from the start of the copy to the end of its last byte, or everything is byte-aligned, a copy puts the source bits in place and changes no other bit. |
| CopyBits.CopyAppends | src/bitproto/bitproto.c:292-398 | Into a buffer that is clear from the cursor on, a copy appends the bits and leaves the rest clear: what encoding relies on from field to field. |
| CopyBits.CopySplit | src/bitproto/bitproto.c:225-234 | Copying n + m bits at once is copying n and then m, into a clear destination or between byte boundaries: what makes the batched array copy right. |
| CopyBits.CopyTouches | src/bitproto/bitproto.c:325-339 | No byte outside the first to the last addressed one changes, in spite of the word stores. |
| CopyBits.CopyOutside | src/bitproto/bitproto.c:292-398 | For every initial destination, no bit before it changes, none behind it is set, and those behind it that are cleared share a byte with the last copied bit. |
| CopyBits.StaleBits | src/bitproto/bitproto.c:311-391 | An old bit in the copied range of an aligned destination survives exactly when it is in the last byte, n % 8 != 0 and si % 8 + n % 8 < 8. |
| CopyBits.Assigned | src/bitproto/bitproto.c:325-348 | Invariant step of the assigning branches: bytes assigned at the cursor are among those the closed form overwrites, and bring the partial copy forward. |
| CopyBits.Merged | src/bitproto/bitproto.c:352-390 | Invariant step of the OR-ing branches: the byte is not one the closed form overwrites from its first bit, and the bits above the cursor stay as they were. |
| Bits.BitIsDigit | src/bitproto/bitproto.c:362-390 | The bits in which copies are stated are the binary digits of bytes. |
| Numbers.SignExtensionRecovers | src/bitproto/bitproto.c:440-496 | For every n from 1 to the width of the container, an n-bit two's complement number cut to n bits and sign-extended is the number again. |
| Numbers.LoadHolds | src/bitproto/bitproto.c:329-336 | A little-endian word access reads the number whose bits are the bits of the bytes. |
| Schema.ReadAgrees | src/bitproto/bitproto.h:121-184 | The value of a type in memory depends only on the bytes of the type. |
| Walker.EndecodeBaseType | src/bitproto/bitproto.c:405-438 | Both builds, encoding and decoding: one copy between wire and struct, through the reversed staging buffer on a big-endian host, and the cursor moves by n. |
| Walker.StageFrom | src/bitproto/bitproto.c:411-418 | The staging buffer holds the little-endian form of the field, then zeros. |
| Walker.StageTo | src/bitproto/bitproto.c:422-425 | The bytes of the field, and no others, become the reversed staging buffer. |
| Walker.HandleIntSignAfterEndecode | src/bitproto/bitproto.c:446-496 | When decoding a width that is not 8, 16, 32 or 64, all bits of the container from n on become the sign bit; otherwise nothing changes. |
| Walker.SignExtend | src/bitproto/bitproto.c:471-494 | Testing the sign bit and OR-ing the mask of the bits from n on gives the sign-extended bytes. |
| Walker.EndecodeInt | src/bitproto/bitproto.c:499-506 | An integer is copied and then sign-extended. |
| Walker.EncodeExtensibleAhead | src/bitproto/bitproto.c:510-538 | The 16-bit number goes to the wire through a local in host byte order. |
| Walker.DecodeExtensibleAhead | src/bitproto/bitproto.c:521-548 | The 16-bit number at the cursor is returned, and the cursor moves by 16. |
| Walker.EndecodeMessage | src/bitproto/bitproto.c:87-126 | The loop over the fields takes wire, struct and cursor where the recursive specification says, including the skip of redundant bits. |
| Walker.EndecodeMessageField | src/bitproto/bitproto.c:129-150 | The switch on the type of a field does what the specification says for that type. |
| Walker.EndecodeAlias | src/bitproto/bitproto.c:156-174 | The type behind an alias is processed, for the types that the switch has a case for. |
| Walker.EndecodeArray | src/bitproto/bitproto.c:178-283 | Batched or one by one, with the prefix and the skip, the array does what the specification says. |
| Walker.EndecodeItems | src/bitproto/bitproto.c:249-271 | The element loop is the recursive specification of it, with the data pointer advanced by the element's size. |
| Walker.SignItems | src/bitproto/bitproto.c:236-245 | The sign loop after a batched copy changes nothing, because batched elements are complete C integers. |
| Encoding.SourceBits | src/bitproto/bitproto.c:409-431 | The bits a host copies from, directly or through the staging buffer, are the low bits of the number in memory: bits above n never leak. |
| Encoding.EncodeBase | src/bitproto/bitproto.c:405-438 | On a host of either byte order, encoding a base field appends the n low bits of the field's number to a clear wire. |
| Encoding.BatchIsLoop | src/bitproto/bitproto.c:212-272 | For complete C integers and aliases to them, for every capacity and cursor, the single batched copy gives the same wire (from a clear buffer) or the same memory as the element loop. |
| Encoding.EncodeType | src/bitproto/bitproto.c:87-283 | Encoding a value of any well-formed type appends exactly its wire bits to a clear wire: the concatenation, in field order, of the low bits of its numbers, with the extensible prefixes. |
| Encoding.EncodeFields | src/bitproto/bitproto.c:109-115 | The fields of a message are encoded one behind the other, in order. |
| Encoding.EncodeItems | src/bitproto/bitproto.c:249-271 | So are the elements of an array. |
| Encoding.WalkMoves | src/bitproto/bitproto.c:87-283 | Without extensible types, both passes move the cursor by exactly the bit count of the tree. |
| Encoding.WalkFits | src/bitproto/bitproto.c:87-283 | Encoding any type, and decoding any without extensible parts, stays inside the wire and the struct if they have room for its bits and bytes. |
| Decoding.DecodeBase | src/bitproto/bitproto.c:405-438 | Decoding n bits gives the bits of the wire, then zeros, in the container, and changes no other byte. |
| Decoding.DecodeSigned | src/bitproto/bitproto.c:446-506 | A negative or positive n-bit number on the wire is the same number in its 8-, 16-, 32- or 64-bit container after decoding. |
| Decoding.DecodeUnsigned | src/bitproto/bitproto.c:405-438 | An unsigned n-bit number on the wire is the same number in its container after decoding. |
| Decoding.DecodeAheadIs | src/bitproto/bitproto.c:521-548 | The 16-bit number that was sent ahead is the one received, on hosts of either byte order. |
| Decoding.DecodeType | src/bitproto/bitproto.c:87-283 | Decoding the wire form of a value of a writer's type, with any compatible reader's type, into memory whose old bits cannot show through, gives the part that the reader knows, with the cursor at the writer's end. |
| Decoding.DecodeFields | src/bitproto/bitproto.c:109-125 | Fields behind an extensible field decode correctly because the cursor lands where the writer's did. |
| Decoding.DecodeItems | src/bitproto/bitproto.c:249-271 | The first elements of the writer's array are decoded, at every nesting depth. |
| Decoding.DecodeFits | src/bitproto/bitproto.c:87-283 | Decoding what a compatible writer sent stays inside the buffers. |
| RoundTrip.RoundTrip | src/bitproto/bitproto.c:87-548 | For any well-formed writer and compatible reader types, any writer's struct and starting bit, and byte orders: a reader's struct that was cleared, or that decoding overwrites in full, then holds the writer's value, cut to what the types can carry; both cursors meet, and nothing else changes. |
| RoundTrip.SameSchemaRoundTrip | src/bitproto/bitproto.c:87-548 | With one schema, every value in range comes back, whatever it nests, and both cursors move by the type's bit count. |
| Cursors.OwnCursor | src/bitproto/bitproto.c:87-283 | For every well-formed type, value, starting bit, byte orders and reader's memory: decoding with the sender's own schema ends at the sender's cursor if and only if no extensible type, at any depth where something is decoded, skips too far. |
| Cursors.Over | src/bitproto/bitproto.c:109-125 | If one does, wherever it stands and whatever stands behind it, the cursor goes strictly past the sender's. |
| Cursors.AtLeast | src/bitproto/bitproto.c:117-125 | From any state, decoding a type moves the cursor by at least its bits: skips only go forward. |
| Cursors.CursorOnly | src/bitproto/bitproto.c:87-283 | Where decoding ends depends on the wire alone, not on the struct or where it is. |
| RoundTrip.WrapCarries | src/bitproto/bitproto.c:292-398 | A value out of range is carried as the value in range with the same low bits. |
| RoundTrip.HostsAgree | src/bitproto/bitproto.c:407-437 | Hosts of both byte orders that hold the same value produce the same wire. |
| RoundTrip.DirtyMemory | src/bitproto/bitproto.c:405-438 | Every type on a big-endian host, and on a little-endian one every type all of whose scalars are complete C integers, decodes correctly into a struct that was not cleared. |
| Memory.BlankAccepts | src/bitproto/bitproto.c:311-391 | In cleared memory no old bit can show through, for every type. |
| Memory.AnyAccepts | src/bitproto/bitproto.c:411-436 | Nor in any memory on a big-endian host, or for types of complete C integers. |
| Cursors.ExtensibleArrayCursor | src/bitproto/bitproto.c:275-282 | Decoding an extensible array with its own schema ends at the encoder's cursor if and only if its elements, if it has any, do, and cap * cap <= 16 + cap * element bits. |
| Cursors.ExtensibleBytesOvershoot | src/bitproto/bitproto.c:275-282 | The concrete failure: for 32 extensible bytes the cursors differ. |
| Cursors.ExtensibleMessageCursor | src/bitproto/bitproto.c:117-125 | A reader with a prefix of the writer's fields ends at the writer's cursor if and only if the announced bit count says so. |
| Cursors.PrefixMustBeCounted | src/bitproto/bitproto.c:529-548 | If a writer announces a count that includes its own 16 bits, readers of every prefix of its fields end where it did; if the count leaves them out, a reader does if and only if it misses no bits. |
| Cursors.UncountedPrefixStops | src/bitproto/bitproto.c:117-125 | The concrete failure: one byte announced as 8 bits, and a reader that knows no field, end at different bits. |
| Codec.AliasSkipped | src/bitproto/bitproto.c:156-173 | An alias to an enum, a message or another alias is passed over without moving the cursor. |
| Codec.NestedArraySkipped | src/bitproto/bitproto.c:251-272 | And so is an array that is directly an element of an array. |
| Drone.DroneType | src/bitproto/drone_bp.c:80-227 | The Drone descriptor tree is well-formed, without extensible parts, and has 516 bits and 96 struct bytes; which fields these are is said by `DroneLayout.DroneLaid`. |
| Drone.DroneParts | src/bitproto/drone_bp.c:80-217 | So have its parts the bits that their descriptors state, and the bytes of their C structs. |
| Drone.EncodeDrone | src/bitproto/drone_bp.c:448-453 | Encoding a drone leaves the struct alone, returns 65 and gives the wire `Sent`, which `DroneLayout.DroneSent` spells out bit by bit. |
| Drone.DecodeDrone | src/bitproto/drone_bp.c:455-460 | Decoding leaves the wire alone, returns 65 and gives the struct `Received`, which `DroneLayout.DroneReceived` spells out bit by bit. |
| Drone.DroneRoundTrip | src/bitproto/drone_bp.c:220-228 | Any drone in range comes back across hosts of either byte order, into a cleared struct or any struct of a big-endian host; 516 bits are used and the last four bits of the 65 bytes stay clear. |
| AnyWire.Denoted | src/bitproto/bitproto.c:87-283 | Every bit string of the right length is the wire form of a value in range, for every well-formed type without extensible parts. |
| AnyWire.Inside | src/bitproto/bitproto.c:87-283 | Whatever is on the wire and in memory, decoding any well-formed type changes only the bytes of that type. |
| AnyWire.Decoded | src/bitproto/bitproto.c:87-283 | Any bits decode to a value in range of which they are the wire form, and the cursor moves by the type's bit count. |
| AnyWire.EncodedAgain | src/bitproto/bitproto.c:87-283 | The other round trip: what was decoded from any bits is encoded to the same bits, across byte orders. |
| AnyWire.AnyDrone | src/bitproto/drone_bp.c:455-460 | Any 65 bytes decode to a drone in range, with the first 516 bits as its wire form. |
| Places.SentPlace | src/bitproto/bitproto.c:85-283 | For any fixed type, any struct bytes and either byte order, onto clear bytes: every scalar has the low bits of its C integer at its place, and nothing is behind the last one. |
| Places.ReceivedPlace | src/bitproto/bitproto.c:85-283 | For any wire: every scalar gets the bits of its place, and above them zeros or, if it is signed, its sign; nothing outside the struct changes. |
| DroneLayout.DroneLaid | src/bitproto/drone_bp.c:80-228 | The scalars of the descriptor tree are exactly those of a list that is written out: bit on the wire, bits, struct offset, bytes and sign of each field, propeller by propeller. |
| DroneLayout.DroneSent | src/bitproto/drone_bp.c:448-453 | For any 96 struct bytes on a host of either byte order, onto clear bytes: each field of that list has its low bits in its place of the 65 bytes (the status in bits 0-2, the latitude in 3-34, ..., the landing gear in 514-515), and the last four bits are clear. |
| DroneLayout.DroneReceived | src/bitproto/drone_bp.c:455-460 | The converse, for any 65 bytes: each field of the struct has the bits of its place and none above them, and nothing outside the struct changes. |
| FrameHeader.HeaderBijection | src/bitproto/frameheader_bp.h:34-42 | Headers in range and four-byte strings correspond one to one. |
| FrameHeader.HeaderWire | src/bitproto/frameheader_bp.c:8-23 | Any four bytes are, bit for bit, the wire form of the header they stand for: 8, 3, 5 and 16 bits. |
| FrameHeader.HeaderSent | src/bitproto/frameheader_bp.c:34-39 | Encoding any header struct gives the four bytes of what fits in its bits, on hosts of either byte order. |
| FrameHeader.HeaderReceived | src/bitproto/frameheader_bp.c:41-46 | Decoding any four bytes, into a cleared struct or on a big-endian host, gives the header they stand for. |
| FrameHeader.HeaderSentIs | src/bitproto/frameheader_bp.c:34-39 | Byte by byte from the struct offsets 0, 1, 2 and 4: the magic number, three bits of version below five of payload type, and the length, least significant byte first. |
| FrameHeader.HeaderReceivedIs | src/bitproto/frameheader_bp.c:41-46 | And back to those offsets, for hosts of either byte order. |
| FrameHeader.EncodeFrameHeader | src/bitproto/frameheader_bp.c:34-39 | The encoder leaves the struct alone and gives the specified wire for any buffer, and those four bytes for a cleared one. |
| FrameHeader.DecodeFrameHeader | src/bitproto/frameheader_bp.c:41-46 | The decoder leaves the wire alone and gives the specified struct for any struct, and that header for a cleared one or on a big-endian host. |
| Sockets.SendAll | src/bitproto/socket_utls.c:7-32 | Under any chunking, EAGAINs and delays, in terms of the socket's own record of calls: OK with all bytes sent in order and every call tolerated; or EIO with a shorter prefix sent, and then the last call was refused, or was an EAGAIN and 30 s had gone; and no more than len + 301 calls. |
| Sockets.RecvAll | src/bitproto/socket_utls.c:34-59 | Likewise for receiving: the buffer gets the next bytes of the stream and the rest of it is untouched. |
| Framing.WriteFrame | src/bitproto/protocol_utls.c:8-32 | A payload over 65535 bytes is refused with nothing sent; success sends exactly the frame; failure sends a proper prefix of it, as long as the recorded calls moved, and only if the socket refused a call or 30 s had gone. |
| Framing.ReadFrame | src/bitproto/protocol_utls.c:34-64 | Every status but EIO is what the front of the stream parses to; success consumes 4 plus the payload's length and fills just that much of the buffer; refusals consume 4; EIO exactly when one of the two loops failed, which needs a refused call or 30 s. |
| Framing.Accepted | src/bitproto/protocol_utls.c:44-62 | A read delivers a payload exactly if the stream begins with the magic number, a type byte of 8 to 15 (any version), its length within capacity, and its bytes; it is a bad message, or too long, exactly by those bytes. |
| Framing.FrameIs | src/bitproto/protocol_utls.c:7-32 | A frame is the bytes 0xB1 and 8 (version 0, payload type 1), the two bytes of the length, and the payload. |
| Framing.WholeFrame | src/bitproto/protocol_utls.c:18-64 | A written frame parses back to its payload, whatever follows, or is told to be too long exactly when it is. |
| Framing.TornFrame | src/bitproto/protocol_utls.c:26-31 | A part of a frame never parses to a payload nor to a bad message. |
| Framing.StreamAppend | src/bitproto/protocol_utls.c:26-31 | One more frame written behind a stream of frames is the stream of one more payload. |
| Framing.WriteFrames | src/bitproto/protocol_utls.c:8-32 | Writing a list of payloads puts on the wire exactly the frames that succeeded and a proper prefix of the one that did not, and ends early only at a payload that is too long, a refused call, or 30 s after the last whole frame. |
| Framing.AllFramesSent | src/bitproto/protocol_utls.c:8-32 | So without such an interruption, every frame is sent. |
| Framing.ReadFrames | src/bitproto/protocol_utls.c:34-64 | Repeated reads are a run: each result and the stream behind it are what the front of the stream parses to, and the run ends early only at a frame that is refused, a refused call, or 30 s after the last whole frame. |
| Framing.FramesArrive | src/bitproto/protocol_utls.c:8-64 | From the bytes that a run of writes left, however it ended, a run of reads gets the first payloads that were sent whole, in order; where it stops, the next one is there, or all were read. |
| Framing.AllFramesArrive | src/bitproto/protocol_utls.c:8-64 | Under any chunking, EAGAINs and delays that do not interrupt the run, as many reads as frames were sent, or fewer, all succeed and return the payloads in order. |
| Framing.ReadsInOrder | src/bitproto/protocol_utls.c:34-64 | Reads in a row from frames and whatever follows them return their payloads in order and stop between frames. |
| Framing.OnlyWholeFrames | src/bitproto/protocol_utls.c:34-64 | From some frames and a part of one more, exactly the payloads of the whole frames can be read. |
| Framing.StreamInjective | src/bitproto/protocol_utls.c:18-31 | Different lists of payloads give different streams. |
| Framing.RefusedFrameStays | src/bitproto/protocol_utls.c:52-55 | After EMSGSIZE the payload is still in the stream. |
| Telemetry.Round | src/drone.c:54-99 | One round on a connected socket: success means that the drone's frame was sent, that the next frame was its echo, and that the decoded reply is the drone; failure means a reply that is refused or another, a refused call, or 30 s. |
| Telemetry.SendDrones | src/drone.c:54-69 | Encoding drones and sending each in a frame is a run of writes of their 65-byte wires. |
| Telemetry.ReceiveDrones | src/drone.c:71-92 | Reading frames is a run of reads, and each payload up to one of another length than 65 is decoded into a cleared struct. |
| Telemetry.DronesArrive | src/drone.c:54-92 | End to end, over what those two leave, however either ended: the drones received are the first of those sent, in order and with every field as it was, across byte orders, and never more than were sent whole. |
| Telemetry.AllDronesArrive | src/drone.c:54-92 | If neither run is interrupted, every drone is sent, received and decoded to itself. |
| Matcher.Append | drivers/ec801e/ec801e.c:146-156 | Appending to the buffer, or moving its second half to the front when it is full, keeps it terminated and equal to the window. |
| Matcher.WaitResponse | drivers/ec801e/ec801e.c:128-182 | After a received byte the answer is OK exactly if the string then in the buffer contains ok1, ok2 or ok3; EHOSTDOWN exactly if none of those but "RDY", "^boot.rom" or "PB DONE"; EIO exactly if none of those but fail1, fail2 or "CME ERROR"; at no earlier byte did it contain any of the nine, nor at any on a timeout, which comes only when the time is up. The buffer holds the window of what was received; without a buffer it is a timeout; a buffer of no bytes is never written and its old text decides at the first byte. |
| Matcher.ContainsIs | drivers/ec801e/ec801e.c:103-126 | A text contains a marker exactly if it is something, the marker, and something. |
| Matcher.VerdictIs | drivers/ec801e/ec801e.c:158-169 | Which answer each found marker gives and which one goes before which, if and only if, with the built-in markers as bytes. |
| Matcher.FirstVerdictIs | drivers/ec801e/ec801e.c:137-173 | A verdict is the first one exactly if it is that of the text after its byte and no earlier byte gave one. |
| Matcher.WindowIsSuffix | drivers/ec801e/ec801e.c:146-156 | The buffer is always the end of the stream: all of it, or at least half a buffer. |
| Matcher.WindowDecides | drivers/ec801e/ec801e.c:158-169 | For NUL-free streams and markers that fit in half a buffer, the verdict (which `VerdictIs` spells out) comes at the same byte and is the same as when the whole history is searched. |
| Matcher.MarkerBound | drivers/ec801e/ec801e.c:150-155 | The bound is sharp: a marker is seen in every NUL-free stream at the byte that completes it if and only if it is no longer than out_len - out_len / 2. |
| Matcher.WindowIs | drivers/ec801e/ec801e.c:146-156 | Which bytes of the stream are in the buffer: those from `Start` on, which moves by half a buffer each time it is full. |
| Matcher.StartIs | drivers/ec801e/ec801e.c:146-156 | Where that start is: 0 for fewer bytes than the buffer has, and then n times half a buffer, where n goes up every half buffer. |
| Matcher.WindowDecidesExactly | drivers/ec801e/ec801e.c:158-169 | For any stream, and markers that fit in half a buffer, none empty: the buffer gives the verdict of the history at the same byte if and only if the history gives none, or no NUL is in the buffer when it does. |
| Matcher.NulHides | drivers/ec801e/ec801e.c:103-126 | A NUL anywhere in the stream hides everything behind it for as long as it is in the buffer. |
| CStrings.Strncpy | src/serv_addr.c:109-110 | The buffer gets the string, cut to n, and NULs up to n. |
| Checksum.ScaledUndone | src/serv_addr.c:95 | Multiplication by 16777619 modulo 2^32 is undone by multiplication by its inverse. |
| Checksum.StepInjective | src/serv_addr.c:94-95 | A hash step is injective in the hash for each byte, and in the byte for each hash. |
| Checksum.XorBit | src/serv_addr.c:94 | The model's XOR is the C operator, bit by bit. |
| Checksum.XorUndone | src/serv_addr.c:94 | XOR with the same number twice gives the number back. |
| Checksum.FnvStepIs | src/serv_addr.c:94-95 | A step is the exclusive or of hash and byte, bit by bit, and then the product with 16777619, modulo 2^32. |
| Checksum.FnvAppend | src/serv_addr.c:92-96 | The bytes are taken from first to last. |
| Checksum.OneByteHash | src/serv_addr.c:87-99 | Strings that differ in exactly one byte have different hashes. |
| Checksum.CalcCrc | src/serv_addr.c:87-99 | The loop computes the hash of the 128 bytes. |
| ServAddr.TrimIs | src/serv_addr.c:32-40 | Trimming removes all the CR and LF at the end and nothing else. |
| ServAddr.CopyIs | src/serv_addr.c:239-241 | The copy that the operations make of an address is the part of at most 127 characters at its front without the CR and LF at the end of that: if and only if, in terms of the characters. |
| ServAddr.RecordIs | src/serv_addr.c:101-127 | A saved record byte by byte: the magic number, the hash of the last 128 bytes, and the address, cut to 127 characters and padded. |
| ServAddr.LoadIs | src/serv_addr.c:129-172 | Exactly which records hold which address, which are not found, and which are invalid, in terms of their bytes. |
| ServAddr.TrimLineEnd | src/serv_addr.c:32-40 | The loop on the buffer leaves the trimmed string. |
| ServAddr.LoadSaved | src/serv_addr.c:101-172 | What was saved is loaded, cut to 127 characters; an empty address is not found. |
| ServAddr.OneByteChanged | src/serv_addr.c:146-161 | Whatever single byte of a sound record changes, loading fails and no other address is returned. |
| ServAddr.Provenance | src/serv_addr.c:229-306 | In every run of initializations, promotions, flash failures and reboots, a valid address was loaded, or is the front part of the initial one or of a candidate that answered the probe, of at most 127 characters and without CR and LF at the end (`IsCopy`). |
| ServAddr.PromoteIs | src/serv_addr.c:266-306 | The status and the whole state after a promotion, for the part c of the candidate that is its trimmed front: EINVAL for one of line ends only, nothing for the active one, EHOSTUNREACH, or a save. |
| ServAddr.InitIs | src/serv_addr.c:229-264 | The same for an initialization. |
| ServAddr.PromoteOutcome | src/serv_addr.c:266-306 | A promotion succeeds exactly when the candidate is usable and already active, or reachable and saved; otherwise the active address stays. |
| ServAddr.InitOutcome | src/serv_addr.c:229-264 | An initialization succeeds exactly when it is given an address and the flash has one or takes it; a failing one makes nothing valid, but replaces the address in memory. |
| ServAddr.StaysSynced | src/serv_addr.c:229-306 | As long as no save has failed since the flash and the memory last agreed, but for promotions that could not open the flash, the flash holds the active address. |
| ServAddr.RebootRestores | src/serv_addr.c:239-263 | Then a reboot brings the same address back, and only the empty one gives way to the initial address. |
| ServAddr.AllSavesWork | src/serv_addr.c:254-300 | If every save works, no run is ever out of step. |
| ServAddr.FailedSaveStays | src/serv_addr.c:284-300 | After a failed save, promoting the active address again returns success without writing; a reboot then restores it if and only if the flash happens to, or the initial address is it. |
| ServAddr.CorruptionFallsBack | src/serv_addr.c:243-263 | One corrupted byte makes the next start use the initial address. |
| ServAddr.AddressStore.constructor | src/serv_addr.c:29-30 | At boot no address is valid. |
| ServAddr.AddressStore.SaveActiveAddrToFlash | src/serv_addr.c:101-127 | The record with magic number, hash and padded address is written, or the flash fails and keeps what the failure left. |
| ServAddr.AddressStore.LoadActiveAddrFromFlash | src/serv_addr.c:129-172 | Exactly what the record says is loaded, or an error with the active address untouched. |
| ServAddr.AddressStore.Initialize | src/serv_addr.c:229-264 | The initialization takes the step of the state machine (`InitIs`) and returns its status; if it succeeds, the active address was loaded or is the trimmed front of the initial one. |
| ServAddr.AddressStore.TryPromote | src/serv_addr.c:266-306 | The promotion takes its step (`PromoteIs`); if it succeeds, the active address is the trimmed front of the candidate, and a candidate of line ends only is refused with EINVAL. |
| ServAddr.AddressStore.GetServAddr | src/serv_addr.c:308-316 | The active address, or the empty string if none is valid. |
| ServAddr.AddressStore.Restart | src/serv_addr.c:29-30 | A reboot keeps the flash and forgets the address. |
| Framebuffer.GridDetermines | src/epd200x200.c:49-51 | Two framebuffers that show the same pixels are the same bytes: the packed buffer is the grid. |
| Framebuffer.PixelIs | src/epd200x200.c:42-61 | Which bit of which byte is a pixel, by its weight, and that a clear bit is black. |
| Framebuffer.ShapesAre | src/epd200x200.c:63-139 | The pixels of lines and rectangles: between the lower and the higher end, w by h of them, and for an outline those on the four sides. |
| Framebuffer.SameIndex | src/epd200x200.c:49-51 | No two pixels share a bit. |
| Framebuffer.Display.Clear | src/epd200x200.c:37-40 | Every pixel gets the colour. |
| Framebuffer.Display.SetPixel | src/epd200x200.c:42-61 | Exactly the addressed pixel gets the colour, and nothing happens outside the display. |
| Framebuffer.Display.DrawHLine | src/epd200x200.c:63-88 | Exactly the visible pixels between the two columns, in either order. |
| Framebuffer.Display.DrawVLine | src/epd200x200.c:90-115 | Exactly the visible pixels between the two rows, in either order. |
| Framebuffer.Display.DrawRect | src/epd200x200.c:117-127 | Exactly the visible outline of the rectangle, also when it is one pixel thin or partly outside. |
| Framebuffer.Display.FillRect | src/epd200x200.c:129-139 | Exactly the visible pixels of the rectangle. |
| Utf8.DecodeOne | src/epd200x200.c:236-281 | The masks, shifts and tests of the decoder compute the arithmetic specification, without reading past the terminator. |
| Utf8.Decode | src/epd200x200.c:236-281 | On any terminated bytes the cursor makes progress and never passes the terminator. |
| Utf8.DecodeInverts | src/epd200x200.c:245-276 | Every non-NUL character encoded as section 3 of RFC 3629 says, in whatever text it stands, decodes to itself. |
| Utf8.DecodeIs | src/epd200x200.c:236-281 | Exactly what is decoded at any byte: the number that stands there in a form of one to four bytes, shortest or not, and these are left behind; or, if there is none in any form, a question mark for one byte. |
| Utf8.EncodeExamples | src/epd200x200.c:251-276 | The encoded forms are those of the examples in section 7 of RFC 3629. |
| Utf8.EncodeLength | src/epd200x200.c:251-276 | And no longer than needed. |
| Utf8.DecodedForm | src/epd200x200.c:251-280 | What was decoded stood in its proper encoded form exactly when it was not overlong and no byte was skipped. |
| Layout.UnitsOfEncoded | src/epd200x200.c:322-350 | A text that encodes characters and line breaks is read as those. |
| Layout.FirstUnit | src/epd200x200.c:322-330 | A NUL ends the text and a line feed, byte 10, is a break; nothing else is. |
| Layout.LinesJoined | src/epd200x200.c:324-330 | The lines of a text, with breaks between them, are the text. |
| Layout.WrapEach | src/epd200x200.c:324-340 | Every line is wrapped for itself, in order. |
| Layout.PlaceIsPage | src/epd200x200.c:306-351 | With at least one column, the loop places exactly the page: the lines of the text, each wrapped greedily into full rows, down to the last row. |
| Layout.WrapLineIs | src/epd200x200.c:332-340 | Wrapping keeps the characters of a line in order and fills every row but the last. |
| Layout.OnPageHas | src/epd200x200.c:349-350 | A character is drawn in a row and column exactly when the page has it there. |
| Layout.PlacedInside | src/epd200x200.c:322-351 | Nothing is placed outside max_cols by max_rows. |
| Layout.NoColumns | src/epd200x200.c:332-350 | Without columns, exactly the characters are drawn, each in column 0, the one at index u of the text in the row u + 1 below the current one, down to the last row. |
| Layout.NoColumnsInOrder | src/epd200x200.c:332-350 | And their rows are strictly increasing. |
| Font.RasterizeTo12x12 | tools/zpix_bdf_to_c.py:99-132 | Every pixel of the cell is that of the bitmap shifted by its bounding box and clipped, for any bounding box and missing rows. |
| Font.InkIs | tools/zpix_bdf_to_c.py:106-127 | The lower left corner of a bitmap stands xoff to the right of the left side of the cell and yoff above the baseline. |
| Font.RasterPixel | tools/zpix_bdf_to_c.py:128-131 | The numbers in a table entry: the leftmost pixel of a row has the weight 2048. |
| Font.SortedTable | tools/zpix_bdf_to_c.py:174 | The table holds each glyph of the font once, rasterized, by ascending codepoint. |
| Font.FindGlyph | src/epd200x200.c:209-234 | The binary search finds the entry of a codepoint exactly when the table has one. |
| Font.FontLookup | src/epd200x200.c:209-234 | What is found in the table of a font is the raster of the font's glyph. |
| Text.DrawGlyph12 | src/epd200x200.c:283-301 | Exactly the visible pixels that the glyph has in its cell get the colour. |
| Text.GlyphPixel | src/epd200x200.c:290-300 | And so it has when it is drawn, in a cell of 12 by 12. |
| Text.PipelineShape | src/epd200x200.c:283-301 | Rasterized, sorted, searched and drawn, a glyph has the pixels of its source bitmap, shifted and clipped. |
| Text.DrawUtf8Text12 | src/epd200x200.c:303-352 | The visible pixels of the placed characters, in the cells of their columns and rows, get the colour and no others change, for any text, spacing and page size; what that comes to is said by `TextOnDisplay`. |
| Text.TextOnDisplay | src/epd200x200.c:303-352 | What drawing leaves, from text to pixels, for any terminated text and any spacings s and l: a visible pixel has the colour if some character of the wrapped page, in row r and column c, has ink in the bitmap of its own glyph (or of the question mark) in the cell at x + c * (12 + s), y + r * (12 + l), where a negative spacing counts as 0; otherwise it is as before. |
| Text.EncodedOnDisplay | src/epd200x200.c:303-352 | If the text encodes some characters and line breaks, the same for the page of these. |
| Text.CellsApart | src/epd200x200.c:308-349 | The cells of two characters in different columns or rows of the page share no pixel, whatever the spacings. |
| Offload.AlwaysLayered | drivers/ec801e/ec801e_socket_offload.c:66-256 | In every run, connected implies that the slot is taken, and the driver's flag implies a connection without TLS. |
| Offload.OpenedAlways | drivers/ec801e/ec801e.c:1182-1213 | As no opener reports EISCONN, the driver's flag is set exactly for connections without TLS, in every run. |
| Offload.OpenedLost | drivers/ec801e/ec801e_socket_offload.c:136-147 | One step loses that agreement if and only if a TCP open reports EISCONN and is taken for a connection. |
| Offload.TlsCarriesNothing | drivers/ec801e/ec801e.c:824-840 | On a TLS socket every send and receive fails, with ENOTCONN once it is connected. |
| Offload.TlsConnected | drivers/ec801e/ec801e_socket_offload.c:130-146 | The concrete run: a TLS socket is created and connected, and cannot send. |
| Offload.TcpCarries | drivers/ec801e/ec801e.c:1215-1317 | In any run in which no connection was taken for one, sends and receives on a connection without TLS are what the modem makes of them. |
| Offload.Created | drivers/ec801e/ec801e_socket_offload.c:66-95 | Whatever run led to a free slot, a created socket is neither connected nor open, has its descriptor and protocol (6 for 0), and uses TLS if and only if the protocol is 256 to 259. |
| Offload.CreatedCarries | drivers/ec801e/ec801e_socket_offload.c:66-211 | Whatever run led to a free slot, a socket of any other protocol, 0 and 6 among them, that connects to a port other than 0 is connected, open and without TLS, and sends and receives what the modem does. |
| Offload.Successes | drivers/ec801e/ec801e_socket_offload.c:66-256 | Exactly when each operation succeeds. |
| Offload.Failures | drivers/ec801e/ec801e_socket_offload.c:66-256 | Which error each failure is reported as, and which goes before which. |
| Offload.CloseFrees | drivers/ec801e/ec801e_socket_offload.c:223-256 | Closing frees the slot and the connection even if the AT command fails, and the slot can be taken again. |
| Offload.FailuresKeep | drivers/ec801e/ec801e_socket_offload.c:66-211 | A failing operation other than closing changes nothing; success means connected to that address, or at most the asked number of bytes on an open connection. |
| Offload.OneSlot | drivers/ec801e/ec801e_socket_offload.c:71-74 | While the slot is taken, no operation but closing makes room for another socket. |
| Offload.ConnectAgain | drivers/ec801e/ec801e_socket_offload.c:112-117 | Connecting again succeeds and changes nothing, whatever the address. |
| Offload.Socket.SocketCreate | drivers/ec801e/ec801e_socket_offload.c:66-95 | Creating takes the step of the state machine, which `Created`, `Successes` and `Failures` spell out. |
| Offload.Socket.SockConnect | drivers/ec801e/ec801e_socket_offload.c:97-147 | So does connecting, over both layers. |
| Offload.Socket.SockSend | drivers/ec801e/ec801e_socket_offload.c:149-171 | So does sending. |
| Offload.Socket.SockRecv | drivers/ec801e/ec801e_socket_offload.c:173-211 | So does receiving. |
| Offload.Socket.SockClose | drivers/ec801e/ec801e_socket_offload.c:223-256 | So does closing. |

## Left out

- CopyBits.CopyBufferBits: source and destination are different buffers, as in every call of the
  source; the alignment of word accesses is not modelled.
- Walker.EndecodeBaseType: the wire and the struct are different buffers.
- Cursors.ExtensibleArrayCursor: the products and cursors are unbounded numbers; in the source
  `ahead * cap` is an `int`, so the statement is about capacities whose product is in its range.
- Walker.Context.constructor: the bit cursor is unbounded; in the source it is an `int`.
- Telemetry.SendDrones: the source sends one drone a connection; lists of drones over one connection
  are runs of its operations.
- Telemetry.Round: connecting and closing the socket, and the filling in of the drone, are not modelled.
- Sockets.Socket.Recv: the peer's bytes are a fixed sequence; blocking is only time that passes.
- Framing.WriteFrame: the test that the encoder returned 4 is not modelled, because it always does.
- Matcher.WaitResponse: the stream of the UART is finite, so that the loop ends even if the clock
  does not move between bytes.
- Layout.PlaceIsPage: pixel positions and rows are unbounded numbers.
- Offload.Socket.SockRecv: the parsing of the `+QIRD` answer is an outcome, and the buffer is not
  modelled, only how many bytes are returned.
- ServAddr.AddressStore.SaveActiveAddrToFlash: the words of a record are stored in little-endian
  order; what an unfinished erase or write leaves is an input.
- Types that the bitproto compiler does not generate (an array directly in an array, an alias to a
  message or an enum) are walked as the source walks them, and are outside the round trip.
- C struct padding: offsets and sizes are part of a type; those of Drone follow natural alignment.
- JSON formatting, and the conversion of floats to fixed point.
- Connecting sockets, name resolution, TCP probing and `parse_host_port`: reachability is an input.
- Modem boot, power cycling, network attach, TLS configuration, HTTP, and the `AT+QIOPEN` answer.
- Socket options, peer names, ioctl and DNS results of the offloaded socket.
- Display commands, the 5x7 font, demo screens and dithering; parsing of BDF files.
- The Go server and tools: their codec is in a library that is not part of this model.
- USB, file systems and chip information.

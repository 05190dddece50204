# TCPExt: a length-prefixed packet framer with RC4, in Dafny

This project models `TCPExt`, a Godot engine extension class that frames
packets over a TCP stream. The model covers four parts:

- **Write side.** Typed writers append big-endian bytes to a growable
  write buffer, starting after two reserved header bytes. `send_packet`
  writes the payload length into those two bytes. When encryption is on,
  it encrypts the payload alone with RC4. It then hands header and
  payload to the transport.
- **Read side.** `poll_packets` appends the bytes the transport has to
  the read buffer. `has_packet` is the reassembly state machine: it reads
  a 2-byte header, waits until the whole payload has arrived, and then
  decrypts the payload in place. Every "no" answer moves the unread bytes
  to the front of the buffer. Typed readers consume the packet.
- **Cipher.** RC4 (ARCFOUR). Two independent states are kept, one per
  direction, both set up from the same secret.

The modules follow the program's structure:

- `wire.dfy` (module `Wire`): bytes, the `int8_t`/`int16_t`/`int32_t`
  truncations, the big-endian codec, and the buffer splice `Overwrite`
  that `memcpy` into a resized `PackedByteArray` performs.
- `rc4.dfy` (module `Rc4`): the key schedule and the keystream as
  functions on a `KeyState` value, and the lemmas about them. It has a
  class `Rc4State` with the source's fields `x`, `y` and `m[256]` (an
  `array<int>`). Its `Setup` and `Crypt` loops are proved to compute
  those functions.
- `reassembly.dfy` (module `Reassembly`): the decision `has_packet`
  takes, as a recursive function `Reassemble` over the read buffer. It
  also proves what follows from that decision:
  - a frame is recognised;
  - a receiver that polls any number of chunks, takes every packet and
    lets each "no" compact its window gets exactly the packets of all the
    bytes at once, however they were cut into chunks, and its window is
    what those bytes leave unconsumed (`ReceiveAll`, `Fragmentation`);
  - the frames `send_packet` emits come out one by one, decrypted.
- `framing.dfy` (module `Framing`): the class `TcpExt`. Its fields are
  the source's fields, and both buffers are `seq<byte>` fields that the
  methods reassign. `HasPacket` keeps the source's recursion. Each of its
  three branches is a method of its own (`Deliver`, `NextHeader`,
  `Compaction`), and all four meet the value-level contract `Outcome`.

Constants and edge cases kept from the code:

- `next_packet_size` is an `int16_t`, so a header of 0x8000 or more is
  stored negative. It then counts as "no length pending", and the next
  two bytes are read as a header (`OversizedHeader`).
- A header of 0 never yields a packet, so an empty payload sent by
  `send_packet` is never delivered (`ZeroHeaderSkipped`).
- `poll_packets` writes new bytes at offset `readable_bytes`, so they
  join the unread bytes only when `reader_index` is 0. This is what
  every "no" from `has_packet` leaves (`Poll`, `WaitingWindow`).
- `read_partial_data` bounds the read by the buffer's size, not by the
  readable count. So `readable_bytes` is an `int` that can go negative.
- Lengths passed to `write_short` are truncated to `int16_t`.
- `rc4_setup` reads `key[0]`, so it requires a key of at least one byte.

The transport is a parameter: `Poll` takes the chunk of available bytes,
and `SendPacket` appends what it hands to `put_data` to the field `sent`.

## Model

| member | source | states |
|---|---|---|
| Wire.XorBits | tcp_ext.cpp:326 | the XOR of two n-bit values is again an n-bit value |
| Wire.XorBitsUnits | tcp_ext.cpp:326 | XOR with zero bits keeps a value, and XOR with itself clears it |
| Wire.Xor | tcp_ext.cpp:326 | the `^=` on two bytes: a zero key byte leaves the data byte, and a key byte equal to it clears it; `XorInvolution` states that the same key byte undoes it |
| Wire.Int8 | tcp_ext.cpp:105 | conversion to `int8_t` gives a value in range that agrees with the input modulo 2^8 |
| Wire.Int16 | tcp_ext.cpp:113 | conversion to `int16_t` gives a value in range that agrees with the input modulo 2^16 |
| Wire.Int32 | tcp_ext.cpp:120 | conversion to `int32_t` gives a value in range that agrees with the input modulo 2^32 |
| Wire.ByteOf | tcp_ext.cpp:105-106 | the byte stored for a value agrees with it modulo 2^8 |
| Wire.EncodeShort | tcp_ext.cpp:113-118 | write_short's encoding is two bytes long |
| Wire.DecodeUShort | tcp_ext.cpp:197-203 | read_ushort's result lies in 0..0xFFFF |
| Wire.DecodeShort | tcp_ext.cpp:189-195 | read_short's result is an `int16_t` |
| Wire.EncodeInt | tcp_ext.cpp:120-125 | write_int's encoding is four bytes long |
| Wire.DecodeUInt | tcp_ext.cpp:208 | the unsigned 32-bit decoding lies in 0..2^32-1 |
| Wire.DecodeInt | tcp_ext.cpp:205-211 | read_int's result is an `int32_t` |
| Wire.Overwrite | tcp_ext.cpp:94-96 | the buffer grows to the end of the written bytes when they do not fit, and never shrinks |
| Wire.OverwriteFacts | tcp_ext.cpp:98-99 | bytes before the offset are untouched, the data lands at `[at, at+n)`, bytes after it are untouched |
| Wire.OverwriteInside | tcp_ext.cpp:52-53 | decrypting a packet in place inside the buffer keeps the buffer's size, puts the crypted bytes at the packet's place and leaves every other byte as it was |
| Wire.Compact | tcp_ext.cpp:62-68 | the n bytes from `from` move to the front in order, later bytes stay, and nothing moves for n <= 0 |
| Wire.OverwriteSelf | tcp_ext.cpp:41-44 | copying a buffer's own bytes back changes nothing, so `send_packet` without encryption sends the bytes as written |
| Wire.OverwriteConcat | tcp_ext.cpp:135-139 | two appends in a row equal one append of the concatenation |
| Wire.XorBitsInvolution | tcp_ext.cpp:326 | XOR with the same key bits twice gives back the value |
| Wire.XorInvolution | tcp_ext.cpp:326 | XOR of a byte with the same key byte twice gives back the byte |
| Wire.Int16Identity | tcp_ext.cpp:113 | truncation to `int16_t` leaves an `int16_t` unchanged |
| Wire.ShortRoundTrip | tcp_ext.cpp:189-203 | read_ushort of write_short's bytes is the value mod 2^16, and read_short of them is the value as `int16_t` |
| Wire.ShortBytesRoundTrip | tcp_ext.cpp:113-118 | re-encoding two decoded bytes, signed or unsigned, gives the same bytes |
| Wire.IntRoundTrip | tcp_ext.cpp:205-211 | read_int of write_int's bytes is the value as `int32_t`, and the unsigned decoding is the value mod 2^32 |
| Wire.IntBytesRoundTrip | tcp_ext.cpp:120-125 | re-encoding four decoded bytes, signed or unsigned, gives the same bytes |
| Wire.ByteRoundTrip | tcp_ext.cpp:179-183 | read_byte of write_byte's byte is the value as `int8_t`, and the stored byte depends only on that `int8_t` |
| Rc4.Identity | tcp_ext.cpp:297-299 | the first loop of rc4_setup leaves `m[i] == i` for every i |
| Rc4.Ksa | tcp_ext.cpp:301-310 | the key position `k` stays within the key through the mixing loop |
| Rc4.SwapPermutation | tcp_ext.cpp:304-307 | swapping two entries keeps the table a permutation of 0..255 |
| Rc4.KsaPermutation | tcp_ext.cpp:303-310 | after any number of mixing rounds the table is a permutation and `j` lies in 0..255 |
| Rc4.MixRound | tcp_ext.cpp:304-309 | after one mixing round `j` is a byte (the `unsigned char` cast) and `k` a position of the key, wrapped to 0 at its end; `KsaPermutation` states that the table stays a permutation |
| Rc4.Schedule | tcp_ext.cpp:290-311 | rc4_setup's state for a key: `x = y = 0` and `m` a permutation of 0..255 |
| Rc4.PermutationValues | tcp_ext.cpp:322-326 | every entry of a permutation table is a valid index, and every index value occurs in it |
| Rc4.Next | tcp_ext.cpp:321-325 | one round leaves `x` and `y` in 0..255, as the `unsigned char` casts do; `NextInvariant` and `RoundFacts` state the rest |
| Rc4.NextInvariant | tcp_ext.cpp:321-325 | one round keeps `m` a permutation |
| Rc4.KeyByte | tcp_ext.cpp:326 | the keystream byte is the table entry at `m[x] + m[y]` (mod 256) after the round, whenever that entry is a byte, as it is in a permutation (`PermutationValues`) |
| Rc4.Advance | tcp_ext.cpp:320-330 | after at least one round `x` and `y` are in 0..255; `AdvanceAdd` and `AdvanceSnoc` state that it is the rounds one after the other |
| Rc4.AdvanceInvariant | tcp_ext.cpp:320-330 | any number of rounds keep `m` a permutation, and after at least one round `x` and `y` are in 0..255 |
| Rc4.Emit | tcp_ext.cpp:320-327 | one output per round |
| Rc4.Keystream | tcp_ext.cpp:320-327 | n rounds give n keystream bytes |
| Rc4.XorAll | tcp_ext.cpp:326 | XOR byte by byte keeps the length |
| Rc4.Apply | tcp_ext.cpp:313-331 | rc4_crypt's output is as long as its input |
| Rc4.ApplyFrames | tcp_ext.cpp:42 | crypting frames one after the other, each from where the previous call left the state, gives one output per frame |
| Rc4.IterateAdd | tcp_ext.cpp:320 | a+b rounds are a rounds then b rounds |
| Rc4.EmitAdd | tcp_ext.cpp:320-327 | the outputs of a+b rounds are those of a rounds followed by those of b rounds from the state reached |
| Rc4.AdvanceAdd | tcp_ext.cpp:316-330 | the state after a+b bytes is the state after a bytes carried over b more |
| Rc4.KeystreamAdd | tcp_ext.cpp:316-330 | the keystream for a+b bytes is that for a bytes, then that for b bytes from the carried state |
| Rc4.ApplyInvolution | tcp_ext.cpp:326 | crypting twice from equal states gives back the data, so the same call decrypts |
| Rc4.ApplySplit | tcp_ext.cpp:313-331 | crypting `d1 + d2` in one call equals crypting d1 and then d2 with the carried-over state |
| Rc4.FramesInvolution | tcp_ext.cpp:53 | decrypting a sequence of frames from the state that encrypted them gives them back |
| Rc4.XorAllConcat | tcp_ext.cpp:326 | XOR byte by byte distributes over concatenation |
| Rc4.AdvanceSnoc | tcp_ext.cpp:320-325 | the state after i+1 bytes is one round after the state after i bytes |
| Rc4.RoundFacts | tcp_ext.cpp:321-326 | the loop body's updates of x, y and the swap are one round, and the byte it XORs is the keystream byte |
| Rc4.ApplySnoc | tcp_ext.cpp:320-327 | crypting one more byte appends that byte XORed with the next keystream byte |
| Rc4.Rc4State.constructor | tcp_ext.h:27-29 | an rc4_state has its own table of 256 entries |
| Rc4.Rc4State.Setup | tcp_ext.cpp:290-311 | rc4_setup leaves exactly the state `Schedule(key)`, a function of the key alone |
| Rc4.Rc4State.Round | tcp_ext.cpp:321-326 | one loop iteration of rc4_crypt performs one round in place on `m` and returns that round's keystream byte |
| Rc4.Rc4State.Crypt | tcp_ext.cpp:313-331 | rc4_crypt advances the state one round per byte and its output is the data XORed with the keystream from the old state |
| Reassembly.Reassemble | tcp_ext.cpp:49-61 | the reader only moves forward, and never past the readable end; a "yes" has a length in 1..0x7FFF lying within the readable bytes; a pending length stays an `int16_t` |
| Reassembly.Packets | tcp_ext.cpp:49-69 | no contract of its own: `PacketsUnfold`, `PacketsDeliverable`, `FirstPacket`, `StreamRoundTrip` and `ReceiveAll` state what the packets of a buffer are |
| Reassembly.PacketsUnfold | tcp_ext.cpp:50-56 | on a "yes" the packet delivered comes first, and the packets after it, and where they end, are those from just past it with no length pending |
| Reassembly.PacketsDeliverable | tcp_ext.cpp:50-56 | every packet taken has 1 to 0x7FFF bytes |
| Reassembly.Rest | tcp_ext.cpp:49-69 | once every packet has been taken the answer is "no", the reader has only moved forward and not past the end, and the pending length is an `int16_t` |
| Reassembly.Frame | tcp_ext.cpp:36-44 | a frame is the payload plus a 2-byte header |
| Reassembly.Stream | tcp_ext.cpp:36-47 | frames sent back to back take at least two header bytes each, and give no bytes only for no frames |
| Reassembly.ReassembleHeader | tcp_ext.cpp:58-60 | the delivered or pending length is the one the call started with when no header was read, and otherwise the last header read |
| Reassembly.ReassembleStuck | tcp_ext.cpp:50-61 | a "no" means either fewer bytes than the pending length are readable, or no length is pending and at most 2 bytes are readable |
| Reassembly.FrameRoundTrip | tcp_ext.cpp:49-61 | a complete frame of 1..0x7FFF bytes at the reader is delivered, starting right after its header |
| Reassembly.PartialFrame | tcp_ext.cpp:50-58 | a frame whose payload has not fully arrived leaves its length pending with the reader after the header |
| Reassembly.ZeroHeaderSkipped | tcp_ext.cpp:50-60 | a header of 0 is skipped and the next two bytes are read as a header |
| Reassembly.OversizedHeader | tcp_ext.cpp:58-59 | a header of 0x8000 or more becomes negative as `int16_t` and is skipped like a header of 0 |
| Reassembly.Locality | tcp_ext.cpp:49-61 | the decision depends only on the readable bytes |
| Reassembly.Translation | tcp_ext.cpp:49-61 | the decision on a buffer with a prefix dropped is the same decision moved by the prefix's length |
| Reassembly.Resume | tcp_ext.cpp:49-70 | after a "no", asking again with more bytes readable continues from where the "no" left off |
| Reassembly.ReadyGrows | tcp_ext.cpp:49-56 | a "yes" stays the same "yes" when more bytes become readable |
| Reassembly.PacketsResume | tcp_ext.cpp:49-70 | the packets of more readable bytes are those of fewer bytes, then those from the "no" that ended them, and they end where the latter end |
| Reassembly.ReadyResume | tcp_ext.cpp:50-56 | the same, when the first answer on the fewer bytes is "yes" |
| Reassembly.WaitingResume | tcp_ext.cpp:58-69 | the same, when the first answer on the fewer bytes is "no" |
| Reassembly.PacketsLocality | tcp_ext.cpp:49-69 | the packets and where they end depend only on the readable bytes |
| Reassembly.ListLocality | tcp_ext.cpp:49-69 | the packets depend only on the readable bytes |
| Reassembly.RestLocality | tcp_ext.cpp:49-69 | where the packets end depends only on the readable bytes |
| Reassembly.PacketsTranslation | tcp_ext.cpp:62-68 | with a prefix of the buffer dropped, the packets are the same and they end at the same place moved by the prefix's length, which is what compaction relies on |
| Reassembly.ListTranslation | tcp_ext.cpp:62-68 | the packets are the same with a prefix of the buffer dropped |
| Reassembly.ReadyTranslation | tcp_ext.cpp:50-56 | the same, when the first answer is "yes" |
| Reassembly.PacketsCongruence | tcp_ext.cpp:50-56 | two "yes" answers for the same packet with the same packets after it give the same packets |
| Reassembly.RestTranslation | tcp_ext.cpp:62-68 | where the packets end moves by the prefix's length when a prefix of the buffer is dropped |
| Reassembly.RestStuck | tcp_ext.cpp:58-69 | where the packets end, asking again gives the same "no" without moving |
| Reassembly.Suffix | tcp_ext.cpp:62-68 | the verdict, the packets and where they end, from offset k of a buffer, are those of the buffer's suffix from k, moved by k |
| Reassembly.PollSplit | tcp_ext.cpp:62-86 | one poll: the packets of the bytes so far plus a chunk are those of the bytes so far, then those of the compacted leftover bytes followed by the chunk from the pending length, and they end where the latter end, moved on |
| Reassembly.Receive | tcp_ext.cpp:49-86 | a receiver that polls chunks one by one keeps an `int16_t` pending length, and with no chunks it takes nothing and keeps its window |
| Reassembly.ReceiveAll | tcp_ext.cpp:49-86 | a receiver left by a "no" that polls any number of chunks takes exactly the packets of all the bytes at once, and keeps exactly the bytes they leave unconsumed, with the length pending there: compaction loses nothing |
| Reassembly.Fragmentation | tcp_ext.cpp:71-86 | however the received bytes are cut into chunks, a receiver that starts empty takes the same packets and keeps the same window |
| Reassembly.FirstPacket | tcp_ext.cpp:49-61 | a frame at the reader yields its payload as the first packet, and the rest follows after it |
| Reassembly.StreamRoundTrip | tcp_ext.cpp:36-61 | frames of 1..0x7FFF bytes sent back to back are received as exactly those payloads, in order |
| Reassembly.FramesSizes | tcp_ext.cpp:42 | crypting frames keeps each frame's size |
| Reassembly.Delivery | tcp_ext.cpp:36-61 | payloads encrypted and framed by send_packet and received in order are decrypted back to the payloads |
| Framing.Received | tcp_ext.cpp:151-161 | read_partial_data reads all n bytes iff they fit in the buffer, and otherwise what is left up to its end |
| Framing.UntilZero | tcp_ext.cpp:247-248 | the C string is the longest prefix free of zero bytes |
| Framing.StringAt | tcp_ext.cpp:221-235 | read_string's bytes and final reader: nothing after a short prefix, a negative length or a short body, otherwise the `len` bytes right after the prefix |
| Framing.StringRoundTrip | tcp_ext.cpp:135-139 | a string shorter than 0x8000 bytes (the empty one included) written by write_string reads back whole with read_string, the reader just after it |
| Framing.LongStringLost | tcp_ext.cpp:137 | a string of 0x8000 to 0xFFFF bytes gets a prefix read back as a negative `int16_t`, so read_string gives nothing and stops after the prefix |
| Framing.Effect | tcp_ext.cpp:50-69 | the read side has_packet leaves: the readable count is what remains from the verdict's reader, the pending length is cleared on "yes" and stored on "no", and the decrypt state changes only on a "yes" with encryption on; `ReadyPacket` and `WaitingWindow` state the buffer |
| Framing.ReadyOutcome | tcp_ext.cpp:50-56 | with a pending length that is fully readable, the answer is "yes", the packet alone is decrypted and the pending length cleared |
| Framing.HeaderOutcome | tcp_ext.cpp:58-60 | with no length pending and more than 2 bytes readable, has_packet's effect is that of the recursive call after the header |
| Framing.WaitingOutcome | tcp_ext.cpp:62-69 | in the remaining case the answer is "no", the readable bytes are compacted to the front and the reader is 0 |
| Framing.ReadyPacket | tcp_ext.cpp:52-55 | after a "yes" the packet is the arrived payload, decrypted exactly when encryption is on, and the rest of the buffer is unchanged |
| Framing.WaitingWindow | tcp_ext.cpp:62-68 | after a "no" the reader is 0 and the unconsumed bytes are at the front in the same order |
| Framing.HeaderThenBody | tcp_ext.cpp:37-42 | writing the header at 0 and the (crypted) payload at 2 leaves exactly the frame of that payload at the start of the buffer |
| Framing.TcpExt.constructor | tcp_ext.cpp:6-7 | empty buffers and two separate cipher states |
| Framing.TcpExt.SetTcp | tcp_ext.cpp:9-24 | 1024-byte buffers, the writer at 2, the reader at 0, nothing readable or pending, encryption off |
| Framing.TcpExt.SetSecret | tcp_ext.cpp:26-30 | both cipher states become `Schedule(key)` and are therefore equal |
| Framing.TcpExt.SetUseEncryption | tcp_ext.cpp:32-34 | the flag is set |
| Framing.TcpExt.WriteData | tcp_ext.cpp:89-103 | nothing changes for a count of 0 or less; otherwise the bytes are spliced in at the writer and the writer advances by the count |
| Framing.TcpExt.WriteByte | tcp_ext.cpp:105-107 | appends the `int8_t`'s byte |
| Framing.TcpExt.WriteBool | tcp_ext.cpp:109-111 | appends 1 for true and 0 for false |
| Framing.TcpExt.WriteShort | tcp_ext.cpp:113-118 | appends the two big-endian bytes of the `int16_t` |
| Framing.TcpExt.WriteInt | tcp_ext.cpp:120-125 | appends the four big-endian bytes of the `int32_t` |
| Framing.TcpExt.WriteString | tcp_ext.cpp:135-145 | appends the length as a write_short, then the bytes |
| Framing.TcpExt.WriteByteArray | tcp_ext.cpp:147-149 | appends the first `length` bytes, or nothing for `length <= 0` |
| Framing.TcpExt.SendPacket | tcp_ext.cpp:36-47 | sends exactly the frame of the payload written since the last send (crypted with `encrypt` when on, header never crypted), advances `encrypt` by the payload length, and puts the writer back at 2 |
| Framing.TcpExt.ReadPartialData | tcp_ext.cpp:151-167 | copies `Received` bytes from the reader, and advances the reader and reduces the readable count by that many |
| Framing.TcpExt.ReadData | tcp_ext.cpp:169-177 | as read_partial_data, and reports an error exactly when fewer than n bytes fit |
| Framing.TcpExt.ReadByte | tcp_ext.cpp:179-183 | the byte at the reader as an `int8_t` when one is left |
| Framing.TcpExt.ReadBool | tcp_ext.cpp:185-187 | true exactly when the byte at the reader is non-zero |
| Framing.TcpExt.ReadShort | tcp_ext.cpp:189-195 | the big-endian `int16_t` at the reader when two bytes are left |
| Framing.TcpExt.ReadUShort | tcp_ext.cpp:197-203 | the big-endian `uint16_t` at the reader when two bytes are left |
| Framing.TcpExt.ReadInt | tcp_ext.cpp:205-211 | the big-endian `int32_t` at the reader when four bytes are left |
| Framing.TcpExt.ReadString | tcp_ext.cpp:221-235 | returns the bytes `StringAt` gives (empty on a negative length or a short read) and leaves the reader where it says, counting the consumed bytes off the readable ones |
| Framing.TcpExt.ReadWideString | tcp_ext.cpp:237-249 | the bytes `StringAt` gives, cut at the first zero byte, with the reader where `StringAt` says |
| Framing.TcpExt.ReadByteArray | tcp_ext.cpp:251-257 | nothing for a negative size; otherwise `size` bytes starting with what could be read |
| Framing.TcpExt.Poll | tcp_ext.cpp:72-87 | false and no change for an empty transport; otherwise the chunk lands at offset readable_bytes and becomes readable, and with the reader at 0 it extends the unread bytes |
| Framing.TcpExt.HasPacket | tcp_ext.cpp:49-70 | answers `Reassemble`'s verdict and leaves the read side and the decrypt state that `Effect` gives for it |
| Framing.TcpExt.Deliver | tcp_ext.cpp:50-57 | the "yes" branch meets has_packet's contract |
| Framing.TcpExt.NextHeader | tcp_ext.cpp:58-61 | the header branch, through the recursive call, meets has_packet's contract |
| Framing.TcpExt.Compaction | tcp_ext.cpp:62-69 | the "no" branch meets has_packet's contract |

## Left out

- The transport (`get_available_bytes`, `get_data`, `put_data`) is I/O. `Poll` takes the available bytes as a parameter and `SendPacket` logs what it sends.
- `write_float` and `read_float`: floating point.
- `_bind_methods` and `register_types.cpp`: engine class registration with no logic.
- Godot `String` conversions (`utf8()`, `ascii()`, `parse_utf8`) are library calls. Strings are their byte sequences.
- Allocation failure of `resize`: resizing always succeeds, so those error branches are not modelled.
- Reads past the end of the buffer return uninitialised bytes in the source. `ReadByte`, `ReadShort`, `ReadUShort` and `ReadInt` leave the value unspecified then (the model returns 0 and an error flag). `ReadByteArray` leaves the bytes it could not read unspecified, and `SetTcp` leaves the fresh buffers' contents unspecified.
- The constructor leaves the integer fields indeterminate, as C++ does. No operation's contract depends on them before `SetTcp`.
- `write_long` and `read_long` are declared in `tcp_ext.h` but never defined.
- 32-bit `int` overflow of the indices and counts is not modelled: they are unbounded integers.
- In-place XOR through a raw pointer: `Rc4State.Crypt` returns the crypted bytes and the callers splice them into the buffer, so aliasing is not modelled.
- Wire.Compact: the `memcpy` at tcp_ext.cpp:65 copies within one buffer and the ranges may overlap, which C leaves undefined; the model takes the result a `memmove` gives.
- Reassembly.Receive: a value-level receiver that reads each packet right after its "yes" and polls whole chunks; it is tied to the class through `HasPacket` and `Poll`, whose contracts give the same steps, not by a method that runs the loop.
- Known-answer vectors of RFC 6229 section 2 are not stated as lemmas. The model states the cipher's structure instead.
- Framing.TcpExt.Poll: requires `readable_bytes >= 0`. Reading past the end of a packet with the typed readers makes `readable_bytes` negative, and `poll_packets` then writes at a negative offset into `read_buf`, which is undefined behaviour.
- Framing.TcpExt.HasPacket: requires the readable bytes to lie inside `read_buf` (`Framed`). A poll while the reader is past 0 can push reader plus readable count beyond the buffer, and `has_packet` then decrypts or moves bytes outside it, which is undefined behaviour.
- Framing.TcpExt.WriteByteArray: requires `length` to be at most the array's size. A larger length makes `memcpy` read past the end of the array, which is undefined behaviour.
- Framing.StringRoundTrip: strings of 0x10000 bytes or more get a prefix that wraps modulo 2^16; no lemma states what reading them back gives.
- Framing.TcpExt.Poll: states the unread bytes after the call only when the reader was at 0, because at any other reader the source's offset makes them overlap the bytes already there.

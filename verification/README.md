# DGUS serial-screen driver: frame encoder model

A Dafny model of the frame encoder of a small C driver for DWIN DGUS serial
touch screens (`dgus.c`). The driver turns calls such as "show this integer in
variable `vp`" or "switch to page `picid`" into *write-variable* frames:

    5A A5 | length | 82 | address (high, low) | data, most significant byte first

The length byte counts every byte after it (`size - 3`). Integers leave the
little-endian host in reverse memory order, so the wire carries them most
significant byte first.

The model has five modules:

- `Wrappers`: `Option` and `Result`.
- `Bytes`: fixed-width integer types; little- and big-endian codecs and their
  round trips; `Reverse`; C's signed-to-unsigned parameter conversion
  (`ToUnsigned`) and its two's-complement inverse (`ToSigned`).
- `Frame`: the builder `WriteFrame` and the loop `JoinDataFrames` as the
  driver writes it. It also holds the display's side, which serves as the
  builder's partner: `DecodeWrite` accepts one frame, and `ParseStream` parses
  a stream of back-to-back frames.
- `Session`: a driver handle `Display` holds the cached page id and the trace
  of everything sent (`Send(bytes)`) or waited (`Delay(ms)`). There is one
  function per public operation. Each contract states what the display reads
  back from the frame: the address, the width, and the value (unsigned, signed
  or raw bytes).
- `Commands`: every public operation as a `Command` value, with the writes it
  stands for (`Intended`). `Apply` and `Run` execute commands, with text going
  through the length-checked `Session.TextDisplaySetGB2312Checked` named as the
  correction under Findings, so text over 249 bytes is refused. `RunWrites`
  proves that any accepted sequence of commands makes the display perform
  exactly the intended writes, in order.

The serial port, the delay function and the handle's function pointers become
the trace: each send is one `Send` event and each wait is one `Delay` event.

Where the comments and the code disagree, the `Session` members follow the
code. The one addition is `Session.TextDisplaySetGB2312Checked`, which is not
part of the driver: it adds the length check named under Findings. The text
operation the driver actually has is `Session.TextDisplaySetGB2312`, modelled as
written. The disagreement concerns text length:

- The comment at `dgus.c:287` promises text of up to 512 bytes.
- The file header (`dgus.c:15`) caps a frame at 249 data bytes.
- The code stores `len + 3` in a `uint8` (`dgus.c:293`).

The model's display accepts at most 249 data bytes, with a length byte that
counts them exactly. The driver's text operation is modelled both as written
and with the length check it needs (see Findings). The `Commands` layer is built
on the checked operation, so its results hold for the corrected driver; the
driver as written agrees with it whenever every text fits one frame
(`Session.TextCheckAgreesWhenItFits`).

## Model

| member | source | states |
|---|---|---|
| Bytes.LittleEndian | dgus.c:71 | the host's memory image of an n-byte value is exactly n bytes; which bytes is fixed by its partner `FromLittleEndian` in the next two rows |
| Bytes.LittleEndianRoundTrip | dgus.c:71 | the host's little-endian storage of an n-byte value reads back as that value |
| Bytes.LittleEndianOfBytes | dgus.c:71 | every n-byte memory image is the little-endian storage of the value it denotes, so any native bytes are a value |
| Bytes.BigEndian | dgus.c:14 | the MSB-first encoding of an n-byte value is exactly n bytes; which bytes is fixed by its partner `FromBigEndian` in the next two rows |
| Bytes.BigEndianRoundTrip | dgus.c:14 | a value sent most significant byte first is read back unchanged |
| Bytes.BigEndianOfBytes | dgus.c:14 | every byte string is the MSB-first encoding of the value it denotes |
| Bytes.ReversedLittleIsBig | dgus.c:70-73 | reading native memory from the last byte to the first gives exactly the big-endian encoding of the value (the "little-endian host, MSB first" swap) |
| Bytes.Reverse | dgus.c:70-73 | the result holds the input's elements in the opposite order, index by index |
| Bytes.ToUnsigned | dgus.c:195-198 | passing a signed value as an unsigned n-byte parameter gives a value in range that equals the input or the input plus 256^n |
| Bytes.ToSigned | dgus.c:234-259 | reading an n-byte pattern as two's complement gives a value in the signed range that converts back to the same pattern |
| Bytes.SignedRoundTrip | dgus.c:234-259 | every value in the signed n-byte range survives conversion to the unsigned parameter and back |
| Frame.Header | dgus.c:63-68 | the header is six bytes and its address bytes read back, MSB first, as the address |
| Frame.WriteFrameLayout | dgus.c:61-74 | a built frame starts with 5A A5, the length byte `size - 3`, opcode 82 and the address (high byte, then low byte); data byte i is native byte `size - 1 - i` |
| Frame.JoinDataFrames | dgus.c:61-74 | the header assignments and the copy loop, which reads native offset `(size - 7) - i`, produce the frame `WriteFrame` describes |
| Frame.WriteFrame | dgus.c:61-74 | a built frame fills its `size`-byte buffer exactly, and the display accepts it as one write of the reversed native bytes to the given address |
| Frame.DecodeHeaderData | dgus.c:15 | a header whose length byte counts up to 249 data bytes, followed by those bytes, is accepted as a write of exactly that data |
| Frame.WriteFrameOfDecoded | dgus.c:61-74 | conversely, every frame the display accepts is fewer than 256 bytes and is the builder's output for the native bytes obtained by reversing its data |
| Frame.ParseStep | dgus.c:86 | an accepted frame at the front of a stream is parsed first, followed by the writes of the rest |
| Frame.ParseSingle | dgus.c:86 | a stream holding one accepted frame parses as exactly its one write |
| Frame.ParseConcat | dgus.c:296-297 | bytes sent back to back parse as the writes of each part in order, which is why two separate sends can form one frame |
| Session.WireAppendTwo | dgus.c:296-297 | two sends put their bytes on the wire one after the other |
| Session.SendFrame | dgus.c:84-86 | one frame is sent, the page id is untouched, and the display reads a write of the reversed native bytes, whose reverse is the native memory image |
| Session.Send2Bytes | dgus.c:82-87 | an 8-byte frame with length byte 5 is sent, and the display reads the 16-bit value back from its 2 data bytes |
| Session.Send4Bytes | dgus.c:95-100 | a 10-byte frame with length byte 7 is sent, and the display reads the 32-bit value back from its 4 data bytes |
| Session.Send8Bytes | dgus.c:108-113 | a 14-byte frame with length byte 11 is sent, and the display reads the 64-bit value back from its 8 data bytes |
| Session.SendFloat | dgus.c:121-126 | a 10-byte frame with length byte 7 is sent, and its data reversed is the float's memory image |
| Session.SendDouble | dgus.c:134-139 | a 14-byte frame with length byte 11 is sent, and its data reversed is the double's memory image |
| Session.Reset | dgus.c:150-156 | exactly the literal reset frame is sent, which writes 0x55AA5AA5 to register 0x0004, followed by a 3000 ms wait, and the page id is untouched |
| Session.ResetFrame | dgus.c:153 | the reset literal is 10 bytes that the display accepts as one write of the MSB-first bytes of 0x55AA5AA5 to register 0x0004 |
| Session.ResetFrameIsBuilt | dgus.c:153 | the reset literal equals the builder's 10-byte frame for 0x55AA5AA5 at address 0x0004 |
| Session.PicSet | dgus.c:166-172 | the cached page id becomes `picid`, and one 10-byte frame is sent that writes the word 0x5A01 followed by `picid` to register 0x0084 |
| Session.PicSetFrame | dgus.c:169 | the page-switch literal is 10 bytes that the display accepts as one write of `5A 01` followed by the page id, MSB first, to register 0x0084 |
| Session.PicSetFrameIsBuilt | dgus.c:169 | the page-switch literal equals the builder's 10-byte frame for the word 0x5A01_0000 + picid |
| Session.PicSetWordBytes | dgus.c:160-169 | the page-switch data is D3 = 5A, D2 = 01, then the page id MSB first |
| Session.VarIconSetID | dgus.c:182-185 | one frame is sent, and the display reads `id` at `vp` as a 2-byte value |
| Session.SignedSent | dgus.c:195-198 | a signed value sent through the unsigned parameter is read back as that value when read as two's complement |
| Session.ArtVarSetInt16 | dgus.c:195-198 | the display reads the two's-complement pattern of `v` at `vp`, and reading it as signed gives `v` back |
| Session.FieldAddress | dgus.c:210 | a descriptor field's address is `sp + offset` when that fits 16 bits, and wraps by 0x10000 otherwise |
| Session.ArtVarSetICON0 | dgus.c:207-211 | the display reads `iconId` at descriptor address sp + 0x03, modulo 2^16 |
| Session.RatIconSetAngle | dgus.c:221-224 | the display reads `angle` at `vp` as a 2-byte value |
| Session.DataVarSetInt16 | dgus.c:234-237 | the display reads the 2-byte two's-complement pattern of `v`, which reads back as `v` |
| Session.DataVarSetInt32 | dgus.c:245-248 | the display reads the 4-byte two's-complement pattern of `v`, which reads back as `v` |
| Session.DataVarSetInt64 | dgus.c:256-259 | the display reads the 8-byte two's-complement pattern of `v`, which reads back as `v` |
| Session.DataVarSetFloat | dgus.c:267-270 | one frame is sent whose data reversed is the float's 4-byte memory image |
| Session.DataVarSetDouble | dgus.c:277-280 | one frame is sent whose data reversed is the double's 8-byte memory image |
| Session.TextDisplaySetGB2312 | dgus.c:291-298 | two sends: a header (5A A5, `(len + 3) mod 256`, 82, `vp` MSB first), then the text bytes unchanged |
| Session.TextDisplaySetGB2312Checked | dgus.c:286-298 | the correction of the driver's text operation, not code the driver has: text longer than 249 bytes (dgus.c:15) is refused with its length; shorter text is sent as the driver sends it, and the header plus text decode as one write of the text at `vp` |
| Session.TextLengthByteWraps | dgus.c:293 | for 253 bytes or more the length byte no longer counts the bytes that follow, and the display rejects the frame |
| Session.TextOf253BytesIsUnparsable | dgus.c:293-297 | 253 bytes of text give length byte 0, and the stream the display receives no longer parses |
| Session.TextCheckAgreesWhenItFits | dgus.c:291-298 | where the text fits one frame, the checked operation sends exactly what the driver sends |
| Session.TextDisplaySetColor | dgus.c:306-309 | the display reads `color` at sp + 0x03, modulo 2^16 |
| Session.TextDisplaySetFontDots | dgus.c:316-319 | the display reads `fontDots` at sp + 0x0A, modulo 2^16 |
| Session.BuzzerTicks | dgus.c:324-331 | `ms >> 3` is the number of whole 8 ms units in `ms` |
| Session.BuzzerSet | dgus.c:329-332 | the display reads `ms >> 3` at register 0x00A0 as a 2-byte value |
| Commands.Apply | dgus.c:150-332 | runs one call, with text through the corrected, length-checked operation: only text over 249 bytes is refused, and only the page switch changes the cached page id |
| Commands.Run | dgus.c:150-332 | runs calls in order with the corrected text operation: a sequence fails exactly when one of its commands is text over 249 bytes |
| Commands.ResetWrites | dgus.c:150-156 | after a reset the display has performed one more write, of the reset magic to register 0x0004; the wait adds no bytes |
| Commands.TextWrites | dgus.c:291-298 | after text that fits, the two sends add exactly one write of the text at `vp` |
| Commands.DGUSPicSetWrites | dgus.c:166-172 | a page switch adds exactly its one write to what the display has performed |
| Commands.SetIconIDWrites | dgus.c:182-185 | an icon update adds exactly the write of `id`, MSB first, at `vp` |
| Commands.SetArtInt16Writes | dgus.c:195-198 | an artistic-number update adds exactly the write of the 2-byte pattern of `v` |
| Commands.SetArtIcon0Writes | dgus.c:207-211 | the ICON0 update adds exactly the write of `iconId` at sp + 0x03 |
| Commands.SetIconAngleWrites | dgus.c:221-224 | an angle update adds exactly the write of `angle` at `vp` |
| Commands.SetDataInt16Writes | dgus.c:234-237 | the update adds exactly the write of the 2-byte pattern of `v` |
| Commands.SetDataInt32Writes | dgus.c:245-248 | the update adds exactly the write of the 4-byte pattern of `v` |
| Commands.SetDataInt64Writes | dgus.c:256-259 | the update adds exactly the write of the 8-byte pattern of `v` |
| Commands.SetDataFloatWrites | dgus.c:267-270 | the update adds exactly the write of the float's bytes in reverse memory order |
| Commands.SetDataDoubleWrites | dgus.c:277-280 | the update adds exactly the write of the double's bytes in reverse memory order |
| Commands.SetTextColorWrites | dgus.c:306-309 | the update adds exactly the write of `color` at sp + 0x03 |
| Commands.SetTextFontDotsWrites | dgus.c:316-319 | the update adds exactly the write of `fontDots` at sp + 0x0A |
| Commands.BuzzWrites | dgus.c:329-332 | the buzzer command adds exactly the write of `ms >> 3` at 0x00A0 |
| Commands.ApplyWrites | dgus.c:150-332 | with the corrected text operation, every accepted command adds exactly its intended writes to what the display has performed |
| Commands.RunWrites | dgus.c:150-332 | with the corrected text operation, any accepted command sequence makes the display perform the intended writes of its commands, in order, after what it had already performed |
| Commands.RunFromInitial | dgus.c:42-47 | with the corrected text operation, from a freshly initialised handle, the display performs exactly the intended writes of an accepted sequence and nothing else |

## Left out

- `DGUS_SerialSend` over `huart2` (dgus.c:28-35): UART I/O. Each call becomes one `Send` event holding its bytes. A failed transmit is ignored by the driver and is not modelled.
- `DGUS_SerialReceive` (dgus.c:37-40): an empty stub with no behaviour.
- `default_dgus` (dgus.c:42-47): function-pointer wiring. `Session.Initial` stands for its page id 0 and an empty trace.
- The `model` field and the function-pointer members of `DGUS_Display_t` (dgus.h:32-38): `model` is never read by the encoder, and the pointers are replaced by the `Send` and `Delay` events of the trace.
- `DGUS_DelyMs` and `HAL_Delay`: real time is not modelled. A wait is a `Delay(ms)` event.
- Float and double semantics: `float` and `double` arguments are modelled as their raw 4- and 8-byte memory images (`Float32Bits`, `Float64Bits`). IEEE-754 values and rounding are outside the model.
- GB2312 encoding: text is the byte buffer the caller passes, and its characters are not interpreted.
- The big-endian host variant in the comment at dgus.c:72: it is dead code. The model assumes the little-endian host the driver is written for.
- Session.BuzzerTicks: states the meaning of `mstime >> 3` on an unsigned value (whole 8 ms units). It is written as division by 8, and its equivalence with a 16-bit shift is not proved.
- The `len` parameter of `TextDisplaySetGB2312` is not modelled separately from the buffer: the text is the `len` bytes the call sends. Session.TextDisplaySetGB2312 requires fewer than 2^16 bytes because `len` is a `uint16_t`.
- Commands.Apply: runs text through the corrected `Session.TextDisplaySetGB2312Checked`, not the driver as written, so `Apply`, `Run`, `ApplyWrites`, `RunWrites` and `RunFromInitial` say nothing about the as-written driver on text of 250 bytes or more, which it sends without refusing (its behaviour there is stated by `Session.TextLengthByteWraps` and `Session.TextOf253BytesIsUnparsable`).

## Findings

| source | as written | input that shows it | evidently intended | confidence | as-written member | corrected member |
|---|---|---|---|---|---|---|
| dgus.c:287-297 | the header's length byte is `len + 3` stored in a `uint8_t`, and the text is sent whatever its length, although the comment promises 512 bytes | 253 bytes of text: the length byte is 0x00, so the display cannot find a frame in the stream | text beyond the 249 data bytes a frame can carry (dgus.c:15) is refused, or never passed in | not executed | Session.TextDisplaySetGB2312 (shown by Session.TextLengthByteWraps and Session.TextOf253BytesIsUnparsable) | Session.TextDisplaySetGB2312Checked (proved by Commands.TextWrites and Commands.RunWrites) |

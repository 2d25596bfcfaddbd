/**
 The display handle and every public operation of the driver.

 A handle holds the cached page id and, in place of the injected send and
 delay capabilities, the trace of calls made on them. Each operation returns
 the handle with its calls appended.
 */
module Session {
  import opened Wrappers
  import opened Bytes
  import opened Frame

  /** One call on an injected capability: transmit bytes, or block for `ms` milliseconds. */
  datatype Event = Send(bytes: seq<byte>) | Delay(ms: uint32)

  /** The display handle: last page id set, and the calls made so far, oldest first. */
  datatype Display = Display(picid: uint16, trace: seq<Event>)

  /** The only input the driver refuses: text too long for one frame. */
  datatype Error = TextTooLong(len: nat)

  /** Variable holding the reset command. */
  const ResetRegister: uint16 := 0x0004
  /** Magic word that, written to `ResetRegister`, restarts the display. */
  const ResetMagic: uint32 := 0x55AA_5AA5
  /** How long the display needs after a reset. */
  const ResetDelayMs: uint32 := 3000
  /** Variable holding the page-switch command. */
  const PicSetRegister: uint16 := 0x0084
  /** Variable holding the buzzer duration, in 8 ms ticks. */
  const BuzzerRegister: uint16 := 0x00A0
  /** Descriptor offset of an artistic variable's icon for digit 0. */
  const IconZeroOffset: nat := 0x03
  /** Descriptor offset of a text's colour. */
  const TextColorOffset: nat := 0x03
  /** Descriptor offset of a text's font size. */
  const FontDotsOffset: nat := 0x0A

  /** The display handle as the application builds it: page 0, nothing sent. */
  const Initial: Display := Display(0, [])

  /** The bytes an event puts on the serial link. */
  function EventBytes(e: Event): seq<byte>
  {
    if e.Send? then e.bytes else []
  }

  /** The serial link's byte stream: every send in order; a delay carries nothing. */
  function Wire(t: seq<Event>): seq<byte>
  {
    if |t| == 0 then [] else Wire(t[..|t| - 1]) + EventBytes(t[|t| - 1])
  }

  /** The writes the display performs on everything sent so far, if it all parses. */
  function Writes(d: Display): Option<seq<WriteCmd>>
  {
    ParseStream(Wire(d.trace))
  }

  /** Appending an event appends its bytes to the link's stream. */
  lemma WireAppend(t: seq<Event>, e: Event)
    ensures Wire(t + [e]) == Wire(t) + EventBytes(e)
  {
    assert (t + [e])[..|t|] == t;
  }

  /** Two events sent back to back put their bytes on the wire in order. */
  lemma WireAppendTwo(t: seq<Event>, e0: Event, e1: Event)
    ensures Wire(t + [e0, e1]) == Wire(t) + (EventBytes(e0) + EventBytes(e1))
  {
    assert t + [e0, e1] == (t + [e0]) + [e1];
    WireAppend(t + [e0], e1);
    WireAppend(t, e0);
  }

  /** `t'` is `t` followed by exactly `k` more events. */
  predicate Grows(t: seq<Event>, t': seq<Event>, k: nat)
  {
    |t'| == |t| + k && t'[..|t|] == t
  }

  /** Event `i` sends one frame that the display accepts as the write `w`. */
  predicate SentWrite(t: seq<Event>, i: nat, w: WriteCmd)
  {
    i < |t| && t[i].Send? && DecodeWrite(t[i].bytes) == Some(w)
  }

  /**
   Event `i` sends one frame that the display accepts as a write of a
   `width`-byte integer to `addr`, and the display reads `value` from it.
   */
  predicate SentValue(t: seq<Event>, i: nat, addr: uint16, width: nat, value: nat)
  {
    && i < |t| && t[i].Send? && DecodeWrite(t[i].bytes).Some?
    && var w := DecodeWrite(t[i].bytes).value;
       w.addr == addr && |w.data| == width && FromBigEndian(w.data) == value
  }

  /**
   Event `i` sends one frame that the display accepts as a write to `addr`,
   and reversing its data gives back the `native` bytes of the host.
   */
  predicate SentNative(t: seq<Event>, i: nat, addr: uint16, native: seq<byte>)
  {
    && i < |t| && t[i].Send? && DecodeWrite(t[i].bytes).Some?
    && var w := DecodeWrite(t[i].bytes).value;
       w.addr == addr && Reverse(w.data) == native
  }

  /** Builds the frame for `native` into a buffer of `size` bytes and sends it. */
  function SendFrame(d: Display, addr: uint16, native: seq<byte>, size: uint8): (d': Display)
    requires HeaderSize <= size && |native| == size - HeaderSize
    ensures d'.picid == d.picid && Grows(d.trace, d'.trace, 1)
    ensures SentWrite(d'.trace, |d.trace|, WriteCmd(addr, Reverse(native)))
    ensures SentNative(d'.trace, |d.trace|, addr, native)
  {
    ReverseInvolutive(native);
    Display(d.picid, d.trace + [Send(WriteFrame(addr, native, size))])
  }

  /** Sends a 16-bit value as an 8-byte frame. */
  function Send2Bytes(d: Display, addr: uint16, v: uint16): (d': Display)
    ensures d'.picid == d.picid && Grows(d.trace, d'.trace, 1)
    ensures SentValue(d'.trace, |d.trace|, addr, 2, v)
    ensures |d'.trace[|d.trace|].bytes| == 8 && d'.trace[|d.trace|].bytes[2] == 5
  {
    ReversedLittleIsBig(v, 2);
    BigEndianRoundTrip(v, 2);
    SendFrame(d, addr, LittleEndian(v, 2), 8)
  }

  /** Sends a 32-bit value as a 10-byte frame. */
  function Send4Bytes(d: Display, addr: uint16, v: uint32): (d': Display)
    ensures d'.picid == d.picid && Grows(d.trace, d'.trace, 1)
    ensures SentValue(d'.trace, |d.trace|, addr, 4, v)
    ensures |d'.trace[|d.trace|].bytes| == 10 && d'.trace[|d.trace|].bytes[2] == 7
  {
    ReversedLittleIsBig(v, 4);
    BigEndianRoundTrip(v, 4);
    SendFrame(d, addr, LittleEndian(v, 4), 10)
  }

  /** Sends a 64-bit value as a 14-byte frame. */
  function Send8Bytes(d: Display, addr: uint16, v: uint64): (d': Display)
    ensures d'.picid == d.picid && Grows(d.trace, d'.trace, 1)
    ensures SentValue(d'.trace, |d.trace|, addr, 8, v)
    ensures |d'.trace[|d.trace|].bytes| == 14 && d'.trace[|d.trace|].bytes[2] == 11
  {
    ReversedLittleIsBig(v, 8);
    BigEndianRoundTrip(v, 8);
    SendFrame(d, addr, LittleEndian(v, 8), 14)
  }

  /** Sends the bit pattern of a float as a 10-byte frame. */
  function SendFloat(d: Display, addr: uint16, bits: Float32Bits): (d': Display)
    ensures d'.picid == d.picid && Grows(d.trace, d'.trace, 1)
    ensures SentNative(d'.trace, |d.trace|, addr, bits)
    ensures |d'.trace[|d.trace|].bytes| == 10 && d'.trace[|d.trace|].bytes[2] == 7
  {
    SendFrame(d, addr, bits, 10)
  }

  /** Sends the bit pattern of a double as a 14-byte frame. */
  function SendDouble(d: Display, addr: uint16, bits: Float64Bits): (d': Display)
    ensures d'.picid == d.picid && Grows(d.trace, d'.trace, 1)
    ensures SentNative(d'.trace, |d.trace|, addr, bits)
    ensures |d'.trace[|d.trace|].bytes| == 14 && d'.trace[|d.trace|].bytes[2] == 11
  {
    SendFrame(d, addr, bits, 14)
  }

  /** The literal reset frame: a write of `ResetMagic` to `ResetRegister`. */
  function ResetFrame(): (f: seq<byte>)
    ensures |f| == 10
    ensures DecodeWrite(f) == Some(WriteCmd(ResetRegister, BigEndian(ResetMagic, 4)))
  {
    assert BigEndian(ResetMagic, 4) == [0x55, 0xAA, 0x5A, 0xA5];
    [0x5A, 0xA5, 0x07, 0x82, 0x00, 0x04, 0x55, 0xAA, 0x5A, 0xA5]
  }

  /** Restarts the display: the reset frame, then a 3000 ms wait. */
  function Reset(d: Display): (d': Display)
    ensures d'.picid == d.picid && Grows(d.trace, d'.trace, 2)
    ensures SentValue(d'.trace, |d.trace|, ResetRegister, 4, ResetMagic)
    ensures d'.trace[|d.trace|] == Send(ResetFrame())
    ensures d'.trace[|d.trace| + 1] == Delay(ResetDelayMs)
  {
    BigEndianRoundTrip(ResetMagic, 4);
    Display(d.picid, d.trace + [Send(ResetFrame()), Delay(ResetDelayMs)])
  }

  /** The reset literal is exactly what the frame builder makes of `ResetMagic`. */
  lemma ResetFrameIsBuilt()
    ensures ResetFrame() == WriteFrame(ResetRegister, LittleEndian(ResetMagic, 4), 10)
  {
    assert LittleEndian(ResetMagic, 4) == [0xA5, 0x5A, 0xAA, 0x55];
  }

  /**
   The page-switch frame: `5A` starts one page operation, mode `01` is a page
   switch, then the page id most significant byte first.
   */
  function PicSetFrame(picid: uint16): (f: seq<byte>)
    ensures |f| == 10
    ensures DecodeWrite(f) == Some(WriteCmd(PicSetRegister, [0x5A, 0x01] + BigEndian(picid, 2)))
  {
    var f := [0x5A, 0xA5, 0x07, 0x82, 0x00, 0x84, 0x5A, 0x01, picid / 0x100, picid % 0x100];
    assert BigEndian(picid, 2) == [picid / 0x100, picid % 0x100];
    assert f[6..] == [0x5A, 0x01] + BigEndian(picid, 2);
    f
  }

  /** Switches the display to page `picid` and caches that id in the handle. */
  function PicSet(d: Display, picid: uint16): (d': Display)
    ensures d'.picid == picid && Grows(d.trace, d'.trace, 1)
    ensures SentValue(d'.trace, |d.trace|, PicSetRegister, 4, 0x5A01_0000 + picid)
    ensures |d'.trace[|d.trace|].bytes| == 10
  {
    var f := PicSetFrame(picid);
    PicSetWordBytes(picid);
    BigEndianRoundTrip(0x5A01_0000 + picid, 4);
    Display(picid, d.trace + [Send(f)])
  }

  /** The page-switch literal is what the frame builder makes of the 32-bit word `5A 01 id`. */
  lemma PicSetFrameIsBuilt(picid: uint16)
    ensures PicSetFrame(picid) == WriteFrame(PicSetRegister, LittleEndian(0x5A01_0000 + picid, 4), 10)
  {
    ReversedLittleIsBig(0x5A01_0000 + picid, 4);
    PicSetWordBytes(picid);
  }

  /** The 32-bit word `5A 01 id` has the page-switch data bytes as its big-endian encoding. */
  lemma PicSetWordBytes(picid: uint16)
    ensures BigEndian(0x5A01_0000 + picid, 4) == PicSetFrame(picid)[6..]
    ensures BigEndian(0x5A01_0000 + picid, 4) == [0x5A, 0x01] + BigEndian(picid, 2)
  {
    var v := 0x5A01_0000 + picid;
    assert v % 0x100 == picid % 0x100 && v / 0x100 == 0x5A_0100 + picid / 0x100;
    assert (v / 0x100) % 0x100 == picid / 0x100 && (v / 0x100) / 0x100 == 0x5A01;
    assert BigEndian(0x5A01, 2) == [0x5A, 0x01];
  }

  /** Sets the icon shown by an icon variable. */
  function VarIconSetID(d: Display, vp: uint16, id: uint16): (d': Display)
    ensures d'.picid == d.picid && Grows(d.trace, d'.trace, 1)
    ensures SentValue(d'.trace, |d.trace|, vp, 2, id)
  {
    Send2Bytes(d, vp, id)
  }

  /**
   Event `i` sends a frame that writes a `width`-byte integer to `addr` which
   the display, reading it as two's complement, takes to be `v`.
   */
  predicate SentSigned(t: seq<Event>, i: nat, addr: uint16, width: nat, v: int)
  {
    && i < |t| && t[i].Send? && DecodeWrite(t[i].bytes).Some?
    && var w := DecodeWrite(t[i].bytes).value;
       w.addr == addr && |w.data| == width && ToSigned(FromBigEndian(w.data), width) == v
  }

  /** A signed value passed as an unsigned parameter is read back unchanged as two's complement. */
  lemma SignedSent(t: seq<Event>, i: nat, addr: uint16, width: nat, v: int)
    requires 0 < width && -(Pow256(width) / 2) <= v < Pow256(width) / 2
    requires SentValue(t, i, addr, width, ToUnsigned(v, width))
    ensures SentSigned(t, i, addr, width, v)
  {
    SignedRoundTrip(v, width);
  }

  /** Sets the integer shown by an artistic-text variable. */
  function ArtVarSetInt16(d: Display, vp: uint16, v: int16): (d': Display)
    ensures d'.picid == d.picid && Grows(d.trace, d'.trace, 1)
    ensures SentValue(d'.trace, |d.trace|, vp, 2, ToUnsigned(v, 2))
    ensures SentSigned(d'.trace, |d.trace|, vp, 2, v)
  {
    var d' := Send2Bytes(d, vp, ToUnsigned(v, 2));
    SignedSent(d'.trace, |d.trace|, vp, 2, v);
    d'
  }

  /** The address a descriptor field at `offset` is written to: the sum taken as a uint16. */
  function FieldAddress(sp: uint16, offset: nat): (a: uint16)
    ensures sp + offset < 0x1_0000 ==> a == sp + offset
    ensures sp + offset >= 0x1_0000 && offset < 0x1_0000 ==> a == sp + offset - 0x1_0000
  {
    (sp + offset) % 0x1_0000
  }

  /** Sets the icon an artistic-text variable uses for digit 0, through its descriptor. */
  function ArtVarSetICON0(d: Display, sp: uint16, iconId: uint16): (d': Display)
    ensures d'.picid == d.picid && Grows(d.trace, d'.trace, 1)
    ensures SentValue(d'.trace, |d.trace|, FieldAddress(sp, IconZeroOffset), 2, iconId)
  {
    Send2Bytes(d, FieldAddress(sp, IconZeroOffset), iconId)
  }

  /** Sets the angle of a rotating icon. */
  function RatIconSetAngle(d: Display, vp: uint16, angle: uint16): (d': Display)
    ensures d'.picid == d.picid && Grows(d.trace, d'.trace, 1)
    ensures SentValue(d'.trace, |d.trace|, vp, 2, angle)
  {
    Send2Bytes(d, vp, angle)
  }

  /** Shows a 16-bit signed integer in a data variable. */
  function DataVarSetInt16(d: Display, vp: uint16, v: int16): (d': Display)
    ensures d'.picid == d.picid && Grows(d.trace, d'.trace, 1)
    ensures SentValue(d'.trace, |d.trace|, vp, 2, ToUnsigned(v, 2))
    ensures SentSigned(d'.trace, |d.trace|, vp, 2, v)
  {
    var d' := Send2Bytes(d, vp, ToUnsigned(v, 2));
    SignedSent(d'.trace, |d.trace|, vp, 2, v);
    d'
  }

  /** Shows a 32-bit signed integer in a data variable. */
  function DataVarSetInt32(d: Display, vp: uint16, v: int32): (d': Display)
    ensures d'.picid == d.picid && Grows(d.trace, d'.trace, 1)
    ensures SentValue(d'.trace, |d.trace|, vp, 4, ToUnsigned(v, 4))
    ensures SentSigned(d'.trace, |d.trace|, vp, 4, v)
  {
    var d' := Send4Bytes(d, vp, ToUnsigned(v, 4));
    SignedSent(d'.trace, |d.trace|, vp, 4, v);
    d'
  }

  /** Shows a 64-bit signed integer in a data variable. */
  function DataVarSetInt64(d: Display, vp: uint16, v: int64): (d': Display)
    ensures d'.picid == d.picid && Grows(d.trace, d'.trace, 1)
    ensures SentValue(d'.trace, |d.trace|, vp, 8, ToUnsigned(v, 8))
    ensures SentSigned(d'.trace, |d.trace|, vp, 8, v)
  {
    var d' := Send8Bytes(d, vp, ToUnsigned(v, 8));
    SignedSent(d'.trace, |d.trace|, vp, 8, v);
    d'
  }

  /** Shows a float in a data variable; only its bit pattern is modelled. */
  function DataVarSetFloat(d: Display, vp: uint16, bits: Float32Bits): (d': Display)
    ensures d'.picid == d.picid && Grows(d.trace, d'.trace, 1)
    ensures SentNative(d'.trace, |d.trace|, vp, bits)
  {
    SendFloat(d, vp, bits)
  }

  /** Shows a double in a data variable; only its bit pattern is modelled. */
  function DataVarSetDouble(d: Display, vp: uint16, bits: Float64Bits): (d': Display)
    ensures d'.picid == d.picid && Grows(d.trace, d'.trace, 1)
    ensures SentNative(d'.trace, |d.trace|, vp, bits)
  {
    SendDouble(d, vp, bits)
  }

  /**
   Text display as the driver writes it: a header whose length byte is
   `len + 3` stored in a uint8, then the text bytes as a second send.
   */
  function TextDisplaySetGB2312(d: Display, vp: uint16, text: seq<byte>): (d': Display)
    requires |text| < 0x1_0000
    ensures d'.picid == d.picid && Grows(d.trace, d'.trace, 2)
    ensures d'.trace[|d.trace|].Send? && d'.trace[|d.trace| + 1] == Send(text)
    ensures var h := d'.trace[|d.trace|].bytes;
      && |h| == HeaderSize && h[0] == 0x5A && h[1] == 0xA5 && h[3] == 0x82
      && h[2] == (|text| + 3) % 0x100 && FromBigEndian(h[4..]) == vp
  {
    var h := Header(vp, (|text| + 3) % 0x100);
    Display(d.picid, d.trace + [Send(h), Send(text)])
  }

  /**
   The corrected text display, which the driver does not have: it adds the
   length check that `TextDisplaySetGB2312` lacks. Text that does not fit one
   frame is refused; otherwise the header and the text, sent back to back, form one
   frame that writes the text unchanged (not reversed) at `vp`.
   */
  function TextDisplaySetGB2312Checked(d: Display, vp: uint16, text: seq<byte>): (r: Result<Display, Error>)
    requires |text| < 0x1_0000
    ensures r.Failure? <==> |text| > MaxData
    ensures r.Failure? ==> r.error == TextTooLong(|text|)
    ensures r.Success? ==>
      var d' := r.value;
      && d'.picid == d.picid && Grows(d.trace, d'.trace, 2)
      && d'.trace[|d.trace|].Send? && |d'.trace[|d.trace|].bytes| == HeaderSize
      && d'.trace[|d.trace| + 1] == Send(text)
      && DecodeWrite(d'.trace[|d.trace|].bytes + text) == Some(WriteCmd(vp, text))
  {
    if |text| > MaxData then Failure(TextTooLong(|text|))
    else
      DecodeHeaderData(vp, text);
      Success(TextDisplaySetGB2312(d, vp, text))
  }

  /**
   The header's length byte wraps for text of 253 bytes or more: it no longer
   counts the bytes that follow, and the display cannot accept the frame.
   */
  lemma TextLengthByteWraps(d: Display, vp: uint16, text: seq<byte>)
    requires 0x100 - 3 <= |text| < 0x1_0000
    ensures var h := TextDisplaySetGB2312(d, vp, text).trace[|d.trace|].bytes;
      h[2] != |text| + 3 && DecodeWrite(h + text).None?
  {
  }

  /** With 253 bytes of text the length byte is 0 and the stream does not parse at all. */
  lemma TextOf253BytesIsUnparsable(vp: uint16)
    ensures var text := seq(253, _ => 0x20);
      var d' := TextDisplaySetGB2312(Initial, vp, text);
      d'.trace[0].bytes[2] == 0 && Writes(d').None?
  {
    var text: seq<byte> := seq(253, _ => 0x20);
    var d' := TextDisplaySetGB2312(Initial, vp, text);
    var s := d'.trace[0].bytes + text;
    assert d'.trace == [Send(d'.trace[0].bytes), Send(text)];
    assert Wire(d'.trace) == s by {
      WireAppend([Send(d'.trace[0].bytes)], Send(text));
      WireAppend([], Send(d'.trace[0].bytes));
    }
    assert s[..3] == s[..s[2] as int + 3];
    assert DecodeWrite(s[..3]).None?;
  }

  /** Where the text fits one frame the checked operation sends what the driver sends. */
  lemma TextCheckAgreesWhenItFits(d: Display, vp: uint16, text: seq<byte>)
    requires |text| <= MaxData
    ensures TextDisplaySetGB2312Checked(d, vp, text) == Success(TextDisplaySetGB2312(d, vp, text))
  {
  }

  /** Sets a text's colour, through its descriptor. */
  function TextDisplaySetColor(d: Display, sp: uint16, color: uint16): (d': Display)
    ensures d'.picid == d.picid && Grows(d.trace, d'.trace, 1)
    ensures SentValue(d'.trace, |d.trace|, FieldAddress(sp, TextColorOffset), 2, color)
  {
    Send2Bytes(d, FieldAddress(sp, TextColorOffset), color)
  }

  /** Sets a text's font size in dots, through its descriptor. */
  function TextDisplaySetFontDots(d: Display, sp: uint16, fontDots: uint16): (d': Display)
    ensures d'.picid == d.picid && Grows(d.trace, d'.trace, 1)
    ensures SentValue(d'.trace, |d.trace|, FieldAddress(sp, FontDotsOffset), 2, fontDots)
  {
    Send2Bytes(d, FieldAddress(sp, FontDotsOffset), fontDots)
  }

  /** Number of whole 8 ms buzzer ticks in `ms` milliseconds: `ms >> 3`. */
  function BuzzerTicks(ms: uint16): (ticks: uint16)
    ensures 8 * ticks <= ms < 8 * ticks + 8
  {
    ms / 8
  }

  /** Sounds the buzzer for `ms` milliseconds, rounded down to whole 8 ms ticks. */
  function BuzzerSet(d: Display, ms: uint16): (d': Display)
    ensures d'.picid == d.picid && Grows(d.trace, d'.trace, 1)
    ensures SentValue(d'.trace, |d.trace|, BuzzerRegister, 2, BuzzerTicks(ms))
  {
    Send2Bytes(d, BuzzerRegister, BuzzerTicks(ms))
  }
}

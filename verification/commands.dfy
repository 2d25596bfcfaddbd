/**
 Every public operation of the driver as a command value, and what the
 display does with the byte stream a sequence of commands produces: it
 performs exactly the writes each command stands for, in order.
 */
module Commands {
  import opened Wrappers
  import opened Bytes
  import opened Frame
  import opened Session

  /** Text as the driver receives it: a byte buffer whose length fits a uint16. */
  type Text = s: seq<byte> | |s| < 0x1_0000

  /** One call of the driver's public interface, with its arguments. */
  datatype Command =
    | DGUSReset
    | DGUSPicSet(picid: uint16)
    | SetIconID(vp: uint16, id: uint16)
    | SetArtInt16(vp: uint16, v16: int16)
    | SetArtIcon0(sp: uint16, iconId: uint16)
    | SetIconAngle(vp: uint16, angle: uint16)
    | SetDataInt16(vp: uint16, v16: int16)
    | SetDataInt32(vp: uint16, v32: int32)
    | SetDataInt64(vp: uint16, v64: int64)
    | SetDataFloat(vp: uint16, f32: Float32Bits)
    | SetDataDouble(vp: uint16, f64: Float64Bits)
    | ShowText(vp: uint16, text: Text)
    | SetTextColor(sp: uint16, color: uint16)
    | SetTextFontDots(sp: uint16, fontDots: uint16)
    | Buzz(ms: uint16)

  /** The command the driver refuses: text longer than one frame can carry. */
  predicate TooLong(c: Command)
  {
    c.ShowText? && |c.text| > MaxData
  }

  /**
   The writes a command stands for, stated from the display's side: which
   variable, and the bytes it holds afterwards (integers most significant
   byte first, float patterns in wire order, text unchanged).
   */
  function Intended(c: Command): seq<WriteCmd>
  {
    match c
    case DGUSReset => [WriteCmd(ResetRegister, BigEndian(ResetMagic, 4))]
    case DGUSPicSet(p) => [WriteCmd(PicSetRegister, [0x5A, 0x01] + BigEndian(p, 2))]
    case SetIconID(vp, id) => [WriteCmd(vp, BigEndian(id, 2))]
    case SetArtInt16(vp, v) => [WriteCmd(vp, BigEndian(ToUnsigned(v, 2), 2))]
    case SetArtIcon0(sp, id) => [WriteCmd(FieldAddress(sp, IconZeroOffset), BigEndian(id, 2))]
    case SetIconAngle(vp, a) => [WriteCmd(vp, BigEndian(a, 2))]
    case SetDataInt16(vp, v) => [WriteCmd(vp, BigEndian(ToUnsigned(v, 2), 2))]
    case SetDataInt32(vp, v) => [WriteCmd(vp, BigEndian(ToUnsigned(v, 4), 4))]
    case SetDataInt64(vp, v) => [WriteCmd(vp, BigEndian(ToUnsigned(v, 8), 8))]
    case SetDataFloat(vp, bits) => [WriteCmd(vp, Reverse(bits))]
    case SetDataDouble(vp, bits) => [WriteCmd(vp, Reverse(bits))]
    case ShowText(vp, text) => [WriteCmd(vp, text)]
    case SetTextColor(sp, color) => [WriteCmd(FieldAddress(sp, TextColorOffset), BigEndian(color, 2))]
    case SetTextFontDots(sp, dots) => [WriteCmd(FieldAddress(sp, FontDotsOffset), BigEndian(dots, 2))]
    case Buzz(ms) => [WriteCmd(BuzzerRegister, BigEndian(BuzzerTicks(ms), 2))]
  }

  /** Performs one command on the handle. */
  function Apply(d: Display, c: Command): (r: Result<Display, Error>)
    ensures r.Failure? <==> TooLong(c)
    ensures r.Success? ==> r.value.picid == (if c.DGUSPicSet? then c.picid else d.picid)
  {
    match c
    case DGUSReset => Success(Reset(d))
    case DGUSPicSet(p) => Success(PicSet(d, p))
    case SetIconID(vp, id) => Success(VarIconSetID(d, vp, id))
    case SetArtInt16(vp, v) => Success(ArtVarSetInt16(d, vp, v))
    case SetArtIcon0(sp, id) => Success(ArtVarSetICON0(d, sp, id))
    case SetIconAngle(vp, a) => Success(RatIconSetAngle(d, vp, a))
    case SetDataInt16(vp, v) => Success(DataVarSetInt16(d, vp, v))
    case SetDataInt32(vp, v) => Success(DataVarSetInt32(d, vp, v))
    case SetDataInt64(vp, v) => Success(DataVarSetInt64(d, vp, v))
    case SetDataFloat(vp, bits) => Success(DataVarSetFloat(d, vp, bits))
    case SetDataDouble(vp, bits) => Success(DataVarSetDouble(d, vp, bits))
    case ShowText(vp, text) => TextDisplaySetGB2312Checked(d, vp, text)
    case SetTextColor(sp, color) => Success(TextDisplaySetColor(d, sp, color))
    case SetTextFontDots(sp, dots) => Success(TextDisplaySetFontDots(d, sp, dots))
    case Buzz(ms) => Success(BuzzerSet(d, ms))
  }

  /** Performs the commands in order, stopping at the first refused one. */
  function Run(d: Display, cs: seq<Command>): (r: Result<Display, Error>)
    ensures r.Failure? <==> exists i :: 0 <= i < |cs| && TooLong(cs[i])
    decreases |cs|
  {
    if |cs| == 0 then Success(d)
    else
      match Apply(d, cs[0])
      case Failure(e) => Failure(e)
      case Success(d1) =>
        var r := Run(d1, cs[1..]);
        assert forall i :: 1 <= i < |cs| ==> cs[i] == cs[1..][i - 1];
        r
  }

  /** The writes of the commands, in order. */
  function IntendedAll(cs: seq<Command>): seq<WriteCmd>
  {
    if |cs| == 0 then [] else Intended(cs[0]) + IntendedAll(cs[1..])
  }

  /** A frame sent as the one new event adds its write to what the display has performed. */
  lemma WritesAfterOneFrame(d: Display, d': Display, w: WriteCmd, ws: seq<WriteCmd>)
    requires Grows(d.trace, d'.trace, 1) && SentWrite(d'.trace, |d.trace|, w)
    requires Writes(d) == Some(ws)
    ensures Writes(d') == Some(ws + [w])
  {
    var e := d'.trace[|d.trace|];
    assert d'.trace == d.trace + [e];
    WireAppend(d.trace, e);
    ParseSingle(e.bytes);
    ParseConcat(Wire(d.trace), e.bytes, ws, [w]);
  }

  /** A frame whose integer reads back as `value` adds the write of its big-endian bytes. */
  lemma WritesAfterValue(d: Display, d': Display, addr: uint16, width: nat, value: nat, ws: seq<WriteCmd>)
    requires Grows(d.trace, d'.trace, 1) && SentValue(d'.trace, |d.trace|, addr, width, value)
    requires value < Pow256(width) && Writes(d) == Some(ws)
    ensures Writes(d') == Some(ws + [WriteCmd(addr, BigEndian(value, width))])
  {
    BigEndianOfBytes(DecodeWrite(d'.trace[|d.trace|].bytes).value.data);
    WritesAfterOneFrame(d, d', WriteCmd(addr, BigEndian(value, width)), ws);
  }

  /** A frame whose data reverses to `native` adds the write of `native` reversed. */
  lemma WritesAfterNative(d: Display, d': Display, addr: uint16, native: seq<byte>, ws: seq<WriteCmd>)
    requires Grows(d.trace, d'.trace, 1) && SentNative(d'.trace, |d.trace|, addr, native)
    requires Writes(d) == Some(ws)
    ensures Writes(d') == Some(ws + [WriteCmd(addr, Reverse(native))])
  {
    ReverseInvolutive(DecodeWrite(d'.trace[|d.trace|].bytes).value.data);
    WritesAfterOneFrame(d, d', WriteCmd(addr, Reverse(native)), ws);
  }

  /** Reset: its frame is one write of the reset magic; the delay adds nothing to the stream. */
  lemma ResetWrites(d: Display, c: Command, ws: seq<WriteCmd>)
    requires Writes(d) == Some(ws) && c.DGUSReset?
    ensures Writes(Apply(d, c).value) == Some(ws + Intended(c))
  {
    var d' := Reset(d);
    var e0, e1 := d'.trace[|d.trace|], d'.trace[|d.trace| + 1];
    var mid := Display(d.picid, d.trace + [e0]);
    assert d'.trace == mid.trace + [e1];
    WireAppend(mid.trace, e1);
    assert Wire(d'.trace) == Wire(mid.trace);
    assert mid.trace[|d.trace|] == e0;
    WritesAfterValue(d, mid, ResetRegister, 4, ResetMagic, ws);
  }

  /** Text that fits: the header and the text, sent back to back, are one write of the text. */
  lemma TextWrites(d: Display, c: Command, ws: seq<WriteCmd>)
    requires Writes(d) == Some(ws) && c.ShowText? && !TooLong(c)
    ensures Writes(Apply(d, c).value) == Some(ws + Intended(c))
  {
    var vp, text := c.vp, c.text;
    var d' := TextDisplaySetGB2312Checked(d, vp, text).value;
    var h := Header(vp, |text| + 3);
    assert d'.trace == d.trace + [Send(h), Send(text)];
    WireAppendTwo(d.trace, Send(h), Send(text));
    DecodeHeaderData(vp, text);
    ParseSingle(h + text);
    ParseConcat(Wire(d.trace), h + text, ws, [WriteCmd(vp, text)]);
  }

  /** Page switch: one write of `5A 01` and the page id to the page register. */
  lemma DGUSPicSetWrites(d: Display, c: Command, ws: seq<WriteCmd>)
    requires Writes(d) == Some(ws) && c.DGUSPicSet?
    ensures Writes(Apply(d, c).value) == Some(ws + Intended(c))
  {
    var v := 0x5A01_0000 + c.picid;
    PicSetWordBytes(c.picid);
    WritesAfterValue(d, PicSet(d, c.picid), PicSetRegister, 4, v, ws);
    assert Intended(c) == [WriteCmd(PicSetRegister, BigEndian(v, 4))];
  }

  /** Icon id: one write of the id at the variable. */
  lemma SetIconIDWrites(d: Display, c: Command, ws: seq<WriteCmd>)
    requires Writes(d) == Some(ws) && c.SetIconID?
    ensures Writes(Apply(d, c).value) == Some(ws + Intended(c))
  {
    WritesAfterValue(d, VarIconSetID(d, c.vp, c.id), c.vp, 2, c.id, ws);
  }

  /** Artistic-text integer: one write of its 2-byte two's-complement pattern. */
  lemma SetArtInt16Writes(d: Display, c: Command, ws: seq<WriteCmd>)
    requires Writes(d) == Some(ws) && c.SetArtInt16?
    ensures Writes(Apply(d, c).value) == Some(ws + Intended(c))
  {
    WritesAfterValue(d, ArtVarSetInt16(d, c.vp, c.v16), c.vp, 2, ToUnsigned(c.v16, 2), ws);
  }

  /** ICON0: one write of the icon id to the descriptor field. */
  lemma SetArtIcon0Writes(d: Display, c: Command, ws: seq<WriteCmd>)
    requires Writes(d) == Some(ws) && c.SetArtIcon0?
    ensures Writes(Apply(d, c).value) == Some(ws + Intended(c))
  {
    WritesAfterValue(d, ArtVarSetICON0(d, c.sp, c.iconId), FieldAddress(c.sp, IconZeroOffset), 2, c.iconId, ws);
  }

  /** Icon angle: one write of the angle at the variable. */
  lemma SetIconAngleWrites(d: Display, c: Command, ws: seq<WriteCmd>)
    requires Writes(d) == Some(ws) && c.SetIconAngle?
    ensures Writes(Apply(d, c).value) == Some(ws + Intended(c))
  {
    WritesAfterValue(d, RatIconSetAngle(d, c.vp, c.angle), c.vp, 2, c.angle, ws);
  }

  /** 16-bit data: one write of its two's-complement pattern. */
  lemma SetDataInt16Writes(d: Display, c: Command, ws: seq<WriteCmd>)
    requires Writes(d) == Some(ws) && c.SetDataInt16?
    ensures Writes(Apply(d, c).value) == Some(ws + Intended(c))
  {
    WritesAfterValue(d, DataVarSetInt16(d, c.vp, c.v16), c.vp, 2, ToUnsigned(c.v16, 2), ws);
  }

  /** 32-bit data: one write of its two's-complement pattern. */
  lemma SetDataInt32Writes(d: Display, c: Command, ws: seq<WriteCmd>)
    requires Writes(d) == Some(ws) && c.SetDataInt32?
    ensures Writes(Apply(d, c).value) == Some(ws + Intended(c))
  {
    WritesAfterValue(d, DataVarSetInt32(d, c.vp, c.v32), c.vp, 4, ToUnsigned(c.v32, 4), ws);
  }

  /** 64-bit data: one write of its two's-complement pattern. */
  lemma SetDataInt64Writes(d: Display, c: Command, ws: seq<WriteCmd>)
    requires Writes(d) == Some(ws) && c.SetDataInt64?
    ensures Writes(Apply(d, c).value) == Some(ws + Intended(c))
  {
    WritesAfterValue(d, DataVarSetInt64(d, c.vp, c.v64), c.vp, 8, ToUnsigned(c.v64, 8), ws);
  }

  /** Float: one write of its bit pattern in reverse memory order. */
  lemma SetDataFloatWrites(d: Display, c: Command, ws: seq<WriteCmd>)
    requires Writes(d) == Some(ws) && c.SetDataFloat?
    ensures Writes(Apply(d, c).value) == Some(ws + Intended(c))
  {
    WritesAfterNative(d, DataVarSetFloat(d, c.vp, c.f32), c.vp, c.f32, ws);
  }

  /** Double: one write of its bit pattern in reverse memory order. */
  lemma SetDataDoubleWrites(d: Display, c: Command, ws: seq<WriteCmd>)
    requires Writes(d) == Some(ws) && c.SetDataDouble?
    ensures Writes(Apply(d, c).value) == Some(ws + Intended(c))
  {
    WritesAfterNative(d, DataVarSetDouble(d, c.vp, c.f64), c.vp, c.f64, ws);
  }

  /** Text colour: one write of the colour to the descriptor field. */
  lemma SetTextColorWrites(d: Display, c: Command, ws: seq<WriteCmd>)
    requires Writes(d) == Some(ws) && c.SetTextColor?
    ensures Writes(Apply(d, c).value) == Some(ws + Intended(c))
  {
    WritesAfterValue(d, TextDisplaySetColor(d, c.sp, c.color), FieldAddress(c.sp, TextColorOffset), 2, c.color, ws);
  }

  /** Font size: one write of the size to the descriptor field. */
  lemma SetTextFontDotsWrites(d: Display, c: Command, ws: seq<WriteCmd>)
    requires Writes(d) == Some(ws) && c.SetTextFontDots?
    ensures Writes(Apply(d, c).value) == Some(ws + Intended(c))
  {
    WritesAfterValue(d, TextDisplaySetFontDots(d, c.sp, c.fontDots), FieldAddress(c.sp, FontDotsOffset), 2, c.fontDots, ws);
  }

  /** Buzzer: one write of the whole 8 ms ticks to the buzzer register. */
  lemma BuzzWrites(d: Display, c: Command, ws: seq<WriteCmd>)
    requires Writes(d) == Some(ws) && c.Buzz?
    ensures Writes(Apply(d, c).value) == Some(ws + Intended(c))
  {
    WritesAfterValue(d, BuzzerSet(d, c.ms), BuzzerRegister, 2, BuzzerTicks(c.ms), ws);
  }

  /** Each accepted command makes the display perform exactly its intended writes. */
  lemma ApplyWrites(d: Display, c: Command, ws: seq<WriteCmd>)
    requires Writes(d) == Some(ws) && !TooLong(c)
    ensures Writes(Apply(d, c).value) == Some(ws + Intended(c))
  {
    if c.DGUSReset? {
      ResetWrites(d, c, ws);
    } else if c.ShowText? {
      TextWrites(d, c, ws);
    } else if c.DGUSPicSet? {
      DGUSPicSetWrites(d, c, ws);
    } else if c.SetIconID? {
      SetIconIDWrites(d, c, ws);
    } else if c.SetArtInt16? {
      SetArtInt16Writes(d, c, ws);
    } else if c.SetArtIcon0? {
      SetArtIcon0Writes(d, c, ws);
    } else if c.SetIconAngle? {
      SetIconAngleWrites(d, c, ws);
    } else if c.SetDataInt16? {
      SetDataInt16Writes(d, c, ws);
    } else if c.SetDataInt32? {
      SetDataInt32Writes(d, c, ws);
    } else if c.SetDataInt64? {
      SetDataInt64Writes(d, c, ws);
    } else if c.SetDataFloat? {
      SetDataFloatWrites(d, c, ws);
    } else if c.SetDataDouble? {
      SetDataDoubleWrites(d, c, ws);
    } else if c.SetTextColor? {
      SetTextColorWrites(d, c, ws);
    } else if c.SetTextFontDots? {
      SetTextFontDotsWrites(d, c, ws);
    } else {
      BuzzWrites(d, c, ws);
    }
  }

  /** Concatenation regroups freely; stated once so the induction step stays small. */
  lemma AppendAssoc<T>(a: seq<T>, b: seq<T>, c: seq<T>)
    ensures (a + b) + c == a + (b + c)
  {
  }

  /**
   Whatever the application does through the driver, the display parses the
   serial stream as exactly the intended writes of the commands, in order.
   */
  lemma {:induction false} RunWrites(d: Display, cs: seq<Command>, ws: seq<WriteCmd>)
    requires Writes(d) == Some(ws) && Run(d, cs).Success?
    ensures Writes(Run(d, cs).value) == Some(ws + IntendedAll(cs))
    decreases |cs|
  {
    if |cs| == 0 {
      assert ws + [] == ws;
    } else {
      assert !TooLong(cs[0]);
      var d1 := Apply(d, cs[0]).value;
      assert Run(d, cs) == Run(d1, cs[1..]);
      ApplyWrites(d, cs[0], ws);
      RunWrites(d1, cs[1..], ws + Intended(cs[0]));
      var first, later := Intended(cs[0]), IntendedAll(cs[1..]);
      assert IntendedAll(cs) == first + later;
      AppendAssoc(ws, first, later);
    }
  }

  /** From a freshly built handle, the display performs the intended writes and nothing else. */
  lemma RunFromInitial(cs: seq<Command>)
    requires Run(Initial, cs).Success?
    ensures Writes(Run(Initial, cs).value) == Some(IntendedAll(cs))
  {
    assert Writes(Initial) == Some([]);
    RunWrites(Initial, cs, []);
    assert [] + IntendedAll(cs) == IntendedAll(cs);
  }
}

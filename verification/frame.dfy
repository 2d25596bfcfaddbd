/**
 The DGUS write frame: `5A A5`, a length byte, the write opcode `82`, a
 big-endian variable address and the data, most significant byte first.

 `WriteFrame` is the builder of the driver; `DecodeWrite` and `ParseStream`
 are what the display makes of the bytes it receives, and serve as the
 builder's inverse.
 */
module Frame {
  import opened Wrappers
  import opened Bytes

  const FrameHead0: byte := 0x5A
  const FrameHead1: byte := 0xA5
  const WriteOpcode: byte := 0x82
  /** Header, length byte, opcode and address come before the data. */
  const HeaderSize: nat := 6
  /** A frame carries at most 249 data bytes, so that it fits in 255 bytes. */
  const MaxData: nat := 249

  /** One "write variable" request: store `data` starting at variable address `addr`. */
  datatype WriteCmd = WriteCmd(addr: uint16, data: seq<byte>)

  /** The six bytes before the data: magic, length byte, opcode, address high then low. */
  function Header(addr: uint16, lengthByte: byte): (h: seq<byte>)
    ensures |h| == HeaderSize
    ensures FromBigEndian(h[4..]) == addr
  {
    assert BigEndian(addr, 2) == [addr / 0x100, addr % 0x100];
    BigEndianRoundTrip(addr, 2);
    [FrameHead0, FrameHead1, lengthByte, WriteOpcode, addr / 0x100, addr % 0x100]
  }

  /**
   The frame builder: a frame of `size` bytes whose data is the native
   (little-endian) bytes of the value in reverse order. The display accepts
   every built frame as one write of those bytes, in wire order, to `addr`.
   */
  function WriteFrame(addr: uint16, native: seq<byte>, size: uint8): (tx: seq<byte>)
    requires HeaderSize <= size && |native| == size - HeaderSize
    ensures |tx| == size
    ensures DecodeWrite(tx) == Some(WriteCmd(addr, Reverse(native)))
  {
    DecodeHeaderData(addr, Reverse(native));
    Header(addr, size - 3) + Reverse(native)
  }

  /**
   The layout of every built frame: magic `5A A5`, length byte `size - 3`,
   opcode `82`, address high byte then low byte, then the native bytes from
   last to first.
   */
  lemma WriteFrameLayout(addr: uint16, native: seq<byte>, size: uint8)
    requires HeaderSize <= size && |native| == size - HeaderSize
    ensures var tx := WriteFrame(addr, native, size);
      && tx[0] == 0x5A && tx[1] == 0xA5 && tx[2] == size - 3 && tx[3] == 0x82
      && tx[4] == addr / 0x100 && tx[5] == addr % 0x100
      && forall i :: HeaderSize <= i < size ==> tx[i] == native[size - 1 - i]
  {
  }

  /**
   The builder's loop as written: the header, then data byte `i` taken from
   native offset `(size - 7) - i`.
   */
  method JoinDataFrames(addr: uint16, native: seq<byte>, size: uint8) returns (tx: seq<byte>)
    requires HeaderSize <= size && |native| == size - HeaderSize
    ensures tx == WriteFrame(addr, native, size)
  {
    tx := [0x5A, 0xA5, size - 3, 0x82, addr / 0x100, addr % 0x100];
    var i := 0;
    while i < size - 6
      invariant 0 <= i <= size - 6
      invariant |tx| == 6 + i
      invariant tx[..6] == Header(addr, size - 3)
      invariant forall k :: 6 <= k < 6 + i ==> tx[k] == native[size - 1 - k]
    {
      tx := tx + [native[(size - 7) - i]];
      i := i + 1;
    }
    var want := WriteFrame(addr, native, size);
    assert tx[..6] == want[..6];
    assert forall k :: 6 <= k < size ==> tx[k] == want[k];
  }

  /**
   What the display accepts as a write frame: the magic, a length byte that
   counts every byte after it, the write opcode, and at most `MaxData` data bytes.
   */
  function DecodeWrite(f: seq<byte>): Option<WriteCmd>
  {
    if HeaderSize <= |f| <= HeaderSize + MaxData
       && f[0] == FrameHead0 && f[1] == FrameHead1 && f[2] == |f| - 3 && f[3] == WriteOpcode
    then Some(WriteCmd(f[4] as int * 0x100 + f[5], f[6..]))
    else None
  }

  /** A header whose length byte counts the data, followed by that data, is one write. */
  lemma DecodeHeaderData(addr: uint16, data: seq<byte>)
    requires |data| <= MaxData
    ensures DecodeWrite(Header(addr, |data| + 3) + data) == Some(WriteCmd(addr, data))
  {
    var h := Header(addr, |data| + 3);
    assert (h + data)[HeaderSize..] == data;
  }

  /**
   Conversely, every frame the display accepts is the builder's output for the
   native bytes obtained by reversing its data.
   */
  lemma WriteFrameOfDecoded(f: seq<byte>)
    requires DecodeWrite(f).Some?
    ensures |f| <= 0xFF
    ensures var w := DecodeWrite(f).value;
      |w.data| == |f| - HeaderSize && WriteFrame(w.addr, Reverse(w.data), |f|) == f
  {
    var w := DecodeWrite(f).value;
    ReverseInvolutive(w.data);
    assert w.addr / 0x100 == f[4] && w.addr % 0x100 == f[5];
    assert Header(w.addr, |f| - 3) == f[..6];
    assert f == f[..6] + w.data;
  }

  /**
   The byte stream a display parses: back-to-back write frames, each one as
   long as its length byte says.
   */
  function ParseStream(s: seq<byte>): Option<seq<WriteCmd>>
    decreases |s|
  {
    if |s| == 0 then Some([])
    else if |s| < 3 || |s| < s[2] as int + 3 then None
    else
      var n := s[2] as int + 3;
      var head := DecodeWrite(s[..n]);
      var tail := ParseStream(s[n..]);
      if head.None? || tail.None? then None else Some([head.value] + tail.value)
  }

  /** An accepted frame at the head of the stream is parsed first, then the rest. */
  lemma ParseStep(f: seq<byte>, rest: seq<byte>, ws: seq<WriteCmd>)
    requires DecodeWrite(f).Some? && ParseStream(rest) == Some(ws)
    ensures ParseStream(f + rest) == Some([DecodeWrite(f).value] + ws)
  {
    var s := f + rest;
    assert s[2] as int + 3 == |f|;
    assert s[..|f|] == f;
    assert s[|f|..] == rest;
  }

  /** A single accepted frame is parsed as exactly its one write. */
  lemma ParseSingle(f: seq<byte>)
    requires DecodeWrite(f).Some?
    ensures ParseStream(f) == Some([DecodeWrite(f).value])
  {
    assert ParseStream([]) == Some([]);
    ParseStep(f, [], []);
    assert f + [] == f;
    assert [DecodeWrite(f).value] + [] == [DecodeWrite(f).value];
  }

  /** A non-empty stream that parses starts with one accepted frame. */
  lemma ParseUncons(s: seq<byte>) returns (head: seq<byte>, tail: seq<byte>, rest: seq<WriteCmd>)
    requires |s| > 0 && ParseStream(s).Some?
    ensures s == head + tail && |tail| < |s|
    ensures DecodeWrite(head).Some? && ParseStream(tail) == Some(rest)
    ensures ParseStream(s).value == [DecodeWrite(head).value] + rest
  {
    var n := s[2] as int + 3;
    head, tail := s[..n], s[n..];
    rest := ParseStream(tail).value;
  }

  /** One accepted frame in front of a parsed stream adds its write in front. */
  lemma ParseFront(head: seq<byte>, tail: seq<byte>, b: seq<byte>, rest: seq<WriteCmd>, wb: seq<WriteCmd>)
    requires DecodeWrite(head).Some? && ParseStream(tail + b) == Some(rest + wb)
    ensures ParseStream((head + tail) + b) == Some(([DecodeWrite(head).value] + rest) + wb)
  {
    ParseStep(head, tail + b, rest + wb);
    assert (head + tail) + b == head + (tail + b);
    assert ([DecodeWrite(head).value] + rest) + wb == [DecodeWrite(head).value] + (rest + wb);
  }

  /** Nothing in front of a parsed stream changes nothing. */
  lemma ParseEmptyFront(a: seq<byte>, b: seq<byte>, wa: seq<WriteCmd>, wb: seq<WriteCmd>)
    requires |a| == 0 && ParseStream(a) == Some(wa) && ParseStream(b) == Some(wb)
    ensures ParseStream(a + b) == Some(wa + wb)
  {
    assert ParseStream(a) == Some([]);
    assert a + b == b && wa + wb == wb;
  }

  /** Frames sent back to back are parsed as the writes of each part, in order. */
  lemma {:induction false} ParseConcat(a: seq<byte>, b: seq<byte>, wa: seq<WriteCmd>, wb: seq<WriteCmd>)
    requires ParseStream(a) == Some(wa) && ParseStream(b) == Some(wb)
    ensures ParseStream(a + b) == Some(wa + wb)
    decreases |a|
  {
    if |a| == 0 {
      ParseEmptyFront(a, b, wa, wb);
    } else {
      var head, tail, rest := ParseUncons(a);
      ParseConcat(tail, b, rest, wb);
      ParseFront(head, tail, b, rest, wb);
    }
  }
}

/** The frame encoder: a received CAN frame rendered as one slcan line. */
module Encoder {
  import opened Hex
  import opened SlcanTypes

  /** The type character: 't' or 'r', shifted to upper case (minus 32) for an extended identifier. */
  function TypeChar(rtr: Rtr, ide: Ide): (c: byte)
    ensures rtr == RtrData && ide == IdStd ==> c == 't' as int
    ensures rtr == RtrRemote && ide == IdStd ==> c == 'r' as int
    ensures rtr == RtrData && ide == IdExt ==> c == 'T' as int
    ensures rtr == RtrRemote && ide == IdExt ==> c == 'R' as int
  {
    var lower: byte := if rtr == RtrData then 't' as int else 'r' as int;
    if ide == IdExt then lower - 32 else lower
  }

  /** The nibbles the encoder writes after the type character: identifier, DLC, then each data byte. */
  function BodyNibbles(h: Header, d: seq<byte>): (s: seq<nibble>)
    requires h.dlc <= 8
    ensures |s| == IdLen(h.ide) + 1 + 2 * |d|
  {
    Nibbles(FrameId(h), IdLen(h.ide)) + [h.dlc] + DataNibbles(d)
  }

  /** The slcan line of a frame with data d, terminator included. */
  function EncodeLine(h: Header, d: seq<byte>): (line: seq<byte>)
    requires h.dlc <= 8
    ensures |line| == IdLen(h.ide) + 2 * |d| + 3
    ensures line[0] == TypeChar(h.rtr, h.ide) && line[|line| - 1] == CR
  {
    [TypeChar(h.rtr, h.ide)] + HexString(BodyNibbles(h, d)) + [CR]
  }

  /** The encoder's outcome for a header and its data buffer: the line, or why the frame cannot be rendered. */
  function EncodeFrame(h: Header, data: seq<byte>): (r: Result<seq<byte>>)
    requires h.dlc <= 8 ==> h.dlc <= |data|
    ensures r.Ok? <==> Encodable(h)
    ensures h.dlc > 8 ==> r == Err(InvalidDlc)
    ensures r.Ok? ==> |r.value| <= SLCAN_MTU
  {
    if h.dlc > 8 then Err(InvalidDlc)
    else if FrameId(h) >= Pow16(IdLen(h.ide)) then Err(IdentifierOutOfRange)
    else Ok(EncodeLine(h, data[..h.dlc]))
  }

  /** The line is 1 + id_len + 1 + 2 * DLC + 1 bytes long, starts with the type character and ends with CR. */
  lemma EncodeLineShape(h: Header, d: seq<byte>)
    requires h.dlc <= 8
    ensures var line := EncodeLine(h, d);
      && |line| == 1 + IdLen(h.ide) + 1 + 2 * |d| + 1
      && line[|line| - 1] == CR
      && line[0] == TypeChar(h.rtr, h.ide)
      && (forall k :: 1 <= k < |line| - 1 ==> IsUpperHexDigit(line[k]))
  {
  }

  /** Identifier digit i is nibble (id >> 4 * (id_len - 1 - i)) & 0xF of the selected identifier. */
  lemma EncodeLineIdDigit(h: Header, d: seq<byte>, i: nat)
    requires h.dlc <= 8 && i < IdLen(h.ide)
    ensures EncodeLine(h, d)[1 + i] == HexDigit((FrameId(h) / Pow16(IdLen(h.ide) - 1 - i)) % 16)
  {
    NibbleAt(FrameId(h), IdLen(h.ide), i);
  }

  /** Byte 1 + m of the line is the hex digit of body nibble m. */
  lemma EncodeLineAt(h: Header, d: seq<byte>, m: nat)
    requires h.dlc <= 8 && m < IdLen(h.ide) + 1 + 2 * |d|
    ensures EncodeLine(h, d)[1 + m] == HexDigit(BodyNibbles(h, d)[m])
  {
  }

  /** A line holding the type character, the hex digit of every body nibble and CR, in that order, is EncodeLine. */
  lemma EncodeLineFromDigits(line: seq<byte>, h: Header, d: seq<byte>)
    requires h.dlc <= 8
    requires |line| == |BodyNibbles(h, d)| + 2
    requires line[0] == TypeChar(h.rtr, h.ide) && line[|line| - 1] == CR
    requires forall k :: 1 <= k < |line| - 1 ==> line[k] == HexDigit(BodyNibbles(h, d)[k - 1])
    ensures line == EncodeLine(h, d)
  {
    forall k | 1 <= k < |line| - 1
      ensures line[k] == EncodeLine(h, d)[k]
    {
      EncodeLineAt(h, d, k - 1);
    }
  }

  /** Data byte j of the line: its high nibble's digit, then its low nibble's digit, after the DLC digit. */
  lemma EncodeLineDataByte(h: Header, d: seq<byte>, j: nat)
    requires h.dlc <= 8 && j < |d|
    ensures var n := IdLen(h.ide); var line := EncodeLine(h, d);
      && line[2 + n + 2 * j] == HexDigit(d[j] / 16)
      && line[3 + n + 2 * j] == HexDigit(d[j] % 16)
  {
    var n := IdLen(h.ide);
    var s := BodyNibbles(h, d);
    DataNibblesAt(d, j);
    assert s[n + 1 + 2 * j] == d[j] / 16;
    assert s[n + 2 + 2 * j] == d[j] % 16;
    EncodeLineAt(h, d, n + 1 + 2 * j);
    EncodeLineAt(h, d, n + 2 + 2 * j);
  }

  /**
   * After the identifier comes the DLC digit, for every frame, then per data byte the digit of its high nibble and
   * the digit of its low nibble.
   */
  lemma EncodeLineDataDigits(h: Header, d: seq<byte>)
    requires h.dlc <= 8
    ensures var n := IdLen(h.ide); var line := EncodeLine(h, d);
      && line[1 + n] == HexDigit(h.dlc)
      && forall j :: 0 <= j < |d| ==>
           line[2 + n + 2 * j] == HexDigit(d[j] / 16) && line[3 + n + 2 * j] == HexDigit(d[j] % 16)
  {
    var n := IdLen(h.ide);
    assert BodyNibbles(h, d)[n] == h.dlc;
    EncodeLineAt(h, d, n);
    forall j | 0 <= j < |d|
      ensures EncodeLine(h, d)[2 + n + 2 * j] == HexDigit(d[j] / 16)
      ensures EncodeLine(h, d)[3 + n + 2 * j] == HexDigit(d[j] % 16)
    {
      EncodeLineDataByte(h, d, j);
    }
  }

  /** The ASCII pass of the encoder: each of buf[1..end), a nibble, is replaced by its hex digit. */
  method AsciiPass(buf: array<byte>, end: nat)
    requires 1 <= end <= buf.Length
    requires forall k :: 1 <= k < end ==> buf[k] < 16
    modifies buf
    ensures forall k :: 1 <= k < end ==> buf[k] == HexDigit(old(buf[k]))
    ensures forall k :: 0 <= k < buf.Length && !(1 <= k < end) ==> buf[k] == old(buf[k])
  {
    for j := 1 to end
      invariant forall k :: 1 <= k < j ==> buf[k] == HexDigit(old(buf[k]))
      invariant forall k :: 0 <= k < buf.Length && !(1 <= k < j) ==> buf[k] == old(buf[k])
    {
      if buf[j] < 0xA {
        buf[j] := buf[j] + 0x30;
      } else {
        buf[j] := buf[j] + 0x37;
      }
    }
  }

  /**
   * The first pass of the encoder: the type character at index 0, then the identifier, DLC and data nibbles as raw
   * values 0-15 from index 1 on; returns the index after the last nibble. The identifier is masked to its digits.
   */
  method WriteNibbles(buf: array<byte>, h: Header, frameData: array<byte>) returns (msgIdx: nat)
    requires SLCAN_MTU <= buf.Length
    requires h.dlc <= 8 && h.dlc <= frameData.Length
    requires buf != frameData
    modifies buf
    ensures msgIdx == 1 + |BodyNibbles(h, frameData[..h.dlc])| && msgIdx < SLCAN_MTU
    ensures buf[0] == TypeChar(h.rtr, h.ide)
    ensures forall k :: 1 <= k < msgIdx ==> buf[k] == BodyNibbles(h, frameData[..h.dlc])[k - 1]
    ensures forall k :: msgIdx <= k < buf.Length ==> buf[k] == old(buf[k])
  {
    ghost var d := frameData[..h.dlc];
    ghost var body := BodyNibbles(h, d);
    var idLen := IdLen(h.ide);
    var canId := FrameId(h);

    // Type character
    buf[0] := TypeChar(h.rtr, h.ide);
    msgIdx := 1;

    // Identifier, most significant nibble first
    for i := 0 to idLen
      invariant buf[0] == TypeChar(h.rtr, h.ide)
      invariant forall k :: 1 <= k < 1 + i ==> buf[k] == body[k - 1]
      invariant forall k :: 1 + i <= k < buf.Length ==> buf[k] == old(buf[k])
    {
      buf[msgIdx + i] := ShiftedNibble(canId, idLen, i);
    }
    msgIdx := msgIdx + idLen;

    // DLC
    buf[msgIdx] := h.dlc;
    msgIdx := msgIdx + 1;

    // Data bytes, high nibble then low nibble
    for j := 0 to h.dlc
      invariant msgIdx == 2 + idLen + 2 * j
      invariant buf[0] == TypeChar(h.rtr, h.ide)
      invariant forall k :: 1 <= k < msgIdx ==> buf[k] == body[k - 1]
      invariant forall k :: msgIdx <= k < buf.Length ==> buf[k] == old(buf[k])
    {
      var b := frameData[j];
      assert b == d[j];
      DataNibblesAt(d, j);
      buf[msgIdx] := b / 16;
      buf[msgIdx + 1] := b % 16;
      msgIdx := msgIdx + 2;
    }
  }

  /**
   * slcan_parse_frame: clears the first SLCAN_MTU bytes of buf, writes the type character and the body nibbles,
   * converts bytes 1.. to ASCII hex, appends CR and returns the line length.
   * A frame that is not Encodable is refused before buf is touched.
   */
  method ParseFrame(buf: array<byte>, h: Header, frameData: array<byte>) returns (r: Result<nat>)
    requires SLCAN_MTU <= buf.Length
    requires h.dlc <= 8 ==> h.dlc <= frameData.Length
    requires buf != frameData
    modifies buf
    ensures r.Ok? ==> r.value < SLCAN_MTU
    ensures r.Err? ==> EncodeFrame(h, frameData[..]) == Err(r.error) && unchanged(buf)
    ensures r.Ok? ==> EncodeFrame(h, frameData[..]) == Ok(buf[..r.value])
    ensures r.Ok? ==> forall k :: r.value <= k < SLCAN_MTU ==> buf[k] == 0
    ensures r.Ok? ==> forall k :: SLCAN_MTU <= k < buf.Length ==> buf[k] == old(buf[k])
    ensures r.Ok? <==> Encodable(h)
  {
    if h.dlc > 8 {
      return Err(InvalidDlc);
    }
    if FrameId(h) >= Pow16(IdLen(h.ide)) {
      return Err(IdentifierOutOfRange);
    }
    ghost var d := frameData[..h.dlc];
    ghost var body := BodyNibbles(h, d);

    // Clear the buffer
    for j := 0 to SLCAN_MTU
      invariant forall k :: 0 <= k < j ==> buf[k] == 0
      invariant forall k :: SLCAN_MTU <= k < buf.Length ==> buf[k] == old(buf[k])
    {
      buf[j] := 0;
    }

    var msgIdx := WriteNibbles(buf, h, frameData);

    // Convert to ASCII from the second character to the end
    AsciiPass(buf, msgIdx);

    // Terminator
    buf[msgIdx] := CR;
    msgIdx := msgIdx + 1;

    EncodeLineFromDigits(buf[..msgIdx], h, d);
    return Ok(msgIdx);
  }
}

/** The encoder and the decoder are inverse to each other on transmit lines. */
module RoundTrip {
  import opened Hex
  import opened SlcanTypes
  import opened Encoder
  import opened Decoder

  /** The header as the decoder rebuilds it: the identifier field the IDE does not select is zero. */
  function DecodedHeader(h: Header): (g: Header)
    ensures g.rtr == h.rtr && g.ide == h.ide && g.dlc == h.dlc && FrameId(g) == FrameId(h)
    ensures h.ide == IdExt ==> g.stdId == 0
    ensures h.ide == IdStd ==> g.extId == 0
  {
    if h.ide == IdExt then h.(stdId := 0) else h.(extId := 0)
  }

  /** The command byte of an encoded line selects the frame's RTR and IDE again. */
  lemma DispatchTypeChar(rtr: Rtr, ide: Ide, body: seq<nibble>)
    ensures Dispatch(TypeChar(rtr, ide), body) == TransmitBody(rtr, ide, body)
  {
  }

  /** The transmit parse of the encoder's body nibbles gives back the frame. */
  lemma {:induction false} TransmitBodyOfEncoded(h: Header, d: seq<byte>)
    requires Encodable(h) && |d| == h.dlc
    ensures TransmitBody(h.rtr, h.ide, BodyNibbles(h, d)) == Ok(Transmit(DecodedHeader(h), d + Zeros(8 - h.dlc)))
  {
    var n := IdLen(h.ide);
    var body := BodyNibbles(h, d);
    assert body[..n] == Nibbles(FrameId(h), n);
    FromNibblesOfNibbles(FrameId(h), n);
    assert body[n] == h.dlc;
    assert body[n + 1 .. n + 1 + 2 * h.dlc] == DataNibbles(d);
    PackDataNibbles(d);
  }

  /**
   * Decoding an encoded frame, without its CR, as a T/t/R/r command yields the same RTR, IDE, identifier, DLC and
   * data bytes, the data padded with zeros to the decoder's 8-byte buffer.
   */
  lemma {:induction false} DecodeEncodedFrame(h: Header, d: seq<byte>)
    requires Encodable(h) && |d| == h.dlc
    ensures var line := EncodeLine(h, d);
      ParseCommand(line[..|line| - 1]) == Ok(Transmit(DecodedHeader(h), d + Zeros(8 - h.dlc)))
  {
    var body := BodyNibbles(h, d);
    var line := EncodeLine(h, d);
    var stripped := line[..|line| - 1];
    assert stripped == [TypeChar(h.rtr, h.ide)] + HexString(body);
    assert stripped[1..] == HexString(body);
    HexValuesOfHexString(body);
    assert ParseCommand(stripped) == Dispatch(TypeChar(h.rtr, h.ide), body);
    DispatchTypeChar(h.rtr, h.ide, body);
    TransmitBodyOfEncoded(h, d);
  }

  /** The whole encoder output, read back by the decoder with its terminator stripped, is a transmit command. */
  lemma EncodeFrameThenDecode(h: Header, data: seq<byte>)
    requires h.dlc <= 8 ==> h.dlc <= |data|
    requires EncodeFrame(h, data).Ok?
    ensures var line := EncodeFrame(h, data).value;
      ParseCommand(line[..|line| - 1]) == Ok(Transmit(DecodedHeader(h), data[..h.dlc] + Zeros(8 - h.dlc)))
  {
    DecodeEncodedFrame(h, data[..h.dlc]);
  }

  /** A line the decoder reads as a transmit command starts with the type character of the frame it yields. */
  lemma DispatchTransmit(cmd: byte, body: seq<nibble>)
    requires Dispatch(cmd, body).Ok? && Dispatch(cmd, body).value.Transmit?
    ensures var h := Dispatch(cmd, body).value.header;
      cmd == TypeChar(h.rtr, h.ide) && Dispatch(cmd, body) == TransmitBody(h.rtr, h.ide, body)
  {
  }

  /** Re-encoding the identifier, DLC and data bytes read from a body gives back the body's nibbles. */
  lemma {:induction false} BodyPartsRoundTrip(n: nat, dlc: nat, body: seq<nibble>)
    requires n <= |body| && |body| == n + 1 + 2 * dlc && body[n] == dlc
    ensures Nibbles(FromNibbles(body[..n]), n) + [dlc] + DataNibbles(PackBytes(body[n + 1 ..])) == body
  {
    NibblesOfFromNibbles(body[..n]);
    DataNibblesOfPack(body[n + 1 ..]);
    assert body == body[..n] + [dlc] + body[n + 1 ..];
  }

  /** A transmit body with nothing after its data is exactly the encoder's body nibbles for the decoded frame. */
  lemma {:induction false} BodyOfDecodedTransmit(rtr: Rtr, ide: Ide, body: seq<nibble>)
    requires TransmitBody(rtr, ide, body).Ok?
    requires |body| == IdLen(ide) + 1 + 2 * TransmitBody(rtr, ide, body).value.header.dlc
    ensures var c := TransmitBody(rtr, ide, body).value;
      BodyNibbles(c.header, c.data[..c.header.dlc]) == body
  {
    var n := IdLen(ide);
    var dlc: nat := body[n];
    var id := FromNibbles(body[..n]);
    var dataNibbles := body[n + 1 ..];
    assert body[n + 1 .. n + 1 + 2 * dlc] == dataNibbles;
    var h := Header(rtr, ide, if ide == IdExt then 0 else id, if ide == IdExt then id else 0, dlc);
    var data := PackBytes(dataNibbles) + Zeros(8 - dlc);
    assert TransmitBody(rtr, ide, body) == Ok(Transmit(h, data));
    assert data[..dlc] == PackBytes(dataNibbles);
    assert BodyNibbles(h, data[..dlc]) == Nibbles(id, n) + [dlc] + DataNibbles(PackBytes(dataNibbles));
    BodyPartsRoundTrip(n, dlc, body);
  }

  /**
   * Conversely, a transmit line in upper-case hex with no bytes after its data decodes to a frame that the encoder
   * renders as the same line followed by CR.
   */
  lemma {:induction false} EncodeDecodedLine(line: seq<byte>)
    requires |line| >= 1 && AllUpperHex(line[1..])
    requires ParseCommand(line).Ok? && ParseCommand(line).value.Transmit?
    requires var c := ParseCommand(line).value; |line| == 2 + IdLen(c.header.ide) + 2 * c.header.dlc
    ensures var c := ParseCommand(line).value;
      EncodeFrame(c.header, c.data) == Ok(line + [CR])
  {
    var c := ParseCommand(line).value;
    var h := c.header;
    HexStringOfHexValues(line[1..]);
    var body := HexValues(line[1..]);
    assert Dispatch(line[0], body) == Ok(c);
    DispatchTransmit(line[0], body);
    BodyOfDecodedTransmit(h.rtr, h.ide, body);
    assert line == [line[0]] + line[1..];
  }
}

/** Concrete lines of the protocol, each checked against the model. */
module Scenarios {
  import opened Hex
  import opened SlcanTypes
  import opened Encoder
  import opened Decoder
  import opened RoundTrip

  /** The bytes of an ASCII string. */
  function Ascii(s: string): (b: seq<byte>)
    requires forall i :: 0 <= i < |s| ==> s[i] as int < 0x100
    ensures |b| == |s| && forall i :: 0 <= i < |s| ==> b[i] == s[i] as int
  {
    seq(|s|, i requires 0 <= i < |s| => s[i] as int)
  }

  /** The bytes the encoder writes for the standard data frame 0x123 [AB CD]. */
  lemma StandardDataLine()
    ensures EncodeLine(Header(RtrData, IdStd, 0x123, 0, 2), [0xAB, 0xCD])
         == [0x74, 0x31, 0x32, 0x33, 0x32, 0x41, 0x42, 0x43, 0x44, 0x0D]
  {
    var h := Header(RtrData, IdStd, 0x123, 0, 2);
    var d: seq<byte> := [0xAB, 0xCD];
    assert Nibbles(0x123, 3) == [1, 2, 3];
    assert DataNibbles(d) == [0xA, 0xB, 0xC, 0xD];
    assert BodyNibbles(h, d) == [1, 2, 3, 2, 0xA, 0xB, 0xC, 0xD];
    assert HexString(BodyNibbles(h, d)) == [0x31, 0x32, 0x33, 0x32, 0x41, 0x42, 0x43, 0x44];
  }

  /** A standard data frame with identifier 0x123 and data AB CD is the line t1232ABCD followed by CR. */
  lemma EncodeStandardDataFrame()
    ensures EncodeFrame(Header(RtrData, IdStd, 0x123, 0, 2), [0xAB, 0xCD]) == Ok(Ascii("t1232ABCD\r"))
  {
    var d: seq<byte> := [0xAB, 0xCD];
    assert Ascii("t1232ABCD\r") == [0x74, 0x31, 0x32, 0x33, 0x32, 0x41, 0x42, 0x43, 0x44, 0x0D];
    assert Pow16(3) == 0x1000;
    assert d[..2] == d;
    StandardDataLine();
  }

  /** The eight nibbles of 0x1ABCDE, leading zeros included. */
  lemma ExtendedIdNibbles()
    ensures Nibbles(0x1ABCDE, 8) == [0, 0, 1, 0xA, 0xB, 0xC, 0xD, 0xE]
  {
    assert Nibbles(0, 1) == [0];
    assert Nibbles(0x1, 2) == [0, 1];
    assert Nibbles(0x1A, 3) == [0, 1, 0xA];
    assert Nibbles(0x1AB, 4) == [0, 1, 0xA, 0xB];
    assert Nibbles(0x1ABC, 5) == [0, 1, 0xA, 0xB, 0xC];
    assert Nibbles(0x1ABCD, 6) == [0, 1, 0xA, 0xB, 0xC, 0xD];
    assert Nibbles(0x1ABCDE, 7) == [0, 1, 0xA, 0xB, 0xC, 0xD, 0xE];
  }

  /** The bytes the encoder writes for the extended remote frame 0x1ABCDE with no data. */
  lemma ExtendedRemoteLine()
    ensures EncodeLine(Header(RtrRemote, IdExt, 0, 0x1ABCDE, 0), [])
         == [0x52, 0x30, 0x30, 0x31, 0x41, 0x42, 0x43, 0x44, 0x45, 0x30, 0x0D]
  {
    var h := Header(RtrRemote, IdExt, 0, 0x1ABCDE, 0);
    ExtendedIdNibbles();
    assert BodyNibbles(h, []) == [0, 0, 1, 0xA, 0xB, 0xC, 0xD, 0xE, 0];
    assert HexString(BodyNibbles(h, [])) == [0x30, 0x30, 0x31, 0x41, 0x42, 0x43, 0x44, 0x45, 0x30];
  }

  /** An extended remote frame always carries eight identifier digits: 0x1ABCDE is written 001ABCDE. */
  lemma EncodeExtendedRemoteFrame()
    ensures EncodeFrame(Header(RtrRemote, IdExt, 0, 0x1ABCDE, 0), []) == Ok(Ascii("R001ABCDE0\r"))
  {
    assert Ascii("R001ABCDE0\r") == [0x52, 0x30, 0x30, 0x31, 0x41, 0x42, 0x43, 0x44, 0x45, 0x30, 0x0D];
    assert Pow16(8) == 0x1_0000_0000;
    ExtendedRemoteLine();
  }

  /** t1232ABCD decodes to the standard data frame above, its data padded to eight bytes. */
  lemma DecodeStandardDataFrame()
    ensures ParseCommand(Ascii("t1232ABCD")) ==
      Ok(Transmit(Header(RtrData, IdStd, 0x123, 0, 2), [0xAB, 0xCD, 0, 0, 0, 0, 0, 0]))
  {
    var h := Header(RtrData, IdStd, 0x123, 0, 2);
    var d: seq<byte> := [0xAB, 0xCD];
    EncodeStandardDataFrame();
    assert Pow16(3) == 0x1000;
    assert d[..2] == d;
    var line := EncodeLine(h, d);
    assert line == Ascii("t1232ABCD\r");
    assert line[..|line| - 1] == Ascii("t1232ABCD");
    DecodeEncodedFrame(h, d);
    assert DecodedHeader(h) == h;
    assert d + Zeros(8 - 2) == [0xAB, 0xCD, 0, 0, 0, 0, 0, 0];
  }

  /** O opens the channel; S3 selects bitrate 3; S9 is past the table. */
  lemma DecodeControlCommands()
    ensures ParseCommand(Ascii("O")) == Ok(Open)
    ensures ParseCommand(Ascii("S3")) == Ok(SetBitrate(3))
    ensures ParseCommand(Ascii("S9")) == Err(InvalidBitrate)
  {
    assert HexValues(Ascii("S3")[1..]) == [3];
    assert HexValues(Ascii("S9")[1..]) == [9];
  }

  /** A line shorter than its DLC announces is truncated; a DLC digit of 9 is refused. */
  lemma DecodeBadTransmitLines()
    ensures ParseCommand(Ascii("t1232AB")) == Err(TruncatedInput)
    ensures ParseCommand(Ascii("t1239")) == Err(InvalidDlc)
  {
    assert HexValues(Ascii("t1232AB")[1..]) == [1, 2, 3, 2, 0xA, 0xB];
    assert HexValues(Ascii("t1239")[1..]) == [1, 2, 3, 9];
  }
}

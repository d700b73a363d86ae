/**
 * The first steps of the C's transmit parse as written: the unchecked conversion of each body byte, the byte read at
 * a position that may lie past len, and the uint32_t identifier accumulation. The DLC check and the data loop are
 * not repeated here; Decoder.ParseTransmit models them. Used to exhibit what the checked decoder
 * (Decoder.ParseCommand) refuses.
 */
module AsWritten {
  import opened Hex
  import opened SlcanTypes
  import opened Decoder

  /** The C's conversion of one body byte in uint8_t arithmetic, for any byte; it agrees with NibbleOf on hex digits. */
  function CNibble(c: byte): (v: byte)
    ensures IsHexDigit(c) ==> v == NibbleOf(c)
  {
    if c >= 'a' as int then (c - 'a' as int + 10) % 0x100
    else if c >= 'A' as int then (c - 'A' as int + 10) % 0x100
    else (c - '0' as int) % 0x100
  }

  /** The byte the C's transmit parse reads at buf[k]: converted inside the line buf[1..len), untouched outside it. */
  function CParsedByte(buf: seq<byte>, len: nat, k: nat): (v: byte)
    requires k < |buf|
    ensures 1 <= k < len ==> v == CNibble(buf[k])
    ensures !(1 <= k < len) ==> v == buf[k]
  {
    if 1 <= k < len then CNibble(buf[k]) else buf[k]
  }

  /** The C's identifier after reading buf[1..1+n), accumulated as identifier * 16 + byte in uint32_t. */
  function CIdentifier(buf: seq<byte>, len: nat, n: nat): (id: nat)
    requires n < |buf|
    ensures id < 0x1_0000_0000
  {
    if n == 0 then 0 else (CIdentifier(buf, len, n - 1) * 16 + CParsedByte(buf, len, n)) % 0x1_0000_0000
  }

  lemma {:induction false} Pow16Mono(m: nat, n: nat)
    requires m <= n
    ensures Pow16(m) <= Pow16(n)
  {
    if m < n {
      Pow16Mono(m, n - 1);
    }
  }

  lemma Pow16Eight()
    ensures Pow16(8) == 0x1_0000_0000
  {
    assert Pow16(4) == 0x1_0000;
  }

  /** One more hex digit inside the line: the C multiplies by 16, adds the digit's nibble and truncates to uint32_t. */
  lemma CIdentifierStep(buf: seq<byte>, len: nat, n: nat)
    requires 1 <= n < len <= |buf| && IsHexDigit(buf[n])
    ensures CIdentifier(buf, len, n) == (CIdentifier(buf, len, n - 1) * 16 + NibbleOf(buf[n])) % 0x1_0000_0000
  {
    assert CParsedByte(buf, len, n) == NibbleOf(buf[n]);
  }

  /** The nibble values of one more hex digit of the line. */
  lemma HexValuesSnoc(buf: seq<byte>, n: nat)
    requires 1 <= n < |buf| && AllHex(buf[1..1 + n])
    ensures AllHex(buf[1..n]) && IsHexDigit(buf[n])
    ensures HexValues(buf[1..1 + n]) == HexValues(buf[1..n]) + [NibbleOf(buf[n])]
  {
    assert buf[1..1 + n][n - 1] == buf[n];
    assert forall k :: 0 <= k < n - 1 ==> buf[1..n][k] == buf[1..1 + n][k];
  }

  /** The first n body bytes of a line whose body is all hex digits are hex digits. */
  lemma HexPrefix(buf: seq<byte>, len: nat, n: nat)
    requires n < len <= |buf|
    requires forall k :: 1 <= k < len ==> IsHexDigit(buf[k])
    ensures AllHex(buf[1..1 + n])
  {
    var body := buf[1..1 + n];
    forall k | 0 <= k < |body|
      ensures IsHexDigit(body[k])
    {
      assert body[k] == buf[k + 1];
    }
  }

  /**
   * On a line whose body is all hex digits, the C's uint32_t identifier over up to eight digits inside the line never
   * wraps and equals the identifier the checked decoder accumulates from the same digits.
   */
  lemma {:induction false} CIdentifierOfHexLine(buf: seq<byte>, len: nat, n: nat)
    requires n < len <= |buf| && n <= 8
    requires forall k :: 1 <= k < len ==> IsHexDigit(buf[k])
    ensures AllHex(buf[1..1 + n]) && CIdentifier(buf, len, n) == FromNibbles(HexValues(buf[1..1 + n]))
  {
    HexPrefix(buf, len, n);
    if n > 0 {
      CIdentifierOfHexLine(buf, len, n - 1);
      HexValuesSnoc(buf, n);
      var prev := HexValues(buf[1..n]);
      var d := NibbleOf(buf[n]);
      FromNibblesSnoc(prev, d);
      var y := FromNibbles(prev + [d]);
      assert y == CIdentifier(buf, len, n - 1) * 16 + d;
      CIdentifierStep(buf, len, n);
      assert |prev + [d]| == n;
      Pow16Mono(n, 8);
      Pow16Eight();
      assert y < 0x1_0000_0000;
      assert y % 0x1_0000_0000 == y;
      assert CIdentifier(buf, len, n) == y;
    }
  }

  /**
   * With len = 4 the line t123 stops after the identifier, yet the C takes its DLC from buf[4], outside the line:
   * two buffers holding the same line give DLC 0 and DLC 5. The checked decoder refuses the line as truncated.
   */
  lemma DlcReadPastLine()
    ensures var b0: seq<byte> := [0x74, 0x31, 0x32, 0x33, 0x00];
            var b5: seq<byte> := [0x74, 0x31, 0x32, 0x33, 0x05];
      && b0[..4] == b5[..4]
      && CParsedByte(b0, 4, 4) == 0 && CParsedByte(b5, 4, 4) == 5
      && ParseCommand(b0[..4]) == Err(TruncatedInput)
  {
    var line: seq<byte> := [0x74, 0x31, 0x32, 0x33];
    assert AllHex(line[1..]);
    assert |HexValues(line[1..])| == 3;
  }

  /** The C's identifier for t12G0 and for t1300: both 0x130. */
  lemma CIdentifierOfG()
    ensures CIdentifier([0x74, 0x31, 0x32, 0x47, 0x30], 5, 3) == 0x130
    ensures CIdentifier([0x74, 0x31, 0x33, 0x30, 0x30], 5, 3) == 0x130
  {
    assert CParsedByte([0x74, 0x31, 0x32, 0x47, 0x30], 5, 3) == 16;
  }

  /** The checked decoder reads t1300 as a frame with identifier 0x130. */
  lemma CheckedIdentifierOfGood()
    ensures var good: seq<byte> := [0x74, 0x31, 0x33, 0x30, 0x30];
      ParseCommand(good).Ok? && FrameId(ParseCommand(good).value.header) == 0x130
  {
    var good: seq<byte> := [0x74, 0x31, 0x33, 0x30, 0x30];
    var body := HexValues(good[1..]);
    assert body == [1, 3, 0, 0];
    assert body[..3] == [1, 3, 0];
    assert FromNibbles([1, 3, 0]) == 0x130;
  }

  /**
   * The C reads 'G' as nibble 16, so t12G0 yields identifier 0x130, the same as t1300. The checked decoder refuses
   * t12G0 and reads t1300 as identifier 0x130.
   */
  lemma NonHexDigitAccepted()
    ensures var bad: seq<byte> := [0x74, 0x31, 0x32, 0x47, 0x30];
            var good: seq<byte> := [0x74, 0x31, 0x33, 0x30, 0x30];
      && CIdentifier(bad, 5, 3) == 0x130 && CIdentifier(good, 5, 3) == 0x130
      && ParseCommand(bad) == Err(InvalidCharacter)
      && ParseCommand(good).Ok? && FrameId(ParseCommand(good).value.header) == 0x130
  {
    var bad: seq<byte> := [0x74, 0x31, 0x32, 0x47, 0x30];
    assert !IsHexDigit(bad[3]) && bad[1..][2] == bad[3];
    CIdentifierOfG();
    CheckedIdentifierOfGood();
  }
}

/** What the decoder promises about each kind of line, stated on the raw line. */
module DecoderProperties {
  import opened Hex
  import opened SlcanTypes
  import opened Encoder
  import opened Decoder

  /**
   * A line whose first byte is not a command byte is refused with status -1, whatever follows; with a hex body the
   * reason is the unknown command.
   */
  lemma UnknownCommandRefused(line: seq<byte>)
    requires |line| >= 1 && !IsCommandByte(line[0])
    ensures ParseCommand(line).Err? && StatusCode(ParseCommand(line)) == -1
    ensures AllHex(line[1..]) ==> ParseCommand(line) == Err(UnknownCommand)
  {
  }

  /** S selects the bitrate its first digit names exactly when that index is below CAN_BITRATE_INVALID. */
  lemma BitrateCommand(line: seq<byte>)
    requires |line| >= 2 && line[0] == 'S' as int && AllHex(line[1..])
    ensures NibbleOf(line[1]) < CAN_BITRATE_INVALID <==> ParseCommand(line) == Ok(SetBitrate(NibbleOf(line[1])))
    ensures NibbleOf(line[1]) >= CAN_BITRATE_INVALID <==> ParseCommand(line) == Err(InvalidBitrate)
  {
    assert HexValues(line[1..])[0] == NibbleOf(line[1]);
  }

  /** M and m select silent mode exactly when the first digit is 1, and normal mode otherwise. */
  lemma SilentModeCommand(line: seq<byte>)
    requires |line| >= 2 && (line[0] == 'M' as int || line[0] == 'm' as int) && AllHex(line[1..])
    ensures ParseCommand(line) == Ok(SetSilent(NibbleOf(line[1]) == 1))
  {
    assert HexValues(line[1..])[0] == NibbleOf(line[1]);
  }

  /** A and a enable automatic retransmission exactly when the first digit is 1, and disable it otherwise. */
  lemma AutoRetransmitCommand(line: seq<byte>)
    requires |line| >= 2 && (line[0] == 'A' as int || line[0] == 'a' as int) && AllHex(line[1..])
    ensures ParseCommand(line) == Ok(SetAutoRetransmit(NibbleOf(line[1]) == 1))
  {
    assert HexValues(line[1..])[0] == NibbleOf(line[1]);
  }

  /**
   * A transmit line is refused for its DLC exactly when it reaches the DLC digit and that digit is above 8, and is
   * refused as truncated exactly when it stops before the DLC digit or before the data that a valid DLC announces.
   */
  lemma TransmitLineErrors(line: seq<byte>, rtr: Rtr, ide: Ide)
    requires |line| >= 1 && line[0] == TypeChar(rtr, ide) && AllHex(line[1..])
    ensures var n := IdLen(ide);
      ParseCommand(line) == Err(InvalidDlc) <==> |line| >= n + 2 && NibbleOf(line[n + 1]) > 8
    ensures var n := IdLen(ide);
      ParseCommand(line) == Err(TruncatedInput) <==>
        |line| < n + 2 || (NibbleOf(line[n + 1]) <= 8 && |line| < n + 2 + 2 * NibbleOf(line[n + 1]))
  {
    var n := IdLen(ide);
    var body := HexValues(line[1..]);
    assert ParseCommand(line) == TransmitBody(rtr, ide, body);
    if |line| >= n + 2 {
      assert body[n] == NibbleOf(line[n + 1]);
    }
  }

  /** The transmit command bytes. */
  predicate IsTransmitByte(c: byte) {
    c == 'T' as int || c == 't' as int || c == 'R' as int || c == 'r' as int
  }

  /** The identifier digit count a transmit command byte selects: eight for T and R, three for t and r. */
  function TransmitIdLen(c: byte): (n: nat)
    ensures n == SLCAN_EXT_ID_LEN <==> c == 'T' as int || c == 'R' as int
  {
    IdLen(if c == 'T' as int || c == 'R' as int then IdExt else IdStd)
  }

  /**
   * The line holds every byte the C reads for its command: the digit after S, M, m, A or a, and for a transmit command
   * the identifier and DLC digits and, when the DLC is valid, its data digits.
   */
  predicate CReadsInside(line: seq<byte>)
    requires |line| >= 1 && AllHex(line[1..])
  {
    && ((line[0] == 'S' as int || line[0] == 'M' as int || line[0] == 'm' as int || line[0] == 'A' as int
         || line[0] == 'a' as int) ==> |line| >= 2)
    && (IsTransmitByte(line[0]) ==>
         var n := TransmitIdLen(line[0]);
         |line| >= n + 2 && (NibbleOf(line[1..][n]) <= 8 ==> |line| >= n + 2 + 2 * NibbleOf(line[1..][n])))
  }

  /**
   * The three places the C returns -1: an unknown command byte, an S index from CAN_BITRATE_INVALID on, and a
   * transmit DLC above 8.
   */
  predicate CRefuses(line: seq<byte>)
    requires |line| >= 1 && AllHex(line[1..]) && CReadsInside(line)
  {
    || !IsCommandByte(line[0])
    || (line[0] == 'S' as int && NibbleOf(line[1..][0]) >= CAN_BITRATE_INVALID)
    || (IsTransmitByte(line[0]) && NibbleOf(line[1..][TransmitIdLen(line[0])]) > 8)
  }

  /**
   * On a hex line that holds every byte the C reads, the status is -1 exactly at the C's three refusal sites and 0
   * everywhere else.
   */
  lemma StatusAtCReturnSites(line: seq<byte>)
    requires |line| >= 1 && AllHex(line[1..]) && CReadsInside(line)
    ensures StatusCode(ParseCommand(line)) == -1 <==> CRefuses(line)
    ensures StatusCode(ParseCommand(line)) == 0 <==> !CRefuses(line)
  {
    var body := HexValues(line[1..]);
    assert ParseCommand(line) == Dispatch(line[0], body);
    if IsTransmitByte(line[0]) {
      var n := TransmitIdLen(line[0]);
      assert body[n] == NibbleOf(line[1..][n]);
    } else if |line| >= 2 {
      assert body[0] == NibbleOf(line[1..][0]);
    }
  }
}

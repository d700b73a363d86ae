/** The command decoder: one slcan line, terminator stripped, turned into a command for the peripheral. */
module Decoder {
  import opened Hex
  import opened SlcanTypes

  /** The leading bytes the decoder recognises. */
  predicate IsCommandByte(c: byte) {
    c in {'O' as int, 'C' as int, 'S' as int, 'M' as int, 'm' as int, 'A' as int, 'a' as int, 'V' as int, 'E' as int,
          'T' as int, 't' as int, 'R' as int, 'r' as int}
  }

  /**
   * The transmit part of a line, given as nibbles after the command byte: id_len identifier digits (most significant
   * first), one DLC digit, then a high and a low digit per data byte. Bytes after the data are ignored.
   */
  function TransmitBody(rtr: Rtr, ide: Ide, body: seq<nibble>): (r: Result<Command>)
    ensures r.Ok? <==>
      var n := IdLen(ide);
      |body| >= n + 1 && body[n] <= 8 && |body| >= n + 1 + 2 * (body[n] as int)
    ensures r.Err? ==> r.error == TruncatedInput || r.error == InvalidDlc
    ensures r.Ok? ==> (
      && r.value.Transmit?
      && r.value.header.rtr == rtr && r.value.header.ide == ide
      && r.value.header.dlc == body[IdLen(ide)]
      && Encodable(r.value.header)
      && |r.value.data| == 8
      && forall k :: r.value.header.dlc <= k < 8 ==> r.value.data[k] == 0)
  {
    var n := IdLen(ide);
    if |body| < n + 1 then Err(TruncatedInput)
    else
      var dlc: nat := body[n];
      if dlc > 8 then Err(InvalidDlc)
      else if |body| < n + 1 + 2 * dlc then Err(TruncatedInput)
      else
        var id := FromNibbles(body[..n]);
        var header := Header(rtr, ide, if ide == IdExt then 0 else id, if ide == IdExt then id else 0, dlc);
        Ok(Transmit(header, PackBytes(body[n + 1 .. n + 1 + 2 * dlc]) + Zeros(8 - dlc)))
  }

  /** The command a line selects by its raw first byte, given the nibble values of the rest of the line. */
  function Dispatch(cmd: byte, body: seq<nibble>): (r: Result<Command>)
    ensures r == Err(UnknownCommand) <==> !IsCommandByte(cmd)
    ensures r != Err(InvalidCharacter)
  {
    if cmd == 'O' as int then Ok(Open)
    else if cmd == 'C' as int then Ok(Close)
    else if cmd == 'S' as int then
      if |body| == 0 then Err(TruncatedInput)
      else if body[0] >= CAN_BITRATE_INVALID then Err(InvalidBitrate)
      else Ok(SetBitrate(body[0]))
    else if cmd == 'M' as int || cmd == 'm' as int then
      if |body| == 0 then Err(TruncatedInput) else Ok(SetSilent(body[0] == 1))
    else if cmd == 'A' as int || cmd == 'a' as int then
      if |body| == 0 then Err(TruncatedInput) else Ok(SetAutoRetransmit(body[0] == 1))
    else if cmd == 'V' as int then Ok(QueryVersion)
    else if cmd == 'E' as int then Ok(QueryError)
    else if cmd == 'T' as int then TransmitBody(RtrData, IdExt, body)
    else if cmd == 't' as int then TransmitBody(RtrData, IdStd, body)
    else if cmd == 'r' as int then TransmitBody(RtrRemote, IdStd, body)
    else if cmd == 'R' as int then TransmitBody(RtrRemote, IdExt, body)
    else Err(UnknownCommand)
  }

  /** The decoder's outcome for a line: the raw first byte selects the command, the rest is read as hex digits. */
  function ParseCommand(line: seq<byte>): (r: Result<Command>)
    ensures |line| == 0 ==> r == Err(TruncatedInput)
    ensures |line| > 0 ==> (r == Err(InvalidCharacter) <==> !AllHex(line[1..]))
  {
    if |line| == 0 then Err(TruncatedInput)
    else if !AllHex(line[1..]) then Err(InvalidCharacter)
    else Dispatch(line[0], HexValues(line[1..]))
  }

  /**
   * The decoder's first pass: buf[1..len) is rewritten in place from ASCII hex to nibble values. It stops at the
   * first byte that is not a hex digit and reports whether the whole body was converted.
   */
  method HexPass(buf: array<byte>, len: nat) returns (ok: bool)
    requires 1 <= len <= buf.Length
    modifies buf
    ensures ok <==> AllHex(old(buf[1..len]))
    ensures ok ==> forall k :: 1 <= k < len ==> IsHexDigit(old(buf[k])) && buf[k] == NibbleOf(old(buf[k]))
    ensures forall k :: 1 <= k < len ==>
      buf[k] == old(buf[k]) || (IsHexDigit(old(buf[k])) && buf[k] == NibbleOf(old(buf[k])))
    ensures forall k :: 0 <= k < buf.Length && !(1 <= k < len) ==> buf[k] == old(buf[k])
  {
    ghost var line := buf[..len];
    var i := 1;
    while i < len
      invariant 1 <= i <= len
      invariant forall k :: 1 <= k < i ==> IsHexDigit(line[k]) && buf[k] == NibbleOf(line[k])
      invariant forall k :: 0 <= k < buf.Length && !(1 <= k < i) ==> buf[k] == old(buf[k])
    {
      var c := buf[i];
      if !IsHexDigit(c) {
        assert !AllHex(line[1..]) by {
          assert line[1..][i - 1] == c;
        }
        return false;
      }
      if c >= 'a' as int {
        buf[i] := c - 'a' as int + 10;
      } else if c >= 'A' as int {
        buf[i] := c - 'A' as int + 10;
      } else {
        buf[i] := c - '0' as int;
      }
      i := i + 1;
    }
    assert forall k :: 0 <= k < len - 1 ==> line[1..][k] == line[k + 1];
    return true;
  }

  /**
   * A body long enough for its DLC digit, with DLC at most 8 and enough data digits, transmits the identifier its
   * first id_len digits spell and the 8-byte buffer whose first DLC bytes are packed from the data digits.
   */
  lemma TransmitBodyOk(rtr: Rtr, ide: Ide, body: seq<nibble>, id: nat, data: seq<byte>)
    requires var n := IdLen(ide);
      && n + 1 <= |body| && body[n] <= 8 && n + 1 + 2 * (body[n] as int) <= |body|
      && id == FromNibbles(body[..n])
      && |data| == 8
      && (forall j :: 0 <= j < body[n] ==> data[j] == body[n + 1 + 2 * j] as int * 16 + body[n + 2 + 2 * j])
      && (forall j :: body[n] <= j < 8 ==> data[j] == 0)
    ensures TransmitBody(rtr, ide, body) ==
      Ok(Transmit(Header(rtr, ide, if ide == IdExt then 0 else id, if ide == IdExt then id else 0, body[IdLen(ide)]), data))
  {
    var n := IdLen(ide);
    var dlc: nat := body[n];
    assert data == PackBytes(body[n + 1 .. n + 1 + 2 * dlc]) + Zeros(8 - dlc);
  }

  /**
   * The transmit branch of slcan_parse_str: accumulates the identifier as identifier * 16 + nibble, reads the DLC,
   * refuses a DLC above 8, and rebuilds each data byte as (high << 4) + low into an 8-byte buffer.
   * buf[1..len) already holds the nibbles body.
   */
  method ParseTransmit(buf: array<byte>, len: nat, rtr: Rtr, ide: Ide, ghost body: seq<nibble>)
    returns (r: Result<Command>)
    requires 1 <= len <= buf.Length && |body| == len - 1
    requires forall k :: 1 <= k < len ==> buf[k] == body[k - 1]
    ensures r == TransmitBody(rtr, ide, body)
  {
    var idLen := IdLen(ide);
    if len < 2 + idLen {
      return Err(TruncatedInput);
    }
    var parseLoc := 1;

    // Identifier, most significant nibble first
    var identifier: nat := 0;
    for i := 0 to idLen
      invariant parseLoc == 1 + i
      invariant identifier == FromNibbles(body[..i])
    {
      assert body[..i + 1] == body[..i] + [body[i]];
      FromNibblesSnoc(body[..i], body[i]);
      identifier := identifier * 16 + buf[parseLoc];
      parseLoc := parseLoc + 1;
    }

    // DLC
    var dlcRaw := buf[parseLoc];
    parseLoc := parseLoc + 1;
    if dlcRaw > 8 {
      return Err(InvalidDlc);
    }
    if len < parseLoc + 2 * dlcRaw {
      return Err(TruncatedInput);
    }

    // Data bytes
    var frameData := new byte[8](_ => 0);
    for i := 0 to dlcRaw
      invariant parseLoc == 2 + idLen + 2 * i
      invariant forall j :: 0 <= j < i ==> frameData[j] == body[idLen + 1 + 2 * j] as int * 16 + body[idLen + 2 + 2 * j]
      invariant forall j :: i <= j < 8 ==> frameData[j] == 0
    {
      frameData[i] := buf[parseLoc] * 16 + buf[parseLoc + 1];
      parseLoc := parseLoc + 2;
    }

    var header := Header(rtr, ide, if ide == IdExt then 0 else identifier, if ide == IdExt then identifier else 0, dlcRaw);
    TransmitBodyOk(rtr, ide, body, identifier, frameData[..]);
    return Ok(Transmit(header, frameData[..]));
  }

  /**
   * slcan_parse_str: converts buf[1..len) from hex in place, then dispatches on the raw buf[0]. The peripheral call
   * the C makes is returned as a Command instead.
   */
  method ParseStr(buf: array<byte>, len: nat) returns (r: Result<Command>)
    requires len <= buf.Length
    modifies buf
    ensures r == ParseCommand(old(buf[..len]))
    ensures forall k :: 0 <= k < buf.Length && (k == 0 || len <= k) ==> buf[k] == old(buf[k])
    ensures r != Err(InvalidCharacter) ==>
      forall k :: 1 <= k < len ==> IsHexDigit(old(buf[k])) && buf[k] == NibbleOf(old(buf[k]))
    ensures forall k :: 1 <= k < len ==>
      buf[k] == old(buf[k]) || (IsHexDigit(old(buf[k])) && buf[k] == NibbleOf(old(buf[k])))
  {
    if len == 0 {
      return Err(TruncatedInput);
    }
    ghost var line := buf[..len];
    var ok := HexPass(buf, len);
    if !ok {
      return Err(InvalidCharacter);
    }
    ghost var body := HexValues(line[1..]);
    assert forall k :: 1 <= k < len ==> buf[k] == body[k - 1];

    var cmd := buf[0];
    if cmd == 'O' as int {
      r := Ok(Open);
    } else if cmd == 'C' as int {
      r := Ok(Close);
    } else if cmd == 'S' as int {
      if len < 2 {
        r := Err(TruncatedInput);
      } else if buf[1] >= CAN_BITRATE_INVALID {
        r := Err(InvalidBitrate);
      } else {
        r := Ok(SetBitrate(buf[1]));
      }
    } else if cmd == 'M' as int || cmd == 'm' as int {
      if len < 2 {
        r := Err(TruncatedInput);
      } else {
        r := Ok(SetSilent(buf[1] == 1));
      }
    } else if cmd == 'A' as int || cmd == 'a' as int {
      if len < 2 {
        r := Err(TruncatedInput);
      } else {
        r := Ok(SetAutoRetransmit(buf[1] == 1));
      }
    } else if cmd == 'V' as int {
      r := Ok(QueryVersion);
    } else if cmd == 'E' as int {
      r := Ok(QueryError);
    } else if cmd == 'T' as int {
      r := ParseTransmit(buf, len, RtrData, IdExt, body);
    } else if cmd == 't' as int {
      r := ParseTransmit(buf, len, RtrData, IdStd, body);
    } else if cmd == 'r' as int {
      r := ParseTransmit(buf, len, RtrRemote, IdStd, body);
    } else if cmd == 'R' as int {
      r := ParseTransmit(buf, len, RtrRemote, IdExt, body);
    } else {
      r := Err(UnknownCommand);
    }
  }
}

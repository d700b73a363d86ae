/** The values the slcan codec exchanges with the CAN peripheral and the serial line. */
module SlcanTypes {
  import opened Hex

  /** Identifier digits of a standard (11-bit) and an extended (29-bit) frame. */
  const SLCAN_STD_ID_LEN: nat := 3
  const SLCAN_EXT_ID_LEN: nat := 8
  /** Size of the encoder's output buffer; the longest line is 1 + 8 + 1 + 16 + 1 = 27 bytes. */
  const SLCAN_MTU: nat := 30
  /** One past the last entry of the peripheral's bitrate table. */
  const CAN_BITRATE_INVALID: nat := 9

  /** Carriage return, the slcan end of line. */
  const CR: byte := 0x0D

  /** The RTR field: data frame or remote (request) frame. */
  datatype Rtr = RtrData | RtrRemote

  /** The IDE field: standard or extended identifier. */
  datatype Ide = IdStd | IdExt

  /** The header fields of a received or transmitted frame that the codec reads or writes. */
  datatype Header = Header(rtr: Rtr, ide: Ide, stdId: nat, extId: nat, dlc: nat)

  /** What one command line asks of the peripheral. */
  datatype Command =
    | Open
    | Close
    | SetBitrate(index: nat)
    | SetSilent(silent: bool)
    | SetAutoRetransmit(on: bool)
    | QueryVersion
    | QueryError
    | Transmit(header: Header, data: seq<byte>)

  datatype Error =
    | InvalidCharacter
    | UnknownCommand
    | InvalidBitrate
    | InvalidDlc
    | TruncatedInput
    | IdentifierOutOfRange

  datatype Result<T> = Ok(value: T) | Err(error: Error)

  /** Number of identifier digits on the line. */
  function IdLen(ide: Ide): nat {
    if ide == IdExt then SLCAN_EXT_ID_LEN else SLCAN_STD_ID_LEN
  }

  /** The identifier field the IDE selects. */
  function FrameId(h: Header): nat {
    if h.ide == IdExt then h.extId else h.stdId
  }

  /** The frames the encoder renders without loss: at most 8 data bytes and an identifier that fits its digits. */
  predicate Encodable(h: Header) {
    h.dlc <= 8 && FrameId(h) < Pow16(IdLen(h.ide))
  }

  /** The unused tail of the decoder's 8-byte data buffer. */
  function Zeros(n: nat): (z: seq<byte>)
    ensures |z| == n && forall k :: 0 <= k < n ==> z[k] == 0
  {
    seq(n, _ => 0)
  }

  /** The status code the C functions return for a decoded command: 0 on success, -1 on every error. */
  function StatusCode(r: Result<Command>): (code: int)
    ensures code == 0 <==> r.Ok?
    ensures code == -1 <==> r.Err?
  {
    match r
    case Ok(_) => 0
    case Err(_) => -1
  }
}

/** IRdecodeMilesTag::decode: the scan over a captured buffer of pulse
    durations, first as a function that mirrors the loop step by step, then
    as the decoder object whose fields the scan updates in place. */
module MilesTagDecode {
  import opened MsbFold
  import opened MilesTagProtocol

  /** The capture buffer holds at least the decodeLength captured entries.
      When decodeLength is odd (and above 2), the last loop iteration reads
      the entry at index decodeLength, one past the captured data; the
      buffer must hold that entry too. */
  predicate CaptureFits(buf: seq<nat>, len: nat)
  {
    len <= |buf| && (len % 2 == 1 && len > 2 ==> len < |buf|)
  }

  /** Every index decode reads lies inside the buffer: the header mark at
      index 1 unless the header is ignored, then the (space, mark) pairs. */
  predicate Readable(buf: seq<nat>, len: nat, ignoreHeader: bool)
  {
    CaptureFits(buf, len) && (!ignoreHeader ==> 2 <= |buf|)
  }

  /** How many (space, mark) pairs the loop consumes: one per even offset
      from 2 up to, but not including, decodeLength. */
  function PairCount(len: nat): (n: nat)
    ensures len <= 2 + 2 * n
    ensures n == 0 || 2 * n < len
  {
    if len <= 2 then 0 else (len - 1) / 2
  }

  /** Pair k (k = 0, 1, ...) is the space at 2 + 2k and the mark at 3 + 2k. */
  predicate PairOk(m: Matcher, buf: seq<nat>, k: nat)
    requires 3 + 2 * k < |buf|
  {
    m(buf[2 + 2 * k], SPACE) && (m(buf[3 + 2 * k], ONE_MARK) || m(buf[3 + 2 * k], ZERO_MARK))
  }

  /** The bit pair k contributes: the one-bit test is made first, so a mark
      matching both nominal durations reads as 1. */
  function Bit(m: Matcher, buf: seq<nat>, k: nat): (b: nat)
    requires 3 + 2 * k < |buf|
    ensures b <= 1
  {
    if m(buf[3 + 2 * k], ONE_MARK) then 1 else 0
  }

  /** The bits of the first n pairs, in the order they are received. */
  function DecodedBits(m: Matcher, buf: seq<nat>, n: nat): (bs: seq<nat>)
    requires n == 0 || 2 * n + 1 < |buf|
    ensures |bs| == n && IsBits(bs)
  {
    seq(n, k requires 0 <= k < n => Bit(m, buf, k))
  }

  datatype Status = Decoded | Rejected(error: DecodeError)

  /** The decoder fields the scan leaves behind: where `offset` stopped and
      what `value` holds. */
  datatype ScanState = ScanState(status: Status, offset: nat, value: nat)

  /** The while loop, from an even offset at least 2 with accumulated value
      `value`. A space that does not match 600 stops the scan at its own
      offset; a mark matching neither 1200 nor 600 stops it at the mark's
      offset. */
  function Scan(m: Matcher, buf: seq<nat>, len: nat, offset: nat, value: nat): (s: ScanState)
    requires CaptureFits(buf, len) && 2 <= offset && offset % 2 == 0
    ensures offset <= s.offset
    decreases len - offset
  {
    if offset >= len then ScanState(Decoded, offset, value)
    else if !m(buf[offset], SPACE) then ScanState(Rejected(DataSpaceError(SPACE)), offset, value)
    else if m(buf[offset + 1], ONE_MARK) then Scan(m, buf, len, offset + 2, ShiftIn(value, 1))
    else if m(buf[offset + 1], ZERO_MARK) then Scan(m, buf, len, offset + 2, ShiftIn(value, 0))
    else ScanState(Rejected(DataMarkError(ZERO_MARK)), offset + 1, value)
  }

  /** Where the scan can stop: a completed scan that ran at least one step
      stops at the first even offset not below decodeLength, a rejected one
      stops inside the capture, and the value stays a uint32_t. */
  lemma {:induction false} ScanBounds(m: Matcher, buf: seq<nat>, len: nat, offset: nat, value: nat)
    requires CaptureFits(buf, len) && 2 <= offset && offset % 2 == 0
    ensures var s := Scan(m, buf, len, offset, value);
      && (value < UINT32_MODULUS ==> s.value < UINT32_MODULUS)
      && (s.status.Decoded? && offset < len ==> s.offset == 2 + 2 * PairCount(len))
      && (s.status.Rejected? ==> s.offset <= len && !s.status.error.HeaderMarkError?)
    decreases len - offset
  {
    if offset < len && m(buf[offset], SPACE) {
      if m(buf[offset + 1], ONE_MARK) {
        ScanBounds(m, buf, len, offset + 2, ShiftIn(value, 1));
      } else if m(buf[offset + 1], ZERO_MARK) {
        ScanBounds(m, buf, len, offset + 2, ShiftIn(value, 0));
      }
    }
  }

  /** A whole decode attempt: header check, then the scan from offset 2 with
      a reset value. A rejected header leaves `offset` where the previous
      attempt left it (priorOffset). */
  function DecodeState(m: Matcher, buf: seq<nat>, len: nat, ignoreHeader: bool, priorOffset: nat): (s: ScanState)
    requires Readable(buf, len, ignoreHeader)
    ensures s.value < UINT32_MODULUS
    ensures s.status.Decoded? ==> (ignoreHeader || m(buf[1], HEADER_MARK)) && s.offset == 2 + 2 * PairCount(len)
    ensures s.status.Rejected? && s.status.error.HeaderMarkError? <==> !ignoreHeader && !m(buf[1], HEADER_MARK)
    ensures s.status.Rejected? && s.status.error.HeaderMarkError? ==> s.offset == priorOffset && s.value == 0
    ensures s.status.Rejected? && !s.status.error.HeaderMarkError? ==> 2 <= s.offset <= len
  {
    ScanBounds(m, buf, len, 2, 0);
    if !ignoreHeader && !m(buf[1], HEADER_MARK) then
      ScanState(Rejected(HeaderMarkError(HEADER_MARK)), priorOffset, 0)
    else
      Scan(m, buf, len, 2, 0)
  }

  /** What a decode attempt reports: the packet, with bits = (offset-1)/2,
      or the error. */
  function DecodePacket(m: Matcher, buf: seq<nat>, len: nat, ignoreHeader: bool): (r: Result<Packet>)
    requires Readable(buf, len, ignoreHeader)
    ensures r.Ok? <==> DecodeState(m, buf, len, ignoreHeader, 0).status.Decoded?
    ensures r.Ok? ==> r.value.bits == PairCount(len) && r.value.protocolNum == MILESTAG && r.value.value < UINT32_MODULUS
    ensures r.Err? ==> r.error == DecodeState(m, buf, len, ignoreHeader, 0).status.error
  {
    var s := DecodeState(m, buf, len, ignoreHeader, 0);
    match s.status
    case Decoded => Ok(Packet(s.value, (s.offset - 1) / 2, MILESTAG))
    case Rejected(e) => Err(e)
  }

  /** Protocol number before any decode succeeds. */
  const UNKNOWN: nat := 0

  /** The decoder object: the fields IRdecodeMilesTag inherits and decode
      updates. */
  class MilesTagDecoder {
    var value: nat
    var bits: nat
    var protocolNum: nat
    var offset: nat
    var ignoreHeader: bool

    constructor (ignoreHeader: bool)
      ensures this.ignoreHeader == ignoreHeader
      ensures value == 0 && bits == 0 && protocolNum == UNKNOWN && offset == 0
    {
      this.ignoreHeader := ignoreHeader;
      value, bits, protocolNum, offset := 0, 0, UNKNOWN, 0;
    }

    /** resetDecoder: clears the decoded value and bit count. */
    method ResetDecoder()
      modifies this`value, this`bits
      ensures value == 0 && bits == 0
    {
      value, bits := 0, 0;
    }

    /** decode(): scans decodeBuffer[0..decodeLength) as a MilesTag v2
        frame. */
    method Decode(decodeBuffer: seq<nat>, decodeLength: nat, matches: Matcher) returns (ok: bool)
      requires Readable(decodeBuffer, decodeLength, ignoreHeader)
      modifies this`value, this`bits, this`offset, this`protocolNum
      ensures var s := DecodeState(matches, decodeBuffer, decodeLength, ignoreHeader, old(offset));
        ok == s.status.Decoded? && offset == s.offset && value == s.value
      ensures value < UINT32_MODULUS
      ensures ok ==> bits == PairCount(decodeLength) && protocolNum == MILESTAG
      ensures ok ==> DecodePacket(matches, decodeBuffer, decodeLength, ignoreHeader) == Ok(Packet(value, bits, protocolNum))
      ensures !ok ==> bits == 0 && protocolNum == old(protocolNum)
      ensures !ok ==>
        DecodePacket(matches, decodeBuffer, decodeLength, ignoreHeader)
          == Err(DecodeState(matches, decodeBuffer, decodeLength, ignoreHeader, old(offset)).status.error)
    {
      ResetDecoder();
      if !ignoreHeader {
        if !matches(decodeBuffer[1], HEADER_MARK) {
          return false;
        }
      }
      offset := 2;
      while offset < decodeLength
        invariant 2 <= offset <= 2 + 2 * PairCount(decodeLength) && offset % 2 == 0
        invariant value < UINT32_MODULUS && bits == 0 && protocolNum == old(protocolNum)
        invariant Scan(matches, decodeBuffer, decodeLength, offset, value)
               == Scan(matches, decodeBuffer, decodeLength, 2, 0)
        decreases decodeLength - offset
      {
        if !matches(decodeBuffer[offset], SPACE) {
          assert Scan(matches, decodeBuffer, decodeLength, offset, value).offset == offset;
          return false;
        }
        offset := offset + 1;
        if matches(decodeBuffer[offset], ONE_MARK) {
          value := ShiftIn(value, 1);
        } else if matches(decodeBuffer[offset], ZERO_MARK) {
          value := ShiftIn(value, 0);
        } else {
          assert Scan(matches, decodeBuffer, decodeLength, offset - 1, value).offset == offset;
          return false;
        }
        offset := offset + 1;
      }
      assert Scan(matches, decodeBuffer, decodeLength, offset, value).status.Decoded?;
      bits := (offset - 1) / 2;
      protocolNum := MILESTAG;
      ok := true;
    }
  }
}

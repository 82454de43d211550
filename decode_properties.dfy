/** What a MilesTag decode attempt accepts, what it rejects and where, which
    buffer entries it reads, and what value and bit count it reports. */
module MilesTagDecodeProperties {
  import opened MsbFold
  import opened MilesTagProtocol
  import opened MilesTagDecode

  /** The last buffer index a scan inspected: a rejected scan stopped on the
      entry it rejected; a completed one read up to just before its final
      offset. */
  function LastRead(s: ScanState): nat
    requires 2 <= s.offset
  {
    if s.status.Decoded? then s.offset - 1 else s.offset
  }

  lemma PairsInBuffer(buf: seq<nat>, len: nat)
    requires CaptureFits(buf, len)
    ensures PairCount(len) == 0 || 2 * PairCount(len) + 1 < |buf|
  {
  }

  /** Shifting pair i's bit into the truncated value of the first i bits
      gives the truncated value of the first i + 1 bits. */
  lemma ShiftInNextBit(m: Matcher, buf: seq<nat>, i: nat)
    requires 2 * i + 3 < |buf|
    ensures ShiftIn(MsbValue(DecodedBits(m, buf, i)) % UINT32_MODULUS, Bit(m, buf, i))
         == MsbValue(DecodedBits(m, buf, i + 1)) % UINT32_MODULUS
  {
    assert DecodedBits(m, buf, i + 1) == DecodedBits(m, buf, i) + [Bit(m, buf, i)];
    ShiftInKeepsLowBits(DecodedBits(m, buf, i), Bit(m, buf, i));
  }

  /** From pair i on, with the first i bits accumulated, the scan completes
      exactly when every remaining pair is well formed, and then stops at the
      first even offset past decodeLength holding the low 32 bits of the
      most-significant-first fold of all decoded bits. */
  lemma {:induction false} ScanCompletes(m: Matcher, buf: seq<nat>, len: nat, i: nat)
    requires CaptureFits(buf, len) && i <= PairCount(len)
    ensures PairCount(len) == 0 || 2 * PairCount(len) + 1 < |buf|
    ensures var s := Scan(m, buf, len, 2 + 2 * i, MsbValue(DecodedBits(m, buf, i)) % UINT32_MODULUS);
      && (s.status.Decoded? <==> forall k :: i <= k < PairCount(len) ==> PairOk(m, buf, k))
      && (s.status.Decoded? ==>
            && s.offset == 2 + 2 * PairCount(len)
            && s.value == MsbValue(DecodedBits(m, buf, PairCount(len))) % UINT32_MODULUS)
    decreases PairCount(len) - i
  {
    PairsInBuffer(buf, len);
    if i < PairCount(len) {
      if PairOk(m, buf, i) {
        ShiftInNextBit(m, buf, i);
        ScanCompletes(m, buf, len, i + 1);
      }
    }
  }

  /** From pair i on, when pairs i .. k-1 are well formed and pair k is not,
      the scan is rejected at pair k: a DataSpaceError at the space's offset
      when the space does not match, otherwise a DataMarkError at the mark's
      offset, with `value` holding the bits of the pairs before k. */
  lemma {:induction false} ScanStopsAtFirstBadPair(m: Matcher, buf: seq<nat>, len: nat, i: nat, k: nat)
    requires CaptureFits(buf, len) && i <= k < PairCount(len)
    requires forall j :: i <= j < k ==> PairOk(m, buf, j)
    requires !PairOk(m, buf, k)
    ensures 2 * k + 3 < |buf|
    ensures Scan(m, buf, len, 2 + 2 * i, MsbValue(DecodedBits(m, buf, i)) % UINT32_MODULUS)
         == if !m(buf[2 + 2 * k], SPACE)
            then ScanState(Rejected(DataSpaceError(SPACE)), 2 + 2 * k, MsbValue(DecodedBits(m, buf, k)) % UINT32_MODULUS)
            else ScanState(Rejected(DataMarkError(ZERO_MARK)), 3 + 2 * k, MsbValue(DecodedBits(m, buf, k)) % UINT32_MODULUS)
    decreases k - i
  {
    PairsInBuffer(buf, len);
    if i < k {
      assert PairOk(m, buf, i);
      ShiftInNextBit(m, buf, i);
      ScanStopsAtFirstBadPair(m, buf, len, i + 1, k);
    }
  }

  /** A scan reads nothing outside [offset, LastRead]: a buffer that agrees
      on those entries scans to the same state. */
  lemma {:induction false} ScanReadsOnly(m: Matcher, buf: seq<nat>, buf': seq<nat>, len: nat, offset: nat, value: nat)
    requires CaptureFits(buf, len) && CaptureFits(buf', len) && 2 <= offset && offset % 2 == 0
    requires forall j :: offset <= j <= LastRead(Scan(m, buf, len, offset, value)) && j < |buf| && j < |buf'| ==> buf'[j] == buf[j]
    ensures Scan(m, buf', len, offset, value) == Scan(m, buf, len, offset, value)
    decreases len - offset
  {
    if offset < len {
      var s := Scan(m, buf, len, offset, value);
      assert offset + 1 < |buf| && offset + 1 < |buf'|;
      assert buf'[offset] == buf[offset];
      if m(buf[offset], SPACE) {
        assert buf'[offset + 1] == buf[offset + 1];
        if m(buf[offset + 1], ONE_MARK) || m(buf[offset + 1], ZERO_MARK) {
          var next := ShiftIn(value, if m(buf[offset + 1], ONE_MARK) then 1 else 0);
          assert s == Scan(m, buf, len, offset + 2, next);
          ScanReadsOnly(m, buf, buf', len, offset + 2, next);
        }
      }
    }
  }

  /** With an even decodeLength the scan reads only captured entries. */
  lemma {:induction false} EvenScanStaysInCapture(m: Matcher, buf: seq<nat>, len: nat, offset: nat, value: nat)
    requires CaptureFits(buf, len) && len % 2 == 0 && 2 <= offset <= len && offset % 2 == 0
    ensures LastRead(Scan(m, buf, len, offset, value)) < len
    decreases len - offset
  {
    if offset < len && m(buf[offset], SPACE) {
      if m(buf[offset + 1], ONE_MARK) {
        EvenScanStaysInCapture(m, buf, len, offset + 2, ShiftIn(value, 1));
      } else if m(buf[offset + 1], ZERO_MARK) {
        EvenScanStaysInCapture(m, buf, len, offset + 2, ShiftIn(value, 0));
      }
    }
  }

  // ---------------------------------------------------------------------
  // Whole decode attempts

  /** A decode attempt succeeds exactly when the header mark matches 2400
      (or the header is ignored) and every (space, mark) pair up to
      decodeLength is well formed. It then reports one bit per pair, the
      value is the low 32 bits of those bits read most significant first,
      and the protocol is MILESTAG. */
  lemma DecodeSucceedsIff(m: Matcher, buf: seq<nat>, len: nat, ignoreHeader: bool)
    requires Readable(buf, len, ignoreHeader)
    ensures PairCount(len) == 0 || 2 * PairCount(len) + 1 < |buf|
    ensures DecodePacket(m, buf, len, ignoreHeader).Ok?
        <==> (ignoreHeader || m(buf[1], HEADER_MARK)) && forall k :: 0 <= k < PairCount(len) ==> PairOk(m, buf, k)
    ensures DecodePacket(m, buf, len, ignoreHeader).Ok? ==>
      DecodePacket(m, buf, len, ignoreHeader).value
        == Packet(MsbValue(DecodedBits(m, buf, PairCount(len))) % UINT32_MODULUS, PairCount(len), MILESTAG)
  {
    ScanCompletes(m, buf, len, 0);
  }

  /** Without ignoreHeader, a header mark that does not match 2400 rejects
      the attempt before any data entry is read: `offset` keeps its previous
      value and `value` stays reset. */
  lemma HeaderMismatchRejects(m: Matcher, buf: seq<nat>, len: nat, priorOffset: nat)
    requires Readable(buf, len, false) && !m(buf[1], HEADER_MARK)
    ensures DecodeState(m, buf, len, false, priorOffset)
         == ScanState(Rejected(HeaderMarkError(HEADER_MARK)), priorOffset, 0)
    ensures DecodePacket(m, buf, len, false) == Err(HeaderMarkError(2400))
  {
  }

  /** With ignoreHeader, the entry at index 1 is never read: replacing it
      changes nothing. */
  lemma IgnoredHeaderIsNotRead(m: Matcher, buf: seq<nat>, len: nat, x: nat, priorOffset: nat)
    requires Readable(buf, len, true) && 1 < |buf|
    ensures Readable(buf[1 := x], len, true)
    ensures DecodeState(m, buf[1 := x], len, true, priorOffset) == DecodeState(m, buf, len, true, priorOffset)
  {
    ScanReadsOnly(m, buf, buf[1 := x], len, 2, 0);
  }

  /** The first malformed pair decides the error and where `offset` stops;
      the entries after it are never inspected. */
  lemma DecodeStopsAtFirstBadPair(m: Matcher, buf: seq<nat>, len: nat, ignoreHeader: bool, priorOffset: nat, k: nat)
    requires Readable(buf, len, ignoreHeader) && (ignoreHeader || m(buf[1], HEADER_MARK))
    requires k < PairCount(len) && (forall j :: 0 <= j < k ==> PairOk(m, buf, j)) && !PairOk(m, buf, k)
    ensures 2 * k + 3 < |buf|
    ensures var s := DecodeState(m, buf, len, ignoreHeader, priorOffset);
      && s.value == MsbValue(DecodedBits(m, buf, k)) % UINT32_MODULUS
      && (!m(buf[2 + 2 * k], SPACE) ==> s.status == Rejected(DataSpaceError(SPACE)) && s.offset == 2 + 2 * k)
      && (m(buf[2 + 2 * k], SPACE) ==> s.status == Rejected(DataMarkError(ZERO_MARK)) && s.offset == 3 + 2 * k)
  {
    ScanStopsAtFirstBadPair(m, buf, len, 0, k);
  }

  /** A rejected attempt does not depend on any entry after the one it
      rejected. */
  lemma RejectionIgnoresLaterEntries(m: Matcher, buf: seq<nat>, buf': seq<nat>, len: nat, ignoreHeader: bool, priorOffset: nat)
    requires Readable(buf, len, ignoreHeader) && Readable(buf', len, ignoreHeader)
    requires DecodeState(m, buf, len, ignoreHeader, priorOffset).status.Rejected?
    requires |buf| == |buf'|
    requires forall j :: 0 <= j <= DecodeState(m, buf, len, ignoreHeader, priorOffset).offset && j < |buf| ==> buf'[j] == buf[j]
    requires !ignoreHeader ==> buf'[1] == buf[1]
    ensures DecodeState(m, buf', len, ignoreHeader, priorOffset) == DecodeState(m, buf, len, ignoreHeader, priorOffset)
  {
    if ignoreHeader || m(buf[1], HEADER_MARK) {
      ScanReadsOnly(m, buf, buf', len, 2, 0);
    }
  }

  /** With an even decodeLength of at least 2 the attempt reads only the
      captured entries buf[0..decodeLength). */
  lemma EvenLengthReadsOnlyCapture(m: Matcher, buf: seq<nat>, buf': seq<nat>, len: nat, ignoreHeader: bool, priorOffset: nat)
    requires 2 <= len && len % 2 == 0
    requires Readable(buf, len, ignoreHeader) && Readable(buf', len, ignoreHeader)
    requires buf[..len] == buf'[..len]
    ensures DecodeState(m, buf', len, ignoreHeader, priorOffset) == DecodeState(m, buf, len, ignoreHeader, priorOffset)
  {
    assert buf'[1] == buf[1] by { assert buf[..len][1] == buf'[..len][1]; }
    EvenScanStaysInCapture(m, buf, len, 2, 0);
    forall j | 2 <= j < len
      ensures buf'[j] == buf[j]
    {
      assert buf[..len][j] == buf'[..len][j];
    }
    ScanReadsOnly(m, buf, buf', len, 2, 0);
  }

  /** With an odd decodeLength the last mark is read from index
      decodeLength, past the captured data: two buffers with the same
      captured entries [gap, 2400, 600] decode differently. */
  lemma OddLengthReadsPastCapture(m: Matcher, gap: nat, stale: nat)
    requires SeparatesNominals(m) && !m(stale, ONE_MARK) && !m(stale, ZERO_MARK)
    ensures [gap, HEADER_MARK, SPACE, ONE_MARK][..3] == [gap, HEADER_MARK, SPACE, stale][..3]
    ensures DecodePacket(m, [gap, HEADER_MARK, SPACE, ONE_MARK], 3, false) == Ok(Packet(1, 1, MILESTAG))
    ensures DecodePacket(m, [gap, HEADER_MARK, SPACE, stale], 3, false) == Err(DataMarkError(ZERO_MARK))
  {
    var b := [gap, HEADER_MARK, SPACE, ONE_MARK];
    assert Scan(m, b, 3, 4, 1) == ScanState(Decoded, 4, 1);
  }

  /** A buffer with nothing after the header mark decodes to zero bits and
      value 0. */
  lemma HeaderOnlyDecodesEmpty(m: Matcher, buf: seq<nat>, len: nat, ignoreHeader: bool)
    requires Readable(buf, len, ignoreHeader) && len <= 2
    requires ignoreHeader || m(buf[1], HEADER_MARK)
    ensures DecodePacket(m, buf, len, ignoreHeader) == Ok(Packet(0, 0, MILESTAG))
  {
  }

  /** Bit by bit: when at most 32 pairs are decoded, bit (n-1-k) of the
      reported value is 1 exactly when mark k matched 1200, whether or not
      it also matched 600. */
  lemma DecodedValueBits(m: Matcher, buf: seq<nat>, len: nat, ignoreHeader: bool, k: nat)
    requires Readable(buf, len, ignoreHeader) && DecodePacket(m, buf, len, ignoreHeader).Ok?
    requires PairCount(len) <= 32 && k < PairCount(len)
    ensures 2 * k + 3 < |buf|
    ensures var p := DecodePacket(m, buf, len, ignoreHeader).value;
      && p.bits == PairCount(len)
      && p.value / Pow2(PairCount(len) - 1 - k) % 2 == (if m(buf[3 + 2 * k], ONE_MARK) then 1 else 0)
  {
    DecodeSucceedsIff(m, buf, len, ignoreHeader);
    var bs := DecodedBits(m, buf, PairCount(len));
    TruncatedDigit(bs, k);
    assert bs[k] == Bit(m, buf, k);
  }
}

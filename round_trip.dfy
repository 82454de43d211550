/** Sending and receiving together: what the decoder makes of a frame the
    sender transmitted, and the concrete frames the protocol description
    works through. */
module MilesTagRoundTrip {
  import opened MsbFold
  import opened MilesTagProtocol
  import opened MilesTagDecode
  import opened MilesTagDecodeProperties
  import opened MilesTagSend

  /** Mark k of a sent frame is the one-bit mark exactly when bit nbits-1-k
      of data is set. */
  lemma SentMarkCarriesBit(data: nat, nbits: nat, k: nat)
    requires data < UINT32_MODULUS && nbits < 256 && k < nbits
    ensures SendPulses(data, nbits)[2 + 2 * k] == (if data / Pow2(nbits - 1 - k) % 2 == 1 then ONE_MARK else ZERO_MARK)
  {
    MsbBitsDigit(data, nbits, k);
  }

  /** Decoding the capture of a sent frame of at most 32 bits gives back the
      low nbits bits of data and the bit count, whether or not the header is
      checked, provided the tolerance test accepts nominal durations and does
      not take 600 for 1200. */
  lemma {:induction false} DecodeOfSentFrame(m: Matcher, gap: nat, data: nat, nbits: nat, ignoreHeader: bool)
    requires SeparatesNominals(m) && data < UINT32_MODULUS && nbits <= 32
    ensures Readable(EncodePulses(gap, data, nbits), 2 + 2 * nbits, ignoreHeader)
    ensures DecodePacket(m, EncodePulses(gap, data, nbits), 2 + 2 * nbits, ignoreHeader)
         == Ok(Packet(data % Pow2(nbits), nbits, MILESTAG))
    ensures data < Pow2(nbits) ==>
      DecodePacket(m, EncodePulses(gap, data, nbits), 2 + 2 * nbits, ignoreHeader) == Ok(Packet(data, nbits, MILESTAG))
  {
    var c := EncodePulses(gap, data, nbits);
    var len := 2 + 2 * nbits;
    var sent := MsbBits(data, nbits);
    assert PairCount(len) == nbits;
    forall k | 0 <= k < nbits
      ensures PairOk(m, c, k) && Bit(m, c, k) == sent[k]
    {
      assert c[2 + 2 * k] == SPACE && c[3 + 2 * k] == MarkFor(sent[k]);
    }
    assert DecodedBits(m, c, nbits) == sent;
    DecodeSucceedsIff(m, c, len, ignoreHeader);
    MsbValueOfBits(data, nbits);
    var low := data % Pow2(nbits);
    Pow2Monotone(nbits, 32);
    Pow2Is32BitModulus();
    DivModUnique(low, UINT32_MODULUS, 0, low);
    if data < Pow2(nbits) {
      DivModUnique(data, Pow2(nbits), 0, data);
    }
  }

  /** The decoder object itself, run on the capture of a sent frame,
      reports the data and the bit count. */
  method ReceiveSentFrame(m: Matcher, gap: nat, data: nat, nbits: nat) returns (ok: bool, value: nat, bits: nat)
    requires SeparatesNominals(m) && nbits <= 32 && data < Pow2(nbits)
    ensures ok && value == data && bits == nbits
  {
    Pow2Monotone(nbits, 32);
    Pow2Is32BitModulus();
    DecodeOfSentFrame(m, gap, data, nbits, false);
    var decoder := new MilesTagDecoder(false);
    ok := decoder.Decode(EncodePulses(gap, data, nbits), 2 + 2 * nbits, m);
    value, bits := decoder.value, decoder.bits;
  }

  /** The captured frame [gap, 2400, 600, 1200, 600, 600] reads 1 then 0:
      two bits, value 2. */
  lemma TwoBitFrame(m: Matcher, gap: nat)
    requires SeparatesNominals(m)
    ensures DecodePacket(m, [gap, HEADER_MARK, SPACE, ONE_MARK, SPACE, ZERO_MARK], 6, false) == Ok(Packet(2, 2, MILESTAG))
  {
    assert MsbBits(2, 2) == [1, 0];
    assert EncodePulses(gap, 2, 2) == [gap, HEADER_MARK, SPACE, ONE_MARK, SPACE, ZERO_MARK];
    DecodeOfSentFrame(m, gap, 2, 2, false);
    assert Pow2(2) == 4;
  }

  /** A 14-bit shot of value 0: the 2400us header mark, then fourteen
      (600us space, 600us mark) pairs and the final 600us space. */
  lemma ZeroShotPulses()
    ensures SendPulses(0, 14) == [HEADER_MARK] + seq(29, i => SPACE)
  {
    var p := SendPulses(0, 14);
    var r := [HEADER_MARK] + seq(29, i => SPACE);
    forall i | 1 <= i < 30
      ensures p[i] == r[i]
    {
      if i % 2 == 0 {
        var k := (i - 2) / 2;
        assert i == 2 + 2 * k;
        MsbBitsDigit(0, 14, k);
        assert MsbBits(0, 14)[k] == 0;
      }
    }
    assert p == r;
  }

  /** A mark outside the tolerance of both 1200 and 600 is a DataMarkError
      at the mark's offset. */
  lemma AmbiguousMarkRejected(m: Matcher, gap: nat, mark: nat, priorOffset: nat)
    requires SeparatesNominals(m) && !m(mark, ONE_MARK) && !m(mark, ZERO_MARK)
    ensures DecodeState(m, [gap, HEADER_MARK, SPACE, mark], 4, false, priorOffset)
         == ScanState(Rejected(DataMarkError(ZERO_MARK)), 3, 0)
  {
  }
}

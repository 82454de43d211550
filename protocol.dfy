/** The MilesTag v2 protocol: its nominal durations, the tolerance test it is
    matched with, the decoder's error taxonomy, and the uint32_t shift that
    accumulates received bits. */
module MilesTagProtocol {
  import opened MsbFold

  /** Nominal durations in microseconds, as the sender writes them. */
  const HEADER_MARK: nat := 600 * 4
  const SPACE: nat := 600
  const ONE_MARK: nat := 600 * 2
  const ZERO_MARK: nat := 600

  /** Protocol number the decoder reports; the dispatcher selects this
      protocol as case 13. */
  const MILESTAG: nat := 13

  /** `value` is a uint32_t: every arithmetic result is taken modulo 2^32. */
  const UINT32_MODULUS: nat := 0x1_0000_0000

  /** MATCH(measured, nominal): the framework's tolerance test. Its
      arithmetic belongs to the framework, so the model takes it as a
      parameter. */
  type Matcher = (nat, nat) -> bool

  /** What a usable tolerance test must do for this protocol: accept each
      nominal duration as itself, and not take a zero-bit mark for a
      one-bit mark. */
  predicate SeparatesNominals(m: Matcher)
  {
    && m(HEADER_MARK, HEADER_MARK)
    && m(SPACE, SPACE)
    && m(ONE_MARK, ONE_MARK)
    && m(ZERO_MARK, ZERO_MARK)
    && !m(ZERO_MARK, ONE_MARK)
  }

  /** The three ways a decode attempt is rejected, with the nominal duration
      that was expected. */
  datatype DecodeError =
    | HeaderMarkError(expected: nat)
    | DataSpaceError(expected: nat)
    | DataMarkError(expected: nat)

  datatype Result<T> = Ok(value: T) | Err(error: DecodeError)

  /** What a successful decode leaves for the dispatch layer. */
  datatype Packet = Packet(value: nat, bits: nat, protocolNum: nat)

  /** `(value << 1) | bit` on a uint32_t. */
  function ShiftIn(value: nat, bit: nat): (r: nat)
    requires bit <= 1
    ensures r < UINT32_MODULUS
    ensures r % 2 == bit
    ensures value < UINT32_MODULUS / 2 ==> r == 2 * value + bit
  {
    (2 * value + bit) % UINT32_MODULUS
  }

  /** Shifting a bit into the truncated value of a bit list truncates the
      value of the extended list: the uint32_t accumulator keeps the low 32
      bits of the most-significant-first fold. */
  lemma ShiftInKeepsLowBits(bs: seq<nat>, bit: nat)
    requires bit <= 1
    ensures ShiftIn(MsbValue(bs) % UINT32_MODULUS, bit) == MsbValue(bs + [bit]) % UINT32_MODULUS
  {
    var x := MsbValue(bs);
    var M := UINT32_MODULUS;
    assert (bs + [bit])[..|bs|] == bs;
    assert MsbValue(bs + [bit]) == 2 * x + bit;
    var y := 2 * (x % M) + bit;
    assert 2 * x + bit == (2 * (x / M)) * M + y;
    DivModUnique(y, M, y / M, y % M);
    assert 2 * x + bit == (2 * (x / M) + y / M) * M + y % M;
    DivModUnique(2 * x + bit, M, 2 * (x / M) + y / M, y % M);
  }

  /** A list of at most 32 bits survives truncation to a uint32_t: digit k
      from the most significant end is still bit |bs|-1-k of the value. */
  lemma TruncatedDigit(bs: seq<nat>, k: nat)
    requires IsBits(bs) && |bs| <= 32 && k < |bs|
    ensures MsbValue(bs) % UINT32_MODULUS / Pow2(|bs| - 1 - k) % 2 == bs[k]
  {
    MsbValueBound(bs);
    Pow2Monotone(|bs|, 32);
    Pow2Is32BitModulus();
    DivModUnique(MsbValue(bs), UINT32_MODULUS, 0, MsbValue(bs));
    MsbValueDigit(bs, k);
  }

  /** 2^32 is the uint32_t modulus. */
  lemma Pow2Is32BitModulus()
    ensures Pow2(32) == UINT32_MODULUS
  {
    assert Pow2(8) == 256;
    assert Pow2(16) == 65536;
    assert Pow2(24) == 16777216;
  }
}

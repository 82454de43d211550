/** IRsendMilesTag::send as the pulse train it asks the generic sender for:
    a 2400us header mark and a 600us space, then per data bit, most
    significant first, a 1200us (one) or 600us (zero) mark followed by a
    600us space, sent once. Also what a receiver captures of that train. */
module MilesTagSend {
  import opened MsbFold
  import opened MilesTagProtocol

  /** The mark that carries one data bit. */
  function MarkFor(bit: nat): nat
  {
    if bit == 1 then ONE_MARK else ZERO_MARK
  }

  /** Per bit, its mark and then the fixed space. */
  function BitPulses(bs: seq<nat>): (p: seq<nat>)
  {
    seq(2 * |bs|, i requires 0 <= i < 2 * |bs| => if i % 2 == 0 then MarkFor(bs[i / 2]) else SPACE)
  }

  /** The durations send(data, nbits) transmits: data is a uint32_t and
      nbits a uint8_t, and the low nbits bits of data go out most
      significant first (MsbBits(data, nbits)[k] is bit nbits-1-k of data). */
  function SendPulses(data: nat, nbits: nat): (p: seq<nat>)
    requires data < UINT32_MODULUS && nbits < 256
    ensures |p| == 2 + 2 * nbits && p[0] == HEADER_MARK
    ensures forall i :: 0 <= i < |p| && i % 2 == 1 ==> p[i] == SPACE
    ensures forall k :: 0 <= k < nbits ==> p[2 + 2 * k] == MarkFor(MsbBits(data, nbits)[k])
  {
    var bits := MsbBits(data, nbits);
    var tail := BitPulses(bits);
    var p := [HEADER_MARK, SPACE] + tail;
    forall i | 0 <= i < |p| && i % 2 == 1
      ensures p[i] == SPACE
    {
      if i > 1 {
        assert p[i] == tail[i - 2];
      }
    }
    forall k | 0 <= k < nbits
      ensures p[2 + 2 * k] == MarkFor(bits[k])
    {
      var j := 2 * k;
      assert j % 2 == 0 && j / 2 == k;
      assert p[2 + j] == tail[j];
    }
    p
  }

  /** What the receiver captures of a transmitted train: index 0 is the gap
      before the frame, and the final space merges into the silence that
      ends the capture, so it is not recorded. */
  function CaptureOf(gap: nat, sent: seq<nat>): (c: seq<nat>)
    requires sent != []
    ensures |c| == |sent| && c[0] == gap
    ensures forall i :: 1 <= i < |c| ==> c[i] == sent[i - 1]
  {
    [gap] + sent[..|sent| - 1]
  }

  /** The captured layout of a sent frame: [gap, 2400, 600, m1, 600, m2,
      ..., 600, mN], where mark k carries bit k of the most-significant-first
      digits of data. */
  function EncodePulses(gap: nat, data: nat, nbits: nat): (c: seq<nat>)
    requires data < UINT32_MODULUS && nbits < 256
    ensures |c| == 2 + 2 * nbits && c[0] == gap && c[1] == HEADER_MARK
    ensures forall k :: 0 <= k < nbits ==> c[2 + 2 * k] == SPACE && c[3 + 2 * k] == MarkFor(MsbBits(data, nbits)[k])
  {
    var sent := SendPulses(data, nbits);
    var c := CaptureOf(gap, sent);
    forall k | 0 <= k < nbits
      ensures c[2 + 2 * k] == SPACE && c[3 + 2 * k] == MarkFor(MsbBits(data, nbits)[k])
    {
      var j := 1 + 2 * k;
      assert j % 2 == 1;
      assert c[j + 1] == sent[j] == SPACE;
      assert c[j + 2] == sent[j + 1];
    }
    c
  }
}

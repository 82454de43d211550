# MilesTag v2 infrared codec — Dafny model

This project models the MilesTag v2 protocol module of IRLib2. MilesTag v2 is
the laser-tag frame format: a Sony-like infrared encoding with variable-length
marks and fixed-length spaces. A frame is a 2400µs header mark, then one
600µs space per data bit, each followed by a mark. A 1200µs mark is a 1 bit
and a 600µs mark is a 0 bit. Bits go most significant first, and the frame
is sent once.

The core is `IRdecodeMilesTag::decode`. It scans a captured buffer of pulse
durations:

- Index 0 is the leading gap.
- Index 1 is the header mark. It is checked against 2400µs unless
  `ignoreHeader` is set.
- Next come (space, mark) pairs from offset 2 for as long as
  `offset < decodeLength`.
- Each space must match 600µs.
- A mark matching 1200µs shifts a 1 into the uint32_t `value`. Otherwise a
  mark matching 600µs shifts in a 0. Any other mark rejects the frame.
- On success, `bits = (offset-1)/2` and `protocolNum = MILESTAG`.

The model has these parts:

- `MilesTagDecode.MilesTagDecoder` is a class holding the fields that decode
  updates in place: `value`, `bits`, `protocolNum` and `offset`, plus the
  `ignoreHeader` flag. Its `Decode` method has the source's `while` loop.
  The method is proved against `Scan` / `DecodeState`, a function that does
  the loop step by step. `DecodePacket` is the view the dispatcher sees:
  either `Ok(Packet(value, bits, MILESTAG))` or the error.
- The `MATCH(measured, nominal)` tolerance test is a parameter of type
  `Matcher`. Its arithmetic belongs to the framework. The round trip assumes
  `SeparatesNominals`: every nominal duration matches itself, and a 600µs
  mark does not match 1200µs.
- `MilesTagProtocol.ShiftIn` is `(value << 1) | bit` on a uint32_t, written
  out with explicit truncation modulo 2^32. `MsbFold` gives that fold its
  meaning as the number whose binary digits are the received bits.
- `MilesTagSend.SendPulses` is the pulse train that `IRsendMilesTag::send`
  asks the generic sender to emit, with the parameters it passes. `EncodePulses` is
  what a receiver captures of that train:
  `[gap, 2400, 600, m1, 600, m2, …, 600, mN]`. The trailing space merges
  into the silence that ends the capture.
- The decode buffer is the physical capture buffer. `decodeLength` says how
  many of its entries were captured. When `decodeLength` is odd, the last
  loop iteration reads the mark at index `decodeLength`, one past the
  captured data. `Readable` states that every index decode reads lies inside
  the buffer:
  - index 1 when the header is checked;
  - the captured entries;
  - the entry at `decodeLength` when that length is odd.

  Two lemmas cover the edge case:
  - `EvenLengthReadsOnlyCapture`: with an even length, only captured
    entries are read.
  - `OddLengthReadsPastCapture`: with an odd length, the outcome depends on
    the uncaptured entry.

Behaviour of the code worth noting:

- `decode` keeps its scan state in the decoder's fields `offset` and `value`,
  not in locals (IRLibProtocols/IRLib_P13_MilesTag.h:56-68).
- A rejected attempt returns straight out of the loop
  (IRLibProtocols/IRLib_P13_MilesTag.h:58 and :66). The partial `value` and
  the stopping `offset` stay in those fields. A header rejection
  (IRLibProtocols/IRLib_P13_MilesTag.h:54) returns before `offset` is set,
  so `offset` keeps whatever the previous attempt left there.
- The mark error passes 600 as its expected duration
  (IRLibProtocols/IRLib_P13_MilesTag.h:66).
- Any bit count is accepted, because the length check at
  IRLibProtocols/IRLib_P13_MilesTag.h:52 is commented out.

## Model

| member | source | states |
|---|---|---|
| `MilesTagDecode.MilesTagDecoder.Decode` | IRLibProtocols/IRLib_P13_MilesTag.h:49-72 | The new `ok`, `offset` and `value` are those of `DecodeState` started from the old `offset`. `value` stays below 2^32. On success, `bits` is the number of (space, mark) pairs in `decodeLength`, `protocolNum` is MILESTAG, and `DecodePacket` returns exactly those fields. On failure, `bits` is 0, `protocolNum` is unchanged, and `DecodePacket` returns the same error. |
| `MilesTagDecode.MilesTagDecoder.ResetDecoder` | IRLibProtocols/IRLib_P13_MilesTag.h:51 | Clears `value` and `bits` to 0 and changes nothing else. |
| `MilesTagDecode.PairCount` | IRLibProtocols/IRLib_P13_MilesTag.h:56-69 | The number of pairs the loop consumes. 2 + 2n is the first even offset, at least 2, that is not below `decodeLength`. |
| `MilesTagDecode.Scan` | IRLibProtocols/IRLib_P13_MilesTag.h:56-68 | The loop never moves `offset` backwards. Its full behaviour is stated by the lemmas below. |
| `MilesTagDecode.ScanBounds` | IRLibProtocols/IRLib_P13_MilesTag.h:57-68 | A scan that runs at least one step and completes stops at offset 2 + 2·PairCount(decodeLength), the first even offset not below `decodeLength`. A rejected scan stops at or before `decodeLength` with a data error. `value` stays below 2^32. |
| `MilesTagDecode.DecodeState` | IRLibProtocols/IRLib_P13_MilesTag.h:53-68 | The state a decode attempt leaves: the header check (unless `ignoreHeader`), then the scan from offset 2 with `value` 0. It is a HeaderMarkError exactly when the header is checked and does not match 2400, and then `offset` is the previous one and `value` is 0. A data error stops between 2 and `decodeLength`. A success needs an accepted header and ends at offset 2 + 2·PairCount(decodeLength). `value` is below 2^32. `DecodeSucceedsIff`, `HeaderMismatchRejects` and `DecodeStopsAtFirstBadPair` prove the rest. |
| `MilesTagDecode.DecodePacket` | IRLibProtocols/IRLib_P13_MilesTag.h:69-71 | What the attempt reports: `Ok` exactly when `DecodeState` succeeds, then with `bits = (offset-1)/2` equal to PairCount(decodeLength), `protocolNum` MILESTAG and `value` below 2^32. Otherwise it returns `DecodeState`'s error. `DecodeSucceedsIff` gives the packet's value as the MSB-first fold of the decoded bits. |
| `MilesTagProtocol.ShiftIn` | IRLibProtocols/IRLib_P13_MilesTag.h:61-64 | `(value << 1) OR bit` on a uint32_t stays below 2^32. Its low bit is the shifted-in bit. When the top bit of value is clear, it equals 2·value + bit. |
| `MilesTagProtocol.ShiftInKeepsLowBits` | IRLibProtocols/IRLib_P13_MilesTag.h:61-64 | Shifting a bit into the truncated value of a bit list gives the truncated value of the extended list. |
| `MilesTagProtocol.TruncatedDigit` | IRLibProtocols/IRLib_P13_MilesTag.h:61-64 | A list of at most 32 bits survives uint32_t truncation, digit by digit. |
| `MsbFold.MsbValueBound` | IRLibProtocols/IRLib_P13_MilesTag.h:61-64 | n bits fold to a value below 2^n. |
| `MsbFold.MsbBitsOfValue` | IRLibProtocols/IRLib_P13_MilesTag.h:61-64 | Reading back the n binary digits of a bit list's MSB-first value gives the list. |
| `MsbFold.MsbValueOfBits` | IRLibProtocols/IRLib_P13_MilesTag.h:39-41 | Folding the n MSB-first digits of data gives data mod 2^n, the inverse of `MsbBitsOfValue`. |
| `MsbFold.MsbValueDigit` | IRLibProtocols/IRLib_P13_MilesTag.h:61-64 | Element k of a bit list is bit n-1-k of its value, so the first bit received is the most significant. |
| `MsbFold.MsbBitsDigit` | IRLibProtocols/IRLib_P13_MilesTag.h:39-41 | Digit k of the n-digit MSB-first expansion of data is bit n-1-k of data. |
| `MilesTagDecodeProperties.ScanCompletes` | IRLibProtocols/IRLib_P13_MilesTag.h:56-69 | From any pair on, the scan completes exactly when every remaining pair is well formed. It then stops at offset 2 + 2·PairCount, holding the low 32 bits of the MSB-first fold of all decoded bits. |
| `MilesTagDecodeProperties.ScanStopsAtFirstBadPair` | IRLibProtocols/IRLib_P13_MilesTag.h:57-66 | The first malformed pair k rejects the scan. A bad space gives DataSpaceError(600) at offset 2+2k. Otherwise a bad mark gives DataMarkError(600) at offset 3+2k. `value` holds the bits of pairs before k. |
| `MilesTagDecodeProperties.ScanReadsOnly` | IRLibProtocols/IRLib_P13_MilesTag.h:56-68 | The scan reads no entry outside [offset, last inspected index]. A buffer that agrees there scans to the same state. |
| `MilesTagDecodeProperties.EvenScanStaysInCapture` | IRLibProtocols/IRLib_P13_MilesTag.h:57-60 | With an even `decodeLength`, the last index inspected is below `decodeLength`. |
| `MilesTagDecodeProperties.DecodeSucceedsIff` | IRLibProtocols/IRLib_P13_MilesTag.h:53-71 | Decode succeeds if and only if the header matches 2400 (or is ignored) and every pair up to `decodeLength` is well formed. Then the packet is (low 32 bits of the MSB-first fold of the decoded bits, PairCount(decodeLength), MILESTAG). |
| `MilesTagDecodeProperties.HeaderMismatchRejects` | IRLibProtocols/IRLib_P13_MilesTag.h:53-55 | A header mark that does not match 2400 gives HeaderMarkError(2400) when the header is checked. No data entry is read, `offset` is left as it was, and `value` stays reset. |
| `MilesTagDecodeProperties.IgnoredHeaderIsNotRead` | IRLibProtocols/IRLib_P13_MilesTag.h:53-57 | With `ignoreHeader`, replacing entry 1 changes nothing. |
| `MilesTagDecodeProperties.DecodeStopsAtFirstBadPair` | IRLibProtocols/IRLib_P13_MilesTag.h:58-66 | After a good (or ignored) header, the first malformed pair decides the error kind, the stopping offset and the partial value. |
| `MilesTagDecodeProperties.RejectionIgnoresLaterEntries` | IRLibProtocols/IRLib_P13_MilesTag.h:54-66 | A rejected attempt does not depend on any entry after the one it rejected. |
| `MilesTagDecodeProperties.EvenLengthReadsOnlyCapture` | IRLibProtocols/IRLib_P13_MilesTag.h:57-60 | With an even `decodeLength` ≥ 2, two buffers with the same captured entries decode to the same state. |
| `MilesTagDecodeProperties.OddLengthReadsPastCapture` | IRLibProtocols/IRLib_P13_MilesTag.h:57-60 | Take `decodeLength` 3 and the captured entries [gap, 2400, 600]. The outcome depends on the uncaptured entry 3: it is success (1 bit, value 1) or DataMarkError. |
| `MilesTagDecodeProperties.HeaderOnlyDecodesEmpty` | IRLibProtocols/IRLib_P13_MilesTag.h:56-71 | A `decodeLength` of at most 2 with an accepted header decodes to 0 bits, value 0, MILESTAG. |
| `MilesTagDecodeProperties.DecodedValueBits` | IRLibProtocols/IRLib_P13_MilesTag.h:60-65 | On success with at most 32 pairs, bit n-1-k of `value` is 1 exactly when mark k matched 1200, whether or not it also matched 600. The one-bit test takes priority. |
| `MilesTagSend.SendPulses` | IRLibProtocols/IRLib_P13_MilesTag.h:39-42 | The sent train is a 2400 header mark, then 600 at every odd index. The mark at 2+2k encodes digit k of the MSB-first expansion of data. Its length is 2 + 2·nbits. |
| `MilesTagSend.EncodePulses` | IRLibProtocols/IRLib_P13_MilesTag.h:20-21 | The captured layout is [gap, 2400, then per bit k: 600 and the mark of digit k]. Its length is 2 + 2·nbits. |
| `MilesTagRoundTrip.SentMarkCarriesBit` | IRLibProtocols/IRLib_P13_MilesTag.h:41 | Sent mark k is 1200 if bit nbits-1-k of data is set, and 600 otherwise. |
| `MilesTagRoundTrip.DecodeOfSentFrame` | IRLibProtocols/IRLib_P13_MilesTag.h:39-72 | For nbits ≤ 32, decoding the captured frame gives (data mod 2^nbits, nbits, MILESTAG), with or without the header check. When data < 2^nbits, the value is data itself. This assumes SeparatesNominals. |
| `MilesTagRoundTrip.ReceiveSentFrame` | IRLibProtocols/IRLib_P13_MilesTag.h:39-72 | Running the decoder object on a sent frame returns true, with `value` equal to data and `bits` equal to nbits. |
| `MilesTagRoundTrip.TwoBitFrame` | IRLibProtocols/IRLib_P13_MilesTag.h:56-71 | [gap, 2400, 600, 1200, 600, 600] decodes to 2 bits, value 2. |
| `MilesTagRoundTrip.ZeroShotPulses` | IRLibProtocols/IRLib_P13_MilesTag.h:39-42 | A 14-bit shot of value 0 is sent as a 2400 mark followed by 29 durations of 600. |
| `MilesTagRoundTrip.AmbiguousMarkRejected` | IRLibProtocols/IRLib_P13_MilesTag.h:60-66 | A mark matching neither 1200 nor 600 gives DataMarkError(600) at offset 3. |

## Left out

- The arithmetic of the `MATCH` tolerance macro is framework code. It is a `Matcher` parameter here, and the round trip assumes `SeparatesNominals` of it.
- `IRLIB_ATTEMPT_MESSAGE` and the reporting side of `HEADER_MARK_ERROR`, `DATA_SPACE_ERROR` and `DATA_MARK_ERROR` are diagnostics only. Each is modelled as "return false", with the error and its expected duration kept in `DecodeState`.
- `sendGeneric`, carrier modulation and the `kHz` argument drive hardware. `SendPulses` is the train built from the durations passed at line 41: header mark, header space, then mark and space per bit, most significant bit first, sent once. The meaning of the final `false` argument is not given in this file. The model adds no extra trailing mark.
- `SendPulses` takes digits beyond bit 31 of the uint32_t data as 0. What `sendGeneric` does with more than 32 bits is not part of this model, so the round trip is stated only for nbits ≤ 32.
- `MilesTagDecode.MilesTagDecoder.Decode` requires `Readable`: every index decode reads must lie inside the capture buffer. The C code has the same need, since a read past the array is undefined.
- The `recvGlobal` capture subsystem and its interrupt-driven filling are not modelled. The buffer and `decodeLength` are inputs, and durations are unbounded naturals.
- The widths of `bits`, `offset`, `decodeLength` and the buffer entries come from the base classes, which are not part of this model. Only `value`'s 32-bit truncation is modelled.
- `resetDecoder` belongs to the base class, which is not part of this model. It is modelled as clearing `value` and `bits` only. The constructor's initial field values (protocol number `UNKNOWN` = 0) are likewise assumptions.
- The dispatch macros, the virtual/combo inheritance and `IRLIB_HAVE_COMBO` (lines 26-34 and 76) are build plumbing with no behaviour.
- The extended clone/system message packets are not implemented by the source (lines 12-13).

/** Most-significant-bit-first bit lists and the numbers they denote.
    The decoder shifts each received bit into the low end of its value
    (`value = (value << 1) | bit`), so the first bit received ends up the
    most significant one; this module gives that fold its meaning. */
module MsbFold {

  /** 2 to the power n. */
  function Pow2(n: nat): (p: nat)
    ensures 1 <= p
  {
    if n == 0 then 1 else 2 * Pow2(n - 1)
  }

  lemma {:induction false} Pow2Monotone(a: nat, b: nat)
    requires a <= b
    ensures Pow2(a) <= Pow2(b)
    decreases b
  {
    if a < b {
      Pow2Monotone(a, b - 1);
    }
  }

  /** Every element is 0 or 1. */
  predicate IsBits(bs: seq<nat>)
  {
    forall k :: 0 <= k < |bs| ==> bs[k] <= 1
  }

  /** The number whose binary digits, most significant first, are bs. */
  function MsbValue(bs: seq<nat>): nat
  {
    if bs == [] then 0 else 2 * MsbValue(bs[..|bs| - 1]) + bs[|bs| - 1]
  }

  /** Euclidean division is determined by its quotient and remainder. */
  lemma DivModUnique(d: int, m: int, q: int, r: int)
    requires 0 < m && d == q * m + r && 0 <= r < m
    ensures d / m == q && d % m == r
  {
    var q', r' := d / m, d % m;
    assert q' * m + r' == q * m + r;
    assert (q - q') * m == r' - r;
    if q' < q {
      MulAtLeast(q - q', m);
    } else if q < q' {
      MulAtLeast(q' - q, m);
    }
  }

  lemma {:induction false} MulAtLeast(a: int, m: int)
    requires 1 <= a && 0 < m
    ensures m <= a * m
    decreases a
  {
    if a > 1 {
      MulAtLeast(a - 1, m);
      assert a * m == (a - 1) * m + m;
    }
  }

  /** Halving, then dividing by 2^e, is dividing by 2^(e+1). */
  lemma HalveThenDivide(d: nat, e: nat)
    ensures d / 2 / Pow2(e) == d / Pow2(e + 1)
  {
    var h := d / 2;
    var p := Pow2(e);
    var x, y := h / p, h % p;
    assert h == x * p + y;
    SplitDouble(d, h, x, p, y);
    DivModUnique(d, Pow2(e + 1), x, 2 * y + d % 2);
  }

  lemma SplitDouble(d: nat, h: nat, x: nat, p: nat, y: nat)
    requires h == d / 2 && h == x * p + y
    ensures d == x * (2 * p) + (2 * y + d % 2)
  {
    assert 2 * (x * p) == x * (2 * p);
  }

  /** Doubling a number keeps its remainder modulo a doubled divisor. */
  lemma DoubledRemainder(d: nat, p: nat)
    requires 0 < p
    ensures d % (2 * p) == 2 * (d / 2 % p) + d % 2
  {
    var h := d / 2;
    var x, y := h / p, h % p;
    assert h == x * p + y;
    SplitDouble(d, h, x, p, y);
    DivModUnique(d, 2 * p, x, 2 * y + d % 2);
  }

  /** The lowest n binary digits of data, most significant first. */
  function MsbBits(data: nat, n: nat): (bs: seq<nat>)
    ensures |bs| == n && IsBits(bs)
  {
    if n == 0 then [] else MsbBits(data / 2, n - 1) + [data % 2]
  }

  /** Digit k of MsbBits(data, n) is bit n-1-k of data. */
  lemma {:induction false} MsbBitsDigit(data: nat, n: nat, k: nat)
    requires k < n
    ensures MsbBits(data, n)[k] == data / Pow2(n - 1 - k) % 2
  {
    if k == n - 1 {
      assert MsbBits(data, n)[k] == data % 2;
    } else {
      MsbBitsDigit(data / 2, n - 1, k);
      HalveThenDivide(data, n - 2 - k);
      assert MsbBits(data, n)[k] == MsbBits(data / 2, n - 1)[k];
    }
  }

  /** A list of n bits denotes a number below 2^n. */
  lemma {:induction false} MsbValueBound(bs: seq<nat>)
    requires IsBits(bs)
    ensures MsbValue(bs) < Pow2(|bs|)
  {
    if bs != [] {
      MsbValueBound(bs[..|bs| - 1]);
    }
  }

  /** Reading back the digits of a bit list's value gives the list. */
  lemma {:induction false} MsbBitsOfValue(bs: seq<nat>)
    requires IsBits(bs)
    ensures MsbBits(MsbValue(bs), |bs|) == bs
  {
    if bs != [] {
      var init, last := bs[..|bs| - 1], bs[|bs| - 1];
      DivModUnique(MsbValue(bs), 2, MsbValue(init), last);
      MsbBitsOfValue(init);
      assert bs == init + [last];
    }
  }

  /** Digit k of a bit list, counted from the most significant end, is
      bit |bs|-1-k of its value. */
  lemma MsbValueDigit(bs: seq<nat>, k: nat)
    requires IsBits(bs) && k < |bs|
    ensures MsbValue(bs) / Pow2(|bs| - 1 - k) % 2 == bs[k]
  {
    MsbBitsOfValue(bs);
    MsbBitsDigit(MsbValue(bs), |bs|, k);
  }

  /** The value of the lowest n digits of data is data modulo 2^n. */
  lemma {:induction false} MsbValueOfBits(data: nat, n: nat)
    ensures MsbValue(MsbBits(data, n)) == data % Pow2(n)
  {
    if n == 0 {
      DivModUnique(data, 1, data, 0);
    } else {
      var h := data / 2;
      var bs, rest := MsbBits(data, n), MsbBits(h, n - 1);
      assert bs == rest + [data % 2];
      assert bs[..n - 1] == rest;
      MsbValueOfBits(h, n - 1);
      assert MsbValue(bs) == 2 * (h % Pow2(n - 1)) + data % 2;
      DoubledRemainder(data, Pow2(n - 1));
    }
  }
}

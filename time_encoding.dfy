/**
  The 8-bit mantissa/exponent time format of the Vtime and Htime fields
  (section 3.3.2 of RFC 3626): a code with high nibble a and low nibble b
  stands for C * (1 + a/16) * 2^b seconds, with C = 1/16 s = 0.0625 s (section 18.1);
  the formulas below write C as that literal.

  Durations are exact reals here; the source computes on IEEE doubles.
 */
module TimeEncoding {
  import opened Bytes

  /** The scaling factor C of RFC 3626, in seconds. */
  const C: real := 0.0625

  /** The largest duration whose code has both nibbles below 16. */
  const MaxEncodable: real := 4032.0

  /** 2^n by doubling. */
  function Doubled(n: nat): (r: real)
    ensures r >= 1.0
  {
    if n == 0 then 1.0 else 2.0 * Doubled(n - 1)
  }

  /**
    2^b, the `1 << b` of the source, as a real. Kept non-recursive so that
    every occurrence of 2^b in a product is one and the same term.
   */
  function Pow2(n: nat): (r: real)
    ensures r >= 1.0
  {
    Doubled(n)
  }

  lemma Pow2Next(n: nat)
    ensures Pow2(n + 1) == 2.0 * Pow2(n)
  {
  }

  lemma {:induction false} Pow2Monotone(i: nat, j: nat)
    requires i <= j
    ensures Pow2(i) <= Pow2(j)
  {
    if i < j {
      Pow2Monotone(i, j - 1);
      Pow2Next(j - 1);
    }
  }

  /** 0.0625 * (1 + a/16) * 2^b seconds for the code with nibbles a and b. */
  function EmfToSeconds(code: byte): real
  {
    var a := code / 16;
    var b := code % 16;
    0.0625 * (1.0 + a as real / 16.0) * Pow2(b)
  }

  lemma Octave(a: real, p: real)
    requires 0.0 <= a < 16.0 && p >= 1.0
    ensures 0.0625 * p <= 0.0625 * (1.0 + a / 16.0) * p < 2.0 * 0.0625 * p
    ensures 0.0625 * (1.0 + a / 16.0) * p == (16.0 + a) * p / 256.0
  {
  }

  /**
    Decoding is exact in units of 1/256 s, (16 + a) * 2^b / 256, and the
    exponent nibble fixes the octave [0.0625 * 2^b, 0.0625 * 2^(b+1)).
   */
  lemma EmfToSecondsValue(code: byte)
    ensures var a, p := code / 16, Pow2(code % 16);
      && EmfToSeconds(code) == (16 + a) as real * p / 256.0
      && 0.0625 * p <= EmfToSeconds(code) < 2.0 * 0.0625 * p
  {
    var a := (code / 16) as real;
    var p := Pow2(code % 16);
    Octave(a, p);
    assert EmfToSeconds(code) == 0.0625 * (1.0 + a / 16.0) * p;
  }

  /** The largest b with 2^b <= x. */
  function Log2Floor(x: real): (b: nat)
    requires x >= 1.0
    ensures Pow2(b) <= x < Pow2(b + 1)
    decreases x.Floor
  {
    if x < 2.0 then 0 else 1 + Log2Floor(x / 2.0)
  }

  lemma Log2FloorUnique(x: real, k: nat)
    requires Pow2(k) <= x < Pow2(k + 1)
    ensures x >= 1.0 && Log2Floor(x) == k
  {
    var b := Log2Floor(x);
    if b < k {
      Pow2Monotone(b + 1, k);
    } else if b > k {
      Pow2Monotone(k + 1, b);
    }
  }

  /** std::ceil on reals. */
  function Ceil(x: real): (n: int)
    ensures (n - 1) as real < x <= n as real
  {
    -((-x).Floor)
  }

  /** Inputs below C are encoded as C. */
  function Clamp(seconds: real): (t: real)
    ensures t >= C && (seconds >= C ==> t == seconds)
    ensures seconds < C ==> t == C
  {
    if seconds < C then C else seconds
  }

  /** The exponent found by the search: the largest b with T/C >= 2^b. */
  function Exponent(t: real): nat
    requires t >= C
  {
    Log2Floor(t * 16.0)
  }

  /** x / 2^n, by halving n times. */
  function Halve(x: real, n: nat): real
    decreases n
  {
    if n == 0 then x else Halve(x / 2.0, n - 1)
  }

  lemma {:induction false} HalveTimesPow2(x: real, n: nat)
    ensures Halve(x, n) * Pow2(n) == x
    decreases n
  {
    if n > 0 {
      HalveTimesPow2(x / 2.0, n - 1);
      var h, q := Halve(x / 2.0, n - 1), Pow2(n - 1);
      assert h * (2.0 * q) == 2.0 * (h * q);
    }
  }

  /** Halve is division by 2^n; the source divides by C * (1 << b). */
  lemma HalveIsDivision(t: real, n: nat)
    ensures Halve(t * 16.0, n) == t * 16.0 / Pow2(n) == t / (0.0625 * Pow2(n))
  {
    HalveTimesPow2(t * 16.0, n);
  }

  /** x / 2^n lies in [1, 2) when x lies in the octave [2^n, 2^(n+1)). */
  lemma {:induction false} HalveInOctave(x: real, n: nat)
    requires Pow2(n) <= x < Pow2(n + 1)
    ensures 1.0 <= Halve(x, n) < 2.0
    decreases n
  {
    if n > 0 {
      HalveInOctave(x / 2.0, n - 1);
    }
  }

  /** Halving x = m * 2^n n times gives back m. */
  lemma HalveMultiple(x: real, m: real, p: real, n: nat)
    requires p == Pow2(n) && x == m * p
    ensures Halve(x, n) == m
  {
    var h := Halve(x, n);
    HalveTimesPow2(x, n);
    MulStrict(p, h, m);
    MulStrict(p, m, h);
  }

  /** Multiplying by a positive p keeps a strict order. */
  lemma MulStrict(p: real, x: real, y: real)
    requires p > 0.0
    ensures x > y ==> x * p > y * p
  {
    if x > y {
      PositiveProduct(p, x - y);
      assert p * (x - y) == x * p - y * p;
    }
  }

  /**
    The mantissa before the carry: 16 * (T / (C * 2^b) - 1), rounded as
    ceil(x - 0.5), that is to the nearest integer with ties toward the
    smaller mantissa.
   */
  function RawMantissa(t: real): (a: int)
    requires t >= C
    ensures 0 <= a <= 16
  {
    var b := Exponent(t);
    var y := 16.0 * (Halve(t * 16.0, b) - 1.0);
    HalveInOctave(t * 16.0, b);
    Ceil(y - 0.5)
  }

  /** The two halves of a code: the mantissa a and the exponent b. */
  datatype EmfNibbles = EmfNibbles(mantissa: int, exponent: int)

  /** The nibbles (a, b) after "if a == 16 then b++, a = 0". */
  function Nibbles(seconds: real): (ab: EmfNibbles)
    ensures 0 <= ab.mantissa < 16 && ab.exponent >= 0
  {
    var t := Clamp(seconds);
    var a := RawMantissa(t);
    var b := Exponent(t);
    if a == 16 then EmfNibbles(0, b + 1) else EmfNibbles(a, b)
  }

  /** With b = 15, the mantissa carries exactly when T/C exceeds 2^15 * 63/32. */
  lemma TopOctave(x: real)
    requires 32768.0 <= x < 65536.0
    ensures Ceil(16.0 * (x / 32768.0 - 1.0) - 0.5) == 16 <==> x > 64512.0
  {
  }

  /** Both nibbles fit in four bits exactly when the input is at most 4032 s. */
  lemma NibblesInRange(seconds: real)
    ensures Nibbles(seconds).exponent < 16 <==> seconds <= MaxEncodable
  {
    var t := Clamp(seconds);
    var x := t * 16.0;
    var b := Exponent(t);
    assert Pow2(b) <= x < Pow2(b + 1);
    Pow2Values();
    if b >= 16 {
      Pow2Monotone(16, b);
    } else if b <= 14 {
      Pow2Monotone(b + 1, 15);
    } else {
      HalveIsDivision(t, b);
      TopOctave(x);
    }
  }

  /** The code SecondsToEmf returns, for inputs whose nibbles fit. */
  function EmfCode(seconds: real): (code: byte)
    requires seconds <= MaxEncodable
  {
    NibblesInRange(seconds);
    var ab := Nibbles(seconds);
    ab.mantissa * 16 + ab.exponent
  }

  /**
    The encoder: clamp to C, search for b, round the mantissa to the nearest
    integer (ties toward the smaller one), carry
    into b when it reaches 16. The assertions of the source on the nibble
    ranges become the requires.
   */
  method SecondsToEmf(seconds: real) returns (code: byte)
    requires seconds <= MaxEncodable
    ensures code == EmfCode(seconds)
  {
    var t := seconds;
    if t < C {
      t := C;
    }
    var b: nat := 1;
    while t * 16.0 >= Pow2(b)
      invariant 1 <= b <= Log2Floor(t * 16.0) + 1
      invariant Pow2(b - 1) <= t * 16.0
      decreases Log2Floor(t * 16.0) + 1 - b
    {
      if b > Log2Floor(t * 16.0) {
        Pow2Monotone(Log2Floor(t * 16.0) + 1, b);
      }
      b := b + 1;
    }
    b := b - 1;
    Log2FloorUnique(t * 16.0, b);
    assert t == Clamp(seconds) && b == Exponent(t);
    var tmp := 16.0 * (t / (0.0625 * Pow2(b)) - 1.0);
    HalveIsDivision(t, b);
    var a := Ceil(tmp - 0.5);
    assert a == RawMantissa(t);
    if a == 16 {
      b := b + 1;
      a := 0;
    }
    assert EmfNibbles(a, b) == Nibbles(seconds);
    NibblesInRange(seconds);
    assert 0 <= a < 16 && 0 <= b < 16;
    code := a * 16 + b;
  }

  /** Every input below C gets the code of C, which is 0x00, and 0x00 decodes to C. */
  lemma BelowCEncodesAsZero(seconds: real)
    requires seconds <= C
    ensures EmfCode(seconds) == 0 && EmfToSeconds(0) == C
  {
    Log2FloorUnique(1.0, 0);
  }

  /** Decoding the nibbles (a, b) before the carry gives the same value as after it. */
  lemma CarryKeepsValue(b: nat)
    ensures 0.0625 * Pow2(b) * (1.0 + 16.0 / 16.0) == 0.0625 * Pow2(b + 1)
  {
  }

  /** s = C*p*(1 + a/16) and t = C*p*(1 + y/16) lie within half a step C*p/16 when |a - y| is at most a half. */
  lemma HalfStep(p: real, a: real, y: real, s: real, t: real)
    requires p >= 1.0 && y - 0.5 <= a < y + 0.5
    requires s == 0.0625 * p * (1.0 + a / 16.0) && t == 0.0625 * p * (1.0 + y / 16.0)
    ensures -(0.0625 * p / 16.0) / 2.0 <= s - t < (0.0625 * p / 16.0) / 2.0
  {
    var k, d := 0.0625 * p / 16.0, a - y;
    assert s - t == k * d;
    assert k > 0.0 && d + 0.5 >= 0.0 && 0.5 - d > 0.0;
    PositiveProduct(k, d + 0.5);
    PositiveProduct(k, 0.5 - d);
    assert k * (d + 0.5) == k * d + k * 0.5 && k * (0.5 - d) == k * 0.5 - k * d;
    assert k / 2.0 == k * 0.5;
  }

  lemma PositiveProduct(x: real, y: real)
    requires x > 0.0 && y >= 0.0
    ensures x * y >= 0.0 && (y > 0.0 ==> x * y > 0.0)
  {
  }

  lemma Pow2Values()
    ensures Pow2(15) == 32768.0 && Pow2(16) == 65536.0
  {
    assert Pow2(1) == 2.0 && Pow2(2) == 4.0 && Pow2(3) == 8.0 && Pow2(4) == 16.0;
    assert Pow2(5) == 32.0 && Pow2(6) == 64.0 && Pow2(7) == 128.0 && Pow2(8) == 256.0;
    assert Pow2(9) == 512.0 && Pow2(10) == 1024.0 && Pow2(11) == 2048.0 && Pow2(12) == 4096.0;
    assert Pow2(13) == 8192.0 && Pow2(14) == 16384.0;
  }

  /** The code of the nibbles (a, b) before the carry decodes to C * 2^b * (1 + a/16), carry or not. */
  lemma DecodeCarried(a: int, b: nat, code: byte)
    requires 0 <= a <= 16
    requires if a == 16 then b + 1 < 16 && code == b + 1 else b < 16 && code == a * 16 + b
    ensures EmfToSeconds(code) == 0.0625 * Pow2(b) * (1.0 + a as real / 16.0)
  {
    if a == 16 {
      assert code / 16 == 0 && code % 16 == b + 1;
      CarryKeepsValue(b);
    } else {
      assert code / 16 == a && code % 16 == b;
    }
  }

  /** EmfCode in terms of the exponent and the mantissa before the carry. */
  lemma EmfCodeCarry(seconds: real)
    requires seconds <= MaxEncodable
    ensures var t := Clamp(seconds);
      var a, b := RawMantissa(t), Exponent(t);
      if a == 16 then b + 1 < 16 && EmfCode(seconds) == b + 1
      else b < 16 && EmfCode(seconds) == a * 16 + b
  {
    NibblesInRange(seconds);
  }

  /** With 16t = h * p and a within a half of 16(h - 1), C * p * (1 + a/16) is within half a step of t. */
  lemma RoundedWithinHalfStep(t: real, p: real, h: real, a: real)
    requires p >= 1.0 && 1.0 <= h && h * p == t * 16.0
    requires 16.0 * (h - 1.0) - 0.5 <= a < 16.0 * (h - 1.0) + 0.5
    ensures -(0.0625 * p / 16.0) / 2.0 <= 0.0625 * p * (1.0 + a / 16.0) - t < (0.0625 * p / 16.0) / 2.0
    ensures 0.0625 * p <= t
  {
    var y := 16.0 * (h - 1.0);
    assert t == 0.0625 * p * (1.0 + y / 16.0);
    HalfStep(p, a, y, 0.0625 * p * (1.0 + a / 16.0), t);
    PositiveProduct(p, h - 1.0);
    assert p * (h - 1.0) == h * p - p;
  }

  /** C * 2^b * (1 + a/16), for the exponent b and rounded mantissa a of t, is within half a step of t. */
  lemma MantissaError(t: real, b: nat, a: int)
    requires t >= C && b == Exponent(t) && a == RawMantissa(t)
    ensures var p := Pow2(b);
      && -(0.0625 * p / 16.0) / 2.0 <= 0.0625 * p * (1.0 + a as real / 16.0) - t < (0.0625 * p / 16.0) / 2.0
      && 0.0625 * p <= t
  {
    var h := Halve(t * 16.0, b);
    HalveTimesPow2(t * 16.0, b);
    HalveInOctave(t * 16.0, b);
    assert 16.0 * (h - 1.0) - 0.5 <= a as real < 16.0 * (h - 1.0) + 0.5;
    RoundedWithinHalfStep(t, Pow2(b), h, a as real);
  }

  /** What the code for seconds decodes to, written with the nibbles before the carry. */
  lemma DecodedCode(seconds: real, t: real, a: int, b: nat, code: byte)
    requires seconds <= MaxEncodable && t == Clamp(seconds)
    requires a == RawMantissa(t) && b == Exponent(t) && code == EmfCode(seconds)
    ensures EmfToSeconds(code) == 0.0625 * Pow2(b) * (1.0 + a as real / 16.0)
  {
    EmfCodeCarry(seconds);
    DecodeCarried(a, b, code);
  }

  /** Quantization, for t, a, b and code named by the caller. */
  lemma QuantizationOf(seconds: real, t: real, a: int, b: nat, code: byte, s: real)
    requires seconds <= MaxEncodable && t == Clamp(seconds)
    requires a == RawMantissa(t) && b == Exponent(t) && code == EmfCode(seconds)
    requires s == EmfToSeconds(code)
    ensures -(0.0625 * Pow2(b) / 16.0) / 2.0 <= s - t < (0.0625 * Pow2(b) / 16.0) / 2.0
    ensures 0.0625 * Pow2(b) / 16.0 <= t / 16.0
  {
    DecodedCode(seconds, t, a, b, code);
    MantissaError(t, b, a);
  }

  /**
    The value the code for seconds decodes to lies within half a mantissa step
    (C * 2^b / 16, b the exponent) of the clamped input t, and that step is at
    most a sixteenth of t.
   */
  lemma Quantization(seconds: real)
    requires seconds <= MaxEncodable
    ensures var t := Clamp(seconds);
      var step := 0.0625 * Pow2(Exponent(t)) / 16.0;
      -step / 2.0 <= EmfToSeconds(EmfCode(seconds)) - t < step / 2.0 && step <= t / 16.0
  {
    var t := Clamp(seconds);
    QuantizationOf(seconds, t, RawMantissa(t), Exponent(t), EmfCode(seconds), EmfToSeconds(EmfCode(seconds)));
  }

  lemma MulMonotone(m: real, p: real, mMax: real, pMax: real)
    requires 0.0 <= m <= mMax && 0.0 <= p <= pMax
    ensures m * p <= mMax * pMax
  {
  }

  /** EmfToSeconds(code) as C * m * p, for the mantissa factor m and power p of the code. */
  lemma EmfToSecondsFactors(code: byte, m: real, p: real)
    requires m == 1.0 + (code / 16) as real / 16.0 && p == Pow2(code % 16)
    ensures EmfToSeconds(code) == 0.0625 * m * p
  {
  }

  /** t = C * m * p, for 1 <= m <= 31/16 and 1 <= p <= 2^15, lies in the octave of p and in range. */
  lemma OctaveBounds(t: real, m: real, p: real)
    requires t == 0.0625 * m * p && 1.0 <= m <= 31.0 / 16.0 && 1.0 <= p <= 32768.0
    ensures t * 16.0 == m * p && C <= t <= MaxEncodable && p <= t * 16.0 < 2.0 * p
  {
    MulMonotone(m, p, 31.0 / 16.0, 32768.0);
    PositiveProduct(p, m - 1.0);
    PositiveProduct(p, 2.0 - m);
    assert p * (m - 1.0) == m * p - p;
    assert p * (2.0 - m) == 2.0 * p - m * p;
    assert p * (2.0 - m) > 0.0;
    assert t * 16.0 == m * p;
    assert p <= m * p < 2.0 * p;
  }

  /** The value of a code, written with its mantissa factor m = 1 + a/16, lies in octave b. */
  lemma DecodedOctave(code: byte, a: int, b: nat, p: real, m: real)
    requires a == code / 16 && b == code % 16 && p == Pow2(b) && m == 1.0 + a as real / 16.0
    ensures var t := EmfToSeconds(code);
      && t * 16.0 == m * p && C <= t <= MaxEncodable
      && Pow2(b) <= t * 16.0 < Pow2(b + 1)
  {
    EmfToSecondsFactors(code, m, p);
    Pow2Monotone(b, 15);
    Pow2Values();
    Pow2Next(b);
    OctaveBounds(EmfToSeconds(code), m, p);
  }

  /** The exponent and mantissa the encoder finds for t = C * m * 2^b. */
  lemma EncodeOctave(t: real, a: int, b: nat, p: real, m: real)
    requires 0 <= a < 16 && p == Pow2(b) && m == 1.0 + a as real / 16.0
    requires t * 16.0 == m * p && C <= t && Pow2(b) <= t * 16.0 < Pow2(b + 1)
    ensures Exponent(t) == b && RawMantissa(t) == a
  {
    Log2FloorUnique(t * 16.0, b);
    HalveMultiple(t * 16.0, m, p, b);
  }

  /** Every code survives decoding and re-encoding. */
  lemma DecodeEncode(code: byte)
    ensures EmfToSeconds(code) <= MaxEncodable
    ensures EmfCode(EmfToSeconds(code)) == code
  {
    var a, b := code / 16, code % 16;
    var p, m := Pow2(b), 1.0 + a as real / 16.0;
    DecodedOctave(code, a, b, p, m);
    EncodeOctave(EmfToSeconds(code), a, b, p, m);
  }
}

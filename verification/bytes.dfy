/** Small shared vocabulary: an Option type, C integer ranges, the C rounding
    and truncation of a double to an int, and big-endian (network byte order)
    encodings of unsigned and two's-complement integers. */
module Options {

  datatype Option<+T> = None | Some(value: T)
}

module CInt {

  /** True iff `x` fits a signed C integer of `bits` bits. */
  predicate IsInt8(x: int) { -0x80 <= x < 0x80 }
  predicate IsInt16(x: int) { -0x8000 <= x < 0x8000 }
  predicate IsInt32(x: int) { -0x8000_0000 <= x < 0x8000_0000 }
  predicate IsUint16(x: int) { 0 <= x < 0x1_0000 }
  predicate IsUint32(x: int) { 0 <= x < 0x1_0000_0000 }

  function Abs(x: int): (r: nat)
    ensures r == x || r == -x
  {
    if x < 0 then -x else x
  }

  function AbsReal(x: real): (r: real)
    ensures r >= 0.0
    ensures r == x || r == -x
  {
    if x < 0.0 then -x else x
  }

  /** C's `(int)` cast of a double: truncation toward zero. */
  function Trunc(x: real): (r: int)
    ensures 0.0 <= x ==> 0 <= r && r as real <= x < r as real + 1.0
    ensures x < 0.0 ==> r <= 0 && r as real - 1.0 < x <= r as real
  {
    if x >= 0.0 then x.Floor else -((-x).Floor)
  }

  /** C's `round`: to the nearest integer, halfway cases away from zero. */
  function Round(x: real): (r: int)
    ensures 0.0 <= x ==> 0 <= r && r as real - 0.5 <= x < r as real + 0.5
    ensures x < 0.0 ==> r <= 0 && r as real - 0.5 < x <= r as real + 0.5
  {
    if x >= 0.0 then (x + 0.5).Floor else -((-x + 0.5).Floor)
  }

  /** Rounding never decreases when its argument grows. */
  lemma RoundMonotone(x: real, y: real)
    requires x <= y
    ensures Round(x) <= Round(y)
  {
    if x >= 0.0 {
      assert (x + 0.5).Floor <= (y + 0.5).Floor;
    } else if y >= 0.0 {
    } else {
      assert (-y + 0.5).Floor <= (-x + 0.5).Floor;
    }
  }

  /** C's `%` on int: the remainder takes the sign of the dividend (truncated
      division), unlike Dafny's Euclidean `%`. */
  function CRem(a: int, b: int): (r: int)
    requires b > 0
    ensures a >= 0 ==> 0 <= r < b
    ensures a < 0 ==> -b < r <= 0
    // the remainder differs from the dividend by a multiple of the divisor
    ensures (a - r) % b == 0
    // so it is Dafny's remainder, less `b` for a negative dividend
    ensures a < 0 && a % b != 0 ==> r == a % b - b
    ensures a % b == 0 ==> r == 0
  {
    if a >= 0 then
      MultipleMod(a / b, b);
      a % b
    else
      NegativeRemainder(a, b);
      -((-a) % b)
  }

  /** C's remainder of a negative dividend against Dafny's. */
  lemma NegativeRemainder(a: int, b: int)
    requires b > 0 && a < 0
    ensures var r := -((-a) % b);
            && (a - r) % b == 0
            && (a % b != 0 ==> r == a % b - b)
            && (a % b == 0 ==> r == 0)
  {
    var q, m := (-a) / b, (-a) % b;
    assert -a == q * b + m;
    assert a + m == (-q) * b;
    MultipleMod(-q, b);
    if m == 0 {
      RemainderUnique(a, b, 0, q);
    } else {
      RemainderUnique(a, b, b - m, q + 1);
    }
  }

  /** A multiple of `b` strictly between `-b` and `b` is zero. */
  lemma SmallMultipleIsZero(c: int, b: int)
    requires b > 0 && -b < c * b < b
    ensures c == 0
  {
  }

  /** A multiple of `b` leaves remainder zero. */
  lemma MultipleMod(k: int, b: int)
    requires b > 0
    ensures (k * b) % b == 0
  {
    var z := k * b;
    var q := z / b;
    assert z == q * b + z % b;
    assert (k - q) * b == z % b;
    SmallMultipleIsZero(k - q, b);
  }

  /** `a == -q * b + m` with `0 <= m < b` leaves remainder `m`. */
  lemma RemainderUnique(a: int, b: int, m: int, q: int)
    requires b > 0 && 0 <= m < b && a == (-q) * b + m
    ensures a % b == m
  {
    var p := a / b;
    assert a == p * b + a % b;
    assert (p + q) * b == m - a % b;
    SmallMultipleIsZero(p + q, b);
  }
}

module Bytes {

  /** An octet of a UDP datagram (`uint8_t`). */
  newtype byte = x: int | 0 <= x < 256

  /** 256 to the power `n`: the number of values `n` bytes can hold. */
  function Pow256(n: nat): (r: int)
    ensures r >= 1
  {
    if n == 0 then 1 else 256 * Pow256(n - 1)
  }

  /** The unsigned value of `bs` read most significant byte first. */
  function BeUnsigned(bs: seq<byte>): (r: nat)
    ensures r < Pow256(|bs|)
  {
    if |bs| == 0 then 0
    else BeUnsigned(bs[..|bs| - 1]) * 256 + bs[|bs| - 1] as int
  }

  /** The `n`-byte big-endian encoding of `x`. */
  function ToBeUnsigned(x: nat, n: nat): (r: seq<byte>)
    requires x < Pow256(n)
    ensures |r| == n
  {
    if n == 0 then []
    else ToBeUnsigned(x / 256, n - 1) + [(x % 256) as byte]
  }

  /** Two's-complement encoding of a signed `x` on `n` bytes. */
  function ToBeSigned(x: int, n: nat): (r: seq<byte>)
    requires n >= 1
    requires -Pow256(n) / 2 <= x < Pow256(n) / 2
    ensures |r| == n
  {
    ToBeUnsigned(if x < 0 then x + Pow256(n) else x, n)
  }

  /** Two's-complement reading of `bs` (big-endian). */
  function BeSigned(bs: seq<byte>): (r: int)
    requires |bs| >= 1
    ensures -Pow256(|bs|) / 2 <= r < Pow256(|bs|) / 2
  {
    var u := BeUnsigned(bs);
    PowEven(|bs|);
    if u >= Pow256(|bs|) / 2 then u - Pow256(|bs|) else u
  }

  lemma PowEven(n: nat)
    requires n >= 1
    ensures Pow256(n) % 2 == 0
  {
  }

  lemma {:induction false} DecodeEncodeUnsigned(x: nat, n: nat)
    requires x < Pow256(n)
    ensures BeUnsigned(ToBeUnsigned(x, n)) == x
  {
    if n > 0 {
      var q, m := x / 256, x % 256;
      assert Pow256(n) == 256 * Pow256(n - 1);
      DivBound(x, Pow256(n - 1));
      assert x == q * 256 + m;
      var hi := ToBeUnsigned(q, n - 1);
      var bs := hi + [m as byte];
      assert ToBeUnsigned(x, n) == bs;
      assert bs[..|bs| - 1] == hi;
      DecodeEncodeUnsigned(q, n - 1);
      assert bs[|bs| - 1] as int == m;
      assert BeUnsigned(bs) == BeUnsigned(hi) * 256 + m;
    }
  }

  lemma DivBound(x: nat, p: int)
    requires p >= 1
    requires x < 256 * p
    ensures x / 256 < p
  {
  }

  lemma {:induction false} EncodeDecodeUnsigned(bs: seq<byte>)
    ensures ToBeUnsigned(BeUnsigned(bs), |bs|) == bs
  {
    if |bs| > 0 {
      var init := bs[..|bs| - 1];
      var u := BeUnsigned(bs);
      var last := bs[|bs| - 1] as int;
      assert u == BeUnsigned(init) * 256 + last;
      assert u / 256 == BeUnsigned(init);
      assert u % 256 == last;
      EncodeDecodeUnsigned(init);
      assert bs == init + [bs[|bs| - 1]];
    }
  }

  /** The low `n` bytes of any integer, big-endian: what a store through a
      pointer `n` bytes wide leaves of a wider or negative value. */
  function LowBytes(x: int, n: nat): (r: seq<byte>)
    ensures |r| == n
    decreases n
  {
    if n == 0 then []
    else LowBytes(x / 256, n - 1) + [(x % 256) as byte]
  }

  /** On a value that fits, the low bytes are its unsigned encoding. */
  lemma {:induction false} LowBytesUnsigned(x: nat, n: nat)
    requires x < Pow256(n)
    ensures LowBytes(x, n) == ToBeUnsigned(x, n)
  {
    if n > 0 {
      DivBound(x, Pow256(n - 1));
      LowBytesUnsigned(x / 256, n - 1);
    }
  }

  /** Adding `256^n` does not change the low `n` bytes. */
  lemma {:induction false} LowBytesShift(x: int, n: nat)
    ensures LowBytes(x + Pow256(n), n) == LowBytes(x, n)
    decreases n
  {
    if n > 0 {
      var p := Pow256(n - 1);
      assert x + Pow256(n) == x + 256 * p;
      assert (x + 256 * p) / 256 == x / 256 + p;
      assert (x + 256 * p) % 256 == x % 256;
      LowBytesShift(x / 256, n - 1);
    }
  }

  /** On a signed value that fits, the low bytes are its two's-complement
      encoding. */
  lemma LowBytesSigned(x: int, n: nat)
    requires n >= 1
    requires -Pow256(n) / 2 <= x < Pow256(n) / 2
    ensures LowBytes(x, n) == ToBeSigned(x, n)
  {
    if x < 0 {
      LowBytesShift(x, n);
      LowBytesUnsigned(x + Pow256(n), n);
    } else {
      LowBytesUnsigned(x, n);
    }
  }

  /** Encoding a signed value and reading it back gives the value. */
  lemma DecodeEncodeSigned(x: int, n: nat)
    requires n >= 1
    requires -Pow256(n) / 2 <= x < Pow256(n) / 2
    ensures BeSigned(ToBeSigned(x, n)) == x
  {
    var p := Pow256(n);
    PowEven(n);
    assert p == 2 * (p / 2);
    var y := if x < 0 then x + p else x;
    DecodeEncodeUnsigned(y, n);
    assert BeUnsigned(ToBeSigned(x, n)) == y;
    assert x < 0 <==> y >= p / 2;
  }

  /** Reading `bs` as a signed value and encoding it back gives `bs`. */
  lemma EncodeDecodeSigned(bs: seq<byte>)
    requires |bs| >= 1
    ensures ToBeSigned(BeSigned(bs), |bs|) == bs
  {
    PowEven(|bs|);
    EncodeDecodeUnsigned(bs);
  }
}

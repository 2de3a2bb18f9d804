/** Fixed-width integers as bytes, in both byte orders. */
module Integers {
  import opened Digests

  function Zeros(n: nat): (z: Content)
    ensures |z| == n
  {
    seq(n, _ => 0)
  }

  function Power(width: nat): (p: nat)
    ensures p > 0
  {
    if width == 0 then 1 else 256 * Power(width - 1)
  }

  function LittleEndian(n: nat, width: nat): (b: Content)
    ensures |b| == width
  {
    if width == 0 then [] else [n % 256] + LittleEndian(n / 256, width - 1)
  }

  function FromLittle(b: Content): nat {
    if b == [] then 0 else b[0] + 256 * FromLittle(b[1..])
  }

  function BigEndian(n: nat, width: nat): (b: Content)
    ensures |b| == width
  {
    if width == 0 then [] else BigEndian(n / 256, width - 1) + [n % 256]
  }

  function FromBig(b: Content): nat {
    if b == [] then 0 else 256 * FromBig(b[..|b| - 1]) + b[|b| - 1]
  }

  lemma {:induction false} LittleRoundTrip(n: nat, width: nat)
    requires n < Power(width)
    ensures FromLittle(LittleEndian(n, width)) == n
  {
    if width > 0 {
      LittleRoundTrip(n / 256, width - 1);
      assert LittleEndian(n, width)[1..] == LittleEndian(n / 256, width - 1);
    }
  }

  /** Every byte sequence is the spelling of its value. */
  lemma {:induction false} LittleSpelled(b: Content)
    ensures FromLittle(b) < Power(|b|) && LittleEndian(FromLittle(b), |b|) == b
  {
    if b != [] {
      LittleSpelled(b[1..]);
      assert FromLittle(b) / 256 == FromLittle(b[1..]) && FromLittle(b) % 256 == b[0];
      assert b == [b[0]] + b[1..];
    }
  }

  lemma {:induction false} BigRoundTrip(n: nat, width: nat)
    requires n < Power(width)
    ensures FromBig(BigEndian(n, width)) == n
  {
    if width > 0 {
      BigRoundTrip(n / 256, width - 1);
      assert BigEndian(n, width)[..width - 1] == BigEndian(n / 256, width - 1);
    }
  }

  // ---- Byte by byte ----

  lemma Shifts(n: nat)
    ensures n / 256 / 256 == n / 65536 && n / 256 / 256 / 256 == n / 16777216
  {
  }

  /** The bytes of the integers in the formats, by weight. */
  lemma BytesTell(n: nat)
    ensures LittleEndian(n, 3) == [n % 256, n / 256 % 256, n / 65536 % 256]
    ensures LittleEndian(n, 4) == [n % 256, n / 256 % 256, n / 65536 % 256, n / 16777216 % 256]
    ensures BigEndian(n, 2) == [n / 256 % 256, n % 256]
    ensures BigEndian(n, 4) == [n / 16777216 % 256, n / 65536 % 256, n / 256 % 256, n % 256]
    ensures BigEndian(n, 8) == BigEndian(n / 256 / 16777216, 4) + BigEndian(n, 4)
  {
    hide LittleEndian, BigEndian;
    Shifts(n);
    Shifts(n / 256);
    LittleSteps(n);
    BigFour(n, n / 256, n / 256 / 256, n / 256 / 256 / 256);
    BigEight(n, n / 256, n / 256 / 256, n / 256 / 256 / 256, n / 256 / 256 / 256 / 256);
  }

  lemma LittleSteps(n: nat)
    ensures LittleEndian(n, 3) == [n % 256, n / 256 % 256, n / 256 / 256 % 256]
    ensures LittleEndian(n, 4) == [n % 256, n / 256 % 256, n / 256 / 256 % 256, n / 256 / 256 / 256 % 256]
  {
    var a, b, c := n / 256, n / 256 / 256, n / 256 / 256 / 256;
    assert LittleEndian(c, 1) == [c % 256];
    assert LittleEndian(b, 1) == [b % 256] && LittleEndian(b, 2) == [b % 256] + LittleEndian(c, 1);
    assert LittleEndian(a, 2) == [a % 256] + LittleEndian(b, 1) && LittleEndian(a, 3) == [a % 256] + LittleEndian(b, 2);
  }

  lemma BigFour(n: nat, a: nat, b: nat, c: nat)
    requires a == n / 256 && b == a / 256 && c == b / 256
    ensures BigEndian(n, 2) == [a % 256, n % 256]
    ensures BigEndian(n, 4) == [c % 256, b % 256, a % 256, n % 256]
  {
    hide BigEndian;
    NoBytes(c / 256);
    NoBytes(a / 256);
    BigLast(c, 0);
    BigLast(b, 1);
    BigLast(a, 2);
    BigLast(n, 3);
    BigLast(a, 0);
    BigLast(n, 1);
  }

  lemma NoBytes(n: nat)
    ensures BigEndian(n, 0) == []
  {
  }

  lemma BigEight(n: nat, a: nat, b: nat, c: nat, d: nat)
    requires a == n / 256 && b == a / 256 && c == b / 256 && d == c / 256
    ensures BigEndian(n, 8) == BigEndian(d, 4) + [c % 256, b % 256, a % 256, n % 256]
  {
    hide BigEndian;
    BigLast(n, 7);
    BigLast(a, 6);
    BigLast(b, 5);
    BigLast(c, 4);
  }

  lemma BigLast(n: nat, width: nat)
    ensures BigEndian(n, width + 1) == BigEndian(n / 256, width) + [n % 256]
  {
  }
}

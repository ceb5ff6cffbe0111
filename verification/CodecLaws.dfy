/** What the bytes of each type mean: the value every tag reads, when a read fails, and
    the number a single-precision float becomes. */
module CodecLaws {
  import opened Words
  import opened Endian
  import opened Wrappers
  import opened Codec

  // ------------------------------------------------------------ fixed widths

  /** A front part of exactly `k` bytes is what a fixed-width read sees. */
  lemma Front(bs: seq<byte>, rest: seq<byte>)
    ensures (bs + rest)[..|bs|] == bs
  {
  }

  /** The unsigned tags read the number their native-order bytes encode. */
  lemma ReadsUnsigned(n: nat, rest: seq<byte>)
    ensures n < 256 ==> UnpackOne(NeBytes(n, 1) + rest, TU8) == Ok((Int(n), 1))
    ensures n < TWO32 ==> UnpackOne(NeBytes(n, 4) + rest, TU32) == Ok((Int(n), 4))
    ensures n < TWO64 ==> UnpackOne(NeBytes(n, 8) + rest, TU64) == Ok((Int(n), 8))
  {
    hide NeBytes, NeNat, Pow256, Widen;
    Widths();
    Front(NeBytes(n, 1), rest);
    Front(NeBytes(n, 4), rest);
    Front(NeBytes(n, 8), rest);
    if n < 256 {
      NeRoundTrip(n, 1);
    }
    if n < TWO32 {
      NeRoundTrip(n, 4);
    }
    if n < TWO64 {
      NeRoundTrip(n, 8);
    }
  }

  /** The signed tags read the number whose two's complement the bytes encode. */
  lemma ReadsSigned(i: int, rest: seq<byte>)
    ensures -0x8000_0000 <= i < 0x8000_0000 ==>
              UnpackOne(NeBytes(i % TWO32, 4) + rest, TI32) == Ok((Int(i), 4))
    ensures -0x8000_0000_0000_0000 <= i < 0x8000_0000_0000_0000 ==>
              && UnpackOne(NeBytes(i % TWO64, 8) + rest, TI64) == Ok((Int(i), 8))
              && UnpackOne(NeBytes(i % TWO64, 8) + rest, TInt) == Ok((Int(i), 8))
  {
    hide NeBytes, NeNat, Pow256, Widen;
    Widths();
    var u, v := i % TWO32, i % TWO64;
    Front(NeBytes(u, 4), rest);
    Front(NeBytes(v, 8), rest);
    NeRoundTrip(u, 4);
    NeRoundTrip(v, 8);
  }

  /** The double tags read the bit pattern itself, and `bool` any non-zero byte as true. */
  lemma ReadsDoubleAndBool(bits: word64, b: byte, rest: seq<byte>)
    ensures UnpackOne(NeBytes(bits, 8) + rest, TFloat) == Ok((Float(bits), 8))
    ensures UnpackOne(NeBytes(bits, 8) + rest, TF64) == Ok((Float(bits), 8))
    ensures UnpackOne([b] + rest, TBool) == Ok((Bool(b != 0), 1))
  {
    hide NeBytes, NeNat, Pow256, Widen;
    Widths();
    Front(NeBytes(bits, 8), rest);
    NeRoundTrip(bits, 8);
  }

  /** `str` reads the bytes after a length prefix that tells how many they are. */
  lemma ReadsStr(s: seq<byte>, rest: seq<byte>)
    requires |s| < TWO32
    ensures UnpackOne(NeBytes(|s|, 4) + s + rest, TStr) == Ok((Str(s), 4 + |s|))
  {
    hide NeBytes, NeNat, Pow256, Interpret;
    Widths();
    NeRoundTrip(|s|, 4);
    var data := NeBytes(|s|, 4) + s + rest;
    assert data[..4] == NeBytes(|s|, 4) && data[4..4 + |s|] == s;
  }

  /** When a read fails: for an unknown tag, or when fewer bytes are left than the type,
      or the string and its prefix, takes. */
  lemma ReadFailsExactly(data: seq<byte>, tag: Tag)
    ensures UnpackOne(data, tag).Err? <==>
            match tag
            case TBool | TU8 => |data| < 1
            case TF32 | TI32 | TU32 => |data| < 4
            case TInt | TI64 | TFloat | TF64 | TU64 => |data| < 8
            case TStr => |data| < 4 || |data| - 4 < NeNat(data[..4])
            case Unknown(_) => true
  {
    hide Interpret;
  }

  // ------------------------------------------- single precision, widened

  /** A binary interchange format of IEEE 754, section 3.4: how many mantissas and
      exponents there are, and the power of two, in units of 2^-1074, of the lowest
      mantissa bit of its smallest numbers. */
  datatype Format = Format(mantissas: nat, exponents: nat, unit: nat)

  const SINGLE := Format(0x80_0000, 0x100, 925)
  const DOUBLE := Format(0x10_0000_0000_0000, 0x800, 0)

  datatype Class = ZeroNumber | FiniteNumber | Infinite | NotANumber

  predicate IsFormat(f: Format) {
    f == SINGLE || f == DOUBLE
  }

  function Mantissa(f: Format, u: nat): nat
    requires IsFormat(f)
  {
    u % f.mantissas
  }

  function Exponent(f: Format, u: nat): nat
    requires IsFormat(f)
  {
    u / f.mantissas % f.exponents
  }

  function Sign(f: Format, u: nat): nat
    requires IsFormat(f)
  {
    u / f.mantissas / f.exponents
  }

  function Classify(f: Format, u: nat): Class
    requires IsFormat(f)
  {
    if Exponent(f, u) == f.exponents - 1 then if Mantissa(f, u) == 0 then Infinite else NotANumber
    else if Exponent(f, u) == 0 && Mantissa(f, u) == 0 then ZeroNumber
    else FiniteNumber
  }

  /** The absolute value of a number that is not infinite, in units of 2^-1074. */
  function Magnitude(f: Format, u: nat): nat
    requires IsFormat(f)
  {
    var e, m := Exponent(f, u), Mantissa(f, u);
    if e == 0 then m * Pow2(f.unit) else (f.mantissas + m) * Pow2(e - 1 + f.unit)
  }

  /** A double put together from its parts has those parts. */
  lemma DoubleParts(sign: nat, e: nat, m: nat)
    requires e < 0x800 && m < 0x10_0000_0000_0000
    ensures var u := sign * 0x8000_0000_0000_0000 + e * 0x10_0000_0000_0000 + m;
            Sign(DOUBLE, u) == sign && Exponent(DOUBLE, u) == e && Mantissa(DOUBLE, u) == m
  {
    var u := sign * 0x8000_0000_0000_0000 + e * 0x10_0000_0000_0000 + m;
    assert u == (sign * 0x800 + e) * 0x10_0000_0000_0000 + m;
    assert u / 0x10_0000_0000_0000 == sign * 0x800 + e;
  }

  lemma Pow2Values()
    ensures Pow2(0) == 1 && Pow2(23) == 0x80_0000 && Pow2(29) == 0x2000_0000
  {
    assert Pow2(11) == 0x800;
    Pow2Sum(11, 11);
    assert Pow2(22) == 0x40_0000;
    assert Pow2(6) == 64;
    Pow2Sum(23, 6);
  }

  lemma MulAssoc(a: nat, b: nat, c: nat)
    ensures a * (b * c) == (a * b) * c
  {
  }

  /** Mantissas of the double are those of the single, 2^29 times as fine. */
  lemma Finer(m: nat, e: nat)
    ensures m * Pow2(e + 29) == (m * 0x2000_0000) * Pow2(e)
  {
    hide Pow2;
    Pow2Values();
    Pow2Sum(29, e);
    MulAssoc(m, 0x2000_0000, Pow2(e));
  }

  lemma Doubled(m: nat, e: nat)
    ensures m * Pow2(e + 1) == (2 * m) * Pow2(e)
  {
    assert Pow2(e + 1) == 2 * Pow2(e);
  }

  /** Normalising a subnormal mantissa keeps the number. */
  lemma {:induction false} SubnormalKeepsMagnitude(m: nat, e: nat)
    requires 0 < m < 0x100_0000 && 1 <= e <= 897 && m * Pow2(e - 1) >= 0x80_0000
    ensures var r := WidenSubnormal(m, e);
            && r < 0x8000_0000_0000_0000
            && Sign(DOUBLE, r) == 0 && 0 < Exponent(DOUBLE, r) <= 897
            && Magnitude(DOUBLE, r) == m * Pow2(e + 28)
    decreases 0x100_0000 - m
  {
    hide Pow2, Sign, Exponent, Mantissa;
    Pow2Values();
    if m >= 0x80_0000 {
      NormalMantissa(m, e);
    } else {
      assert e > 1;
      Doubled(m, e - 2);
      Doubled(m, e + 27);
      SubnormalKeepsMagnitude(2 * m, e - 1);
    }
  }

  lemma NormalMantissa(m: nat, e: nat)
    requires 0x80_0000 <= m < 0x100_0000 && 1 <= e <= 897
    ensures var r := WidenSubnormal(m, e);
            && r < 0x8000_0000_0000_0000
            && Sign(DOUBLE, r) == 0 && Exponent(DOUBLE, r) == e
            && Magnitude(DOUBLE, r) == m * Pow2(e + 28)
  {
    hide Pow2, Sign, Exponent, Mantissa;
    var low := m % 0x80_0000 * 0x2000_0000;
    DoubleParts(0, e, low);
    Finer(m, e - 1);
    assert m * 0x2000_0000 == 0x10_0000_0000_0000 + low;
  }

  lemma SmallestSubnormal(m: nat, e: nat)
    requires m > 0 && e >= 24
    ensures m * Pow2(e - 1) >= 0x80_0000
  {
    hide Pow2;
    Pow2Values();
    Pow2Sum(23, e - 24);
    AtLeast(0x80_0000, Pow2(e - 24));
    AtLeast(Pow2(e - 1), m);
  }

  lemma AtLeast(a: nat, b: nat)
    requires b > 0
    ensures a * b >= a && b * a >= a
  {
  }

  /** The parts `Widen` takes a single apart into. */
  lemma SingleParts(w: nat)
    requires w < TWO32
    ensures Sign(SINGLE, w) == w / 0x8000_0000 <= 1
    ensures Exponent(SINGLE, w) == w / 0x80_0000 % 256 < 0x100
    ensures Mantissa(SINGLE, w) == w % 0x80_0000 < 0x80_0000
  {
    assert w / 0x80_0000 / 0x100 == w / 0x8000_0000;
  }

  /** The same number in both formats. */
  predicate SameNumber(u: nat, w: nat) {
    && Sign(DOUBLE, u) == Sign(SINGLE, w)
    && Classify(DOUBLE, u) == Classify(SINGLE, w)
    && (Classify(SINGLE, w) in {ZeroNumber, FiniteNumber} ==> Magnitude(DOUBLE, u) == Magnitude(SINGLE, w))
    && (Classify(SINGLE, w).NotANumber? ==> Mantissa(DOUBLE, u) == Mantissa(SINGLE, w) * 0x2000_0000)
  }

  /** Widening is exact: sign, class and number of every single are those of the double,
      and a NaN keeps its payload. */
  lemma WidenExact(w: nat)
    requires w < TWO32
    ensures SameNumber(Widen(w), w)
  {
    hide Pow2, WidenSubnormal, Sign, Exponent, Mantissa;
    SingleParts(w);
    var s, e, m := Sign(SINGLE, w), Exponent(SINGLE, w), Mantissa(SINGLE, w);
    if e == 255 {
      DoubleParts(s, 0x7FF, m * 0x2000_0000);
    } else if e > 0 {
      DoubleParts(s, e + 896, m * 0x2000_0000);
      Finer(0x80_0000 + m, e + 895);
    } else if m == 0 {
      DoubleParts(s, 0, 0);
    } else {
      WidenSubnormalExact(w);
    }
  }

  lemma WidenSubnormalExact(w: nat)
    requires w < TWO32 && Exponent(SINGLE, w) == 0 && Mantissa(SINGLE, w) > 0
    ensures SameNumber(Widen(w), w)
  {
    hide Pow2, WidenSubnormal, Sign, Exponent, Mantissa;
    SingleParts(w);
    var s, m := Sign(SINGLE, w), Mantissa(SINGLE, w);
    SmallestSubnormal(m, 897);
    SubnormalKeepsMagnitude(m, 897);
    var r := WidenSubnormal(m, 897);
    DoubleIsParts(r);
    DoubleParts(s, Exponent(DOUBLE, r), Mantissa(DOUBLE, r));
  }

  lemma DoubleIsParts(r: nat)
    requires Sign(DOUBLE, r) == 0
    ensures r == Exponent(DOUBLE, r) * 0x10_0000_0000_0000 + Mantissa(DOUBLE, r)
    ensures Exponent(DOUBLE, r) < 0x800 && Mantissa(DOUBLE, r) < 0x10_0000_0000_0000
  {
    var q := r / 0x10_0000_0000_0000;
    assert q / 0x800 == 0 && q % 0x800 == q;
  }

  /** `f32` reads the double that is the same number as the single its bytes encode. */
  lemma ReadsSingle(w: nat, rest: seq<byte>)
    requires w < TWO32
    ensures var r := UnpackOne(NeBytes(w, 4) + rest, TF32);
            && r.Ok? && r.value.1 == 4 && r.value.0.Float?
            && SameNumber(r.value.0.bits, w)
  {
    hide NeBytes, NeNat, Pow256, Widen, SameNumber;
    Widths();
    Front(NeBytes(w, 4), rest);
    NeRoundTrip(w, 4);
    WidenExact(w);
  }
}

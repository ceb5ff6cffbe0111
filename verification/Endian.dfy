/** Fixed-width integers as native-order bytes (`to_ne_bytes`, `from_ne_bytes`). */
module Endian {
  import opened Words

  datatype ByteOrder = Little | Big

  /** The target's byte order. It is fixed but not chosen: every proof holds for both. */
  const NATIVE: ByteOrder

  function Pow256(w: nat): nat {
    if w == 0 then 1 else 256 * Pow256(w - 1)
  }

  function LittleBytes(n: nat, w: nat): (bs: seq<byte>)
    ensures |bs| == w
  {
    if w == 0 then [] else [n % 256] + LittleBytes(n / 256, w - 1)
  }

  function LittleNat(bs: seq<byte>): nat {
    if bs == [] then 0 else bs[0] + 256 * LittleNat(bs[1..])
  }

  function BigBytes(n: nat, w: nat): (bs: seq<byte>)
    ensures |bs| == w
  {
    if w == 0 then [] else BigBytes(n / 256, w - 1) + [n % 256]
  }

  function BigNat(bs: seq<byte>): nat {
    if bs == [] then 0 else 256 * BigNat(bs[..|bs| - 1]) + bs[|bs| - 1]
  }

  function NeBytes(n: nat, w: nat): (bs: seq<byte>)
    ensures |bs| == w
  {
    if NATIVE.Little? then LittleBytes(n, w) else BigBytes(n, w)
  }

  function NeNat(bs: seq<byte>): nat {
    if NATIVE.Little? then LittleNat(bs) else BigNat(bs)
  }

  lemma {:induction false} LittleRoundTrip(n: nat, w: nat)
    requires n < Pow256(w)
    ensures LittleNat(LittleBytes(n, w)) == n
  {
    if w > 0 {
      LittleRoundTrip(n / 256, w - 1);
      assert LittleBytes(n, w)[1..] == LittleBytes(n / 256, w - 1);
    }
  }

  lemma {:induction false} BigRoundTrip(n: nat, w: nat)
    requires n < Pow256(w)
    ensures BigNat(BigBytes(n, w)) == n
  {
    if w > 0 {
      BigRoundTrip(n / 256, w - 1);
      assert BigBytes(n, w)[..w - 1] == BigBytes(n / 256, w - 1);
    }
  }

  lemma DivDiv(n: nat, b: nat)
    requires b > 0
    ensures n / 256 / b == n / (256 * b)
  {
    var q, r := n / 256 / b, n / 256 % b;
    assert n / 256 == b * q + r;
    assert n == 256 * (b * q + r) + n % 256;
    var low := 256 * r + n % 256;
    assert 0 <= low < 256 * b;
    assert n == (256 * b) * q + low;
    QuotientIs(n, 256 * b, q, low);
  }

  lemma QuotientIs(n: int, d: int, q: int, r: int)
    requires 0 <= r < d && n == d * q + r
    ensures n / d == q
  {
    assert d * (n / d - q) == r - n % d;
    SmallMultiple(d, n / d - q);
  }

  lemma SmallMultiple(d: int, x: int)
    requires -d < d * x < d
    ensures x == 0
  {
  }

  lemma {:induction false} ByteAt(n: nat, w: nat, k: nat)
    requires k < w
    ensures Pow256(k) > 0
    ensures LittleBytes(n, w)[k] == n / Pow256(k) % 256
    ensures BigBytes(n, w)[w - 1 - k] == n / Pow256(k) % 256
  {
    if k > 0 {
      ByteAt(n / 256, w - 1, k - 1);
      DivDiv(n, Pow256(k - 1));
    }
  }

  /** Which byte is where: digit `k` of the number is byte `k` in little-endian order, and
      byte `k` from the end in big-endian order. */
  lemma NeByteAt(n: nat, w: nat, k: nat)
    requires k < w
    ensures Pow256(k) > 0
    ensures NeBytes(n, w)[if NATIVE.Little? then k else w - 1 - k] == n / Pow256(k) % 256
  {
    ByteAt(n, w, k);
  }

  /** Decoding the encoding gives the number back, in either byte order. */
  lemma NeRoundTrip(n: nat, w: nat)
    requires n < Pow256(w)
    ensures NeNat(NeBytes(n, w)) == n
  {
    LittleRoundTrip(n, w);
    BigRoundTrip(n, w);
  }

  lemma {:induction false} NeRange(bs: seq<byte>)
    ensures LittleNat(bs) < Pow256(|bs|) && BigNat(bs) < Pow256(|bs|)
    ensures NeNat(bs) < Pow256(|bs|)
    decreases |bs|
  {
    if bs != [] {
      NeRange(bs[1..]);
      NeRange(bs[..|bs| - 1]);
    }
  }

  lemma LastDigit(n: nat, d: byte)
    ensures (256 * n + d) % 256 == d && (256 * n + d) / 256 == n
  {
  }

  lemma LittleStep(d: byte, n: nat, w: nat)
    ensures LittleBytes(d + 256 * n, w + 1) == [d] + LittleBytes(n, w)
  {
    LastDigit(n, d);
  }

  lemma {:induction false} LittleInverse(bs: seq<byte>)
    ensures LittleBytes(LittleNat(bs), |bs|) == bs
  {
    if bs != [] {
      hide LittleBytes;
      LittleInverse(bs[1..]);
      LittleStep(bs[0], LittleNat(bs[1..]), |bs| - 1);
    } else {
      assert LittleBytes(0, 0) == [];
    }
  }

  lemma BigStep(n: nat, d: byte, w: nat)
    ensures BigBytes(256 * n + d, w + 1) == BigBytes(n, w) + [d]
  {
    LastDigit(n, d);
  }

  lemma {:induction false} BigInverse(bs: seq<byte>)
    ensures BigBytes(BigNat(bs), |bs|) == bs
  {
    if bs != [] {
      hide BigBytes;
      BigInverse(bs[..|bs| - 1]);
      BigStep(BigNat(bs[..|bs| - 1]), bs[|bs| - 1], |bs| - 1);
    } else {
      assert BigBytes(0, 0) == [];
    }
  }

  /** Every byte string of width `w` is the encoding of the number it decodes to. */
  lemma NeInverse(bs: seq<byte>)
    ensures NeBytes(NeNat(bs), |bs|) == bs
  {
    LittleInverse(bs);
    BigInverse(bs);
  }

  lemma Widths()
    ensures Pow256(1) == 256 && Pow256(4) == TWO32 && Pow256(8) == TWO64
  {
    assert Pow256(4) == 256 * (256 * (256 * (256 * Pow256(0))));
    assert Pow256(8) == 256 * (256 * (256 * (256 * Pow256(4))));
  }

  /** Two's complement reading of a `w`-byte word, for `i32` and `i64`. */
  function Signed(u: nat, size: nat): int {
    if u < size / 2 then u else u - size
  }
}

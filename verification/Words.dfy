/** Machine words: bytes, the 64-bit wrap-around of `usize`, and the bit mask
    that turns a growing counter into an index of a power-of-two array. */
module Words {

  const TWO32: nat := 0x1_0000_0000
  const TWO64: nat := 0x1_0000_0000_0000_0000

  type byte = x: int | 0 <= x < 256

  /** A `usize` result on a 64-bit target in a release build. */
  function Wrap(x: int): (w: nat)
    ensures w < TWO64
  {
    x % TWO64
  }

  function SaturatingAdd(x: nat, y: nat): nat {
    if x + y < TWO64 then x + y else TWO64 - 1
  }

  function SaturatingSub(x: nat, y: nat): nat {
    if y <= x then x - y else 0
  }

  /** `bytes` with `src` copied to `pos`. */
  function Splice(bytes: seq<byte>, pos: nat, src: seq<byte>): (r: seq<byte>)
    requires pos + |src| <= |bytes|
    ensures |r| == |bytes|
  {
    bytes[..pos] + src + bytes[pos + |src|..]
  }

  lemma Assoc<T>(a: seq<T>, b: seq<T>, c: seq<T>)
    ensures (a + b) + c == a + (b + c)
  {
  }

  predicate IsPowerOfTwo(n: nat): (yes: bool)
    ensures yes ==> n > 0
  {
    n == 1 || (n > 1 && n % 2 == 0 && IsPowerOfTwo(n / 2))
  }

  /** Bitwise `&`, one bit at a time. */
  function And(a: nat, b: nat): nat {
    if a == 0 || b == 0 then 0
    else 2 * And(a / 2, b / 2) + (if a % 2 == 1 && b % 2 == 1 then 1 else 0)
  }

  /** One unfolding of the mask. */
  lemma MaskStep(x: nat, n: nat)
    requires IsPowerOfTwo(n) && n > 1
    ensures And(x, n - 1) == 2 * And(x / 2, n / 2 - 1) + x % 2
  {
    assert (n - 1) % 2 == 1 && (n - 1) / 2 == n / 2 - 1;
  }

  /** The mask keeps a value already in range. */
  lemma {:induction false} MaskKeeps(r: nat, n: nat)
    requires IsPowerOfTwo(n) && r < n
    ensures And(r, n - 1) == r
  {
    if n > 1 && r > 0 {
      MaskStep(r, n);
      MaskKeeps(r / 2, n / 2);
    }
  }

  /** `z` has at least as many trailing zero bits as `n`. */
  predicate Aligned(z: nat, n: nat)
    requires IsPowerOfTwo(n)
  {
    n == 1 || (z % 2 == 0 && Aligned(z / 2, n / 2))
  }

  lemma {:induction false} MultipleIsAligned(big: nat, k: nat, n: nat)
    requires IsPowerOfTwo(n) && IsPowerOfTwo(big) && n <= big
    ensures big * k >= 0 && Aligned(big * k, n)
  {
    if n > 1 {
      MultipleIsAligned(big / 2, k, n / 2);
      assert big * k == 2 * (big / 2 * k);
    }
  }

  lemma {:induction false} MaskDropsAligned(x: nat, z: nat, n: nat)
    requires IsPowerOfTwo(n) && Aligned(z, n)
    ensures And(x + z, n - 1) == And(x, n - 1)
  {
    if n > 1 {
      MaskStep(x, n);
      MaskStep(x + z, n);
      MaskDropsAligned(x / 2, z / 2, n / 2);
      assert (x + z) / 2 == x / 2 + z / 2;
    }
  }

  lemma DivMod(x: nat, n: nat) returns (q: nat, r: nat)
    requires n > 0
    ensures x == n * q + r && r < n && r == x % n && q == x / n
  {
    q, r := x / n, x % n;
  }

  /** Masking with `n - 1` is reduction modulo `n`, for a power of two `n`. */
  lemma MaskIsMod(x: nat, n: nat)
    requires IsPowerOfTwo(n)
    ensures And(x, n - 1) == x % n
  {
    var q, r := DivMod(x, n);
    MultipleIsAligned(n, q, n);
    MaskDropsAligned(r, n * q, n);
    MaskKeeps(r, n);
    assert And(x, n - 1) == r;
  }

  lemma {:induction false} MaskInRange(x: nat, n: nat)
    requires IsPowerOfTwo(n)
    ensures And(x, n - 1) < n
  {
    if n > 1 {
      MaskStep(x, n);
      MaskInRange(x / 2, n / 2);
    }
  }

  /** Two positions less than `n` apart never share a cell. */
  lemma {:induction false} MaskInjective(p: nat, q: nat, n: nat)
    requires IsPowerOfTwo(n)
    requires p < q < p + n
    ensures And(p, n - 1) != And(q, n - 1)
  {
    if n > 1 {
      MaskStep(p, n);
      MaskStep(q, n);
      if p % 2 == q % 2 {
        MaskInjective(p / 2, q / 2, n / 2);
      }
    }
  }

  function Pow2(k: nat): (p: nat)
    ensures p > 0
  {
    if k == 0 then 1 else 2 * Pow2(k - 1)
  }

  lemma {:induction false} Pow2Sum(a: nat, b: nat)
    ensures Pow2(a + b) == Pow2(a) * Pow2(b)
  {
    if a > 0 {
      Pow2Sum(a - 1, b);
    }
  }

  lemma {:induction false} Exponent(n: nat) returns (k: nat)
    requires IsPowerOfTwo(n)
    ensures n == Pow2(k)
  {
    if n == 1 {
      k := 0;
    } else {
      k := Exponent(n / 2);
      k := k + 1;
    }
  }

  lemma {:induction false} Pow2IsPower(k: nat)
    ensures IsPowerOfTwo(Pow2(k))
  {
    if k > 0 {
      Pow2IsPower(k - 1);
      assert Pow2(k) / 2 == Pow2(k - 1);
    }
  }

  /** Repeated halving finds exactly the powers of two. */
  lemma PowerOfTwoExact(n: nat)
    ensures IsPowerOfTwo(n) <==> exists k: nat :: n == Pow2(k)
  {
    hide IsPowerOfTwo, Pow2;
    if IsPowerOfTwo(n) {
      var k := Exponent(n);
    }
    if k: nat :| n == Pow2(k) {
      Pow2IsPower(k);
    }
  }

  lemma PowerDouble(n: nat)
    requires IsPowerOfTwo(n)
    ensures IsPowerOfTwo(2 * n)
  {
    assert 2 * n / 2 == n;
  }

  lemma {:induction false} PowerProduct(a: nat, b: nat)
    requires IsPowerOfTwo(a) && IsPowerOfTwo(b)
    ensures IsPowerOfTwo(a * b)
  {
    if a > 1 {
      var h := a / 2;
      PowerProduct(h, b);
      PowerDouble(h * b);
      assert a * b == 2 * (h * b);
    } else {
      assert a * b == b;
    }
  }

  lemma WordSizeIsPower()
    ensures IsPowerOfTwo(TWO64)
  {
    assert IsPowerOfTwo(256);
    PowerProduct(256, 256);
    PowerProduct(0x1_0000, 0x1_0000);
    PowerProduct(TWO32, TWO32);
  }

  /** Reducing a counter modulo 2^64 does not change the cell it names. */
  lemma MaskOfWrap(x: nat, n: nat)
    requires IsPowerOfTwo(n) && n <= TWO64
    ensures And(Wrap(x), n - 1) == And(x, n - 1)
  {
    hide And, Aligned, IsPowerOfTwo;
    WordSizeIsPower();
    var q, r := DivMod(x, TWO64);
    MultipleIsAligned(TWO64, q, n);
    MaskDropsAligned(r, TWO64 * q, n);
  }

  /** `wrapping_sub` of two wrapped counters is their true difference while
      the difference fits a word, and the counters are equal exactly when it is 0. */
  lemma WrapDifference(hi: nat, lo: nat)
    requires lo <= hi < lo + TWO64
    ensures Wrap(Wrap(hi) - Wrap(lo)) == hi - lo
    ensures Wrap(hi) == Wrap(lo) <==> hi == lo
  {
  }
}

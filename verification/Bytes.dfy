/** Options, bytes, and fixed-width little- and big-endian integers. */
module Bytes {
  datatype Option<+T> = None | Some(value: T)

  datatype Result<+T, +E> = Ok(value: T) | Err(error: E)

  type byte = x: int | 0 <= x < 256

  type bytes = seq<byte>

  const TWO_32: nat := 0x1_0000_0000

  const TWO_64: nat := 0x1_0000_0000_0000_0000

  /** The first `n` bytes of both are the same. */
  ghost predicate Agree(b: bytes, c: bytes, n: nat) {
    n <= |b| && n <= |c| && forall i | 0 <= i < n :: b[i] == c[i]
  }

  lemma AgreeSplit(b: bytes, c: bytes, n: nat, m: nat)
    requires Agree(b, c, n + m)
    ensures Agree(b, c, n) && Agree(b[n..], c[n..], m)
  {
  }

  function Pow256(k: nat): (p: nat)
    ensures p >= 1
  {
    if k == 0 then 1 else 256 * Pow256(k - 1)
  }

  /** Python's `n.to_bytes(k, "little")` of `n` reduced to `k` bytes. */
  function LeBytes(n: nat, k: nat): (b: bytes)
    ensures |b| == k
  {
    if k == 0 then [] else [n % 256] + LeBytes(n / 256, k - 1)
  }

  function LeNat(b: bytes): (n: nat)
    ensures n < Pow256(|b|)
  {
    if b == [] then 0 else
      var t := LeNat(b[1..]);
      assert Pow256(|b|) == 256 * Pow256(|b| - 1);
      b[0] + 256 * t
  }

  /** `k` bytes hold exactly the numbers below `256^k`, without loss. */
  lemma {:induction false} LeNatOfBytes(n: nat, k: nat)
    requires n < Pow256(k)
    ensures LeNat(LeBytes(n, k)) == n
  {
    if k > 0 {
      assert n / 256 < Pow256(k - 1);
      LeNatOfBytes(n / 256, k - 1);
      assert LeBytes(n, k)[1..] == LeBytes(n / 256, k - 1);
    }
  }

  /** Big-endian: the counter arithmetic of CTR mode works on this reading of a block. */
  function BeBytes(n: nat, k: nat): (b: bytes)
    ensures |b| == k
  {
    if k == 0 then [] else BeBytes(n / 256, k - 1) + [n % 256]
  }

  function BeNat(b: bytes): (n: nat)
    ensures n < Pow256(|b|)
  {
    if b == [] then 0 else
      var t := BeNat(b[..|b| - 1]);
      assert Pow256(|b|) == 256 * Pow256(|b| - 1);
      256 * t + b[|b| - 1]
  }

  lemma {:induction false} BeNatOfBytes(n: nat, k: nat)
    requires n < Pow256(k)
    ensures BeNat(BeBytes(n, k)) == n
  {
    if k > 0 {
      assert n / 256 < Pow256(k - 1);
      BeNatOfBytes(n / 256, k - 1);
      assert BeBytes(n, k)[..k - 1] == BeBytes(n / 256, k - 1);
    }
  }

  lemma {:induction false} BeBytesOfNat(b: bytes)
    ensures BeBytes(BeNat(b), |b|) == b
  {
    if b != [] {
      var init := b[..|b| - 1];
      BeBytesOfNat(init);
      assert BeNat(b) == 256 * BeNat(init) + b[|b| - 1];
      assert BeNat(b) % 256 == b[|b| - 1] && BeNat(b) / 256 == BeNat(init);
      assert b == init + [b[|b| - 1]];
    }
  }

  /** Adding below `256^k` to a number whose low `k` bytes are zero leaves the high bytes alone. */
  lemma {:induction false} BeBytesSplit(hi: nat, lo: nat, j: nat, k: nat)
    requires lo < Pow256(k)
    ensures BeBytes(hi * Pow256(k) + lo, j + k) == BeBytes(hi, j) + BeBytes(lo, k)
  {
    var n := hi * Pow256(k) + lo;
    if k == 0 {
      assert n == hi;
      assert BeBytes(hi, j) + BeBytes(lo, k) == BeBytes(hi, j);
    } else {
      var p := Pow256(k - 1);
      assert Pow256(k) == 256 * p;
      assert n == 256 * (hi * p) + lo;
      assert n / 256 == hi * p + lo / 256 && n % 256 == lo % 256;
      assert lo / 256 < p;
      BeBytesSplit(hi, lo / 256, j, k - 1);
      assert BeBytes(n, j + k) == BeBytes(n / 256, j + k - 1) + [n % 256];
      assert BeBytes(lo, k) == BeBytes(lo / 256, k - 1) + [lo % 256];
    }
  }

  /** Digit `i` of `n` in the given base, digit 0 being the least significant. */
  function Digit(n: nat, base: nat, i: nat): (d: nat)
    requires base > 0
    ensures d < base
    decreases i
  {
    if i == 0 then n % base else Digit(n / base, base, i - 1)
  }

  /** Byte `i` of the little-endian form is base-256 digit `i`. */
  lemma {:induction false} LeDigit(n: nat, k: nat, i: nat)
    requires i < k
    ensures LeBytes(n, k)[i] == Digit(n, 256, i)
  {
    if i > 0 {
      LeDigit(n / 256, k - 1, i - 1);
    }
  }

  /** The big-endian form holds the same digits the other way round. */
  lemma {:induction false} BeDigit(n: nat, k: nat, i: nat)
    requires i < k
    ensures BeBytes(n, k)[k - 1 - i] == Digit(n, 256, i)
  {
    if i > 0 {
      BeDigit(n / 256, k - 1, i - 1);
    }
  }
}

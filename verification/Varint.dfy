/** Base-128 varints: Protocol Buffers Encoding, section "Base 128 Varints". */
module Varint {
  import opened Bytes

  const MAX_VARINT_BYTES: nat := 10

  /** Tags and lengths are 32-bit numbers and may take no more bytes than those need. */
  const MAX_SHORT_BYTES: nat := 5

  /** Seven bits a byte, least significant first; the top bit marks a continuation. */
  function Encode(n: nat): (b: bytes)
    ensures |b| >= 1
  {
    if n < 128 then [n] else [n % 128 + 128] + Encode(n / 128)
  }

  /** The number and the bytes it took, reading at most `limit` bytes. */
  function Scan(b: bytes, limit: nat): (r: Option<(nat, nat)>)
    ensures r.Some? ==> 1 <= r.value.1 <= |b| && r.value.1 <= limit
    decreases limit
  {
    if limit == 0 || b == [] then None
    else if b[0] < 128 then Some((b[0], 1))
    else match Scan(b[1..], limit - 1)
      case None => None
      case Some((v, n)) => Some((b[0] - 128 + 128 * v, n + 1))
  }

  /** A 64-bit varint: ten bytes at most, bits above the 64th discarded. */
  function Read(b: bytes): (r: Option<(nat, nat)>)
    ensures r.Some? ==> 1 <= r.value.1 <= |b| && r.value.0 < TWO_64
  {
    match Scan(b, MAX_VARINT_BYTES)
    case None => None
    case Some((v, n)) => Some((v % TWO_64, n))
  }

  /** A varint of a tag or a length. */
  function ReadShort(b: bytes): (r: Option<(nat, nat)>)
    ensures r.Some? ==> 1 <= r.value.1 <= |b|
  {
    Scan(b, MAX_SHORT_BYTES)
  }

  function Pow128(k: nat): (p: nat)
    ensures p >= 1
  {
    if k == 0 then 1 else 128 * Pow128(k - 1)
  }

  lemma {:induction false} ScanEncode(n: nat, t: bytes, limit: nat)
    requires 1 <= limit && n < Pow128(limit)
    ensures Scan(Encode(n) + t, limit) == Some((n, |Encode(n)|))
    decreases limit
  {
    var b := Encode(n) + t;
    if n >= 128 {
      assert b[1..] == Encode(n / 128) + t;
      assert limit > 1;
      ScanEncode(n / 128, t, limit - 1);
      assert b[0] == n % 128 + 128;
    } else {
      assert b[0] == n;
    }
  }

  lemma Pow128Values()
    ensures Pow128(MAX_SHORT_BYTES) >= TWO_32
    ensures Pow128(MAX_VARINT_BYTES) >= TWO_64
  {
    assert Pow128(5) == 128 * 128 * 128 * 128 * 128 by {
      assert Pow128(2) == 128 * 128;
      assert Pow128(4) == 128 * 128 * Pow128(2);
    }
    assert Pow128(7) == 128 * 128 * Pow128(5);
    assert Pow128(9) == 128 * 128 * Pow128(7);
  }

  lemma {:induction false} EncodeFits(n: nat, k: nat)
    requires 1 <= k && n < Pow128(k)
    ensures |Encode(n)| <= k
  {
    if n >= 128 {
      EncodeFits(n / 128, k - 1);
    }
  }

  /** What each byte of a varint is: base-128 digit `i`, with the top bit on all but the last. */
  lemma {:induction false} EncodeDigit(n: nat, i: nat)
    requires i < |Encode(n)|
    ensures Encode(n)[i] == Digit(n, 128, i) + (if i + 1 < |Encode(n)| then 128 else 0)
    decreases i
  {
    if i > 0 {
      EncodeDigit(n / 128, i - 1);
    }
  }

  /** Whatever follows it, a written 64-bit number reads back, and nothing after it is consumed. */
  lemma ReadEncode(n: nat, t: bytes)
    requires n < TWO_64
    ensures Read(Encode(n) + t) == Some((n, |Encode(n)|))
  {
    hide Encode;
    hide Scan;
    Pow128Values();
    hide Pow128;
    ScanEncode(n, t, MAX_VARINT_BYTES);
  }

  lemma ReadShortEncode(n: nat, t: bytes)
    requires n < TWO_32
    ensures ReadShort(Encode(n) + t) == Some((n, |Encode(n)|))
  {
    hide Encode;
    hide Scan;
    Pow128Values();
    hide Pow128;
    ScanEncode(n, t, MAX_SHORT_BYTES);
  }

  /** Reading looks no further than the bytes it consumes. */
  lemma {:induction false} ScanLocal(b: bytes, c: bytes, limit: nat)
    requires Scan(b, limit).Some? && Agree(b, c, Scan(b, limit).value.1)
    ensures Scan(c, limit) == Scan(b, limit)
    decreases limit
  {
    assert b[0] == c[0];
    if b[0] >= 128 {
      AgreeSplit(b, c, 1, Scan(b[1..], limit - 1).value.1);
      ScanLocal(b[1..], c[1..], limit - 1);
    }
  }

  lemma ReadLocal(b: bytes, c: bytes)
    requires Read(b).Some? && Agree(b, c, Read(b).value.1)
    ensures Read(c) == Read(b)
  {
    ScanLocal(b, c, MAX_VARINT_BYTES);
  }

  /** `b` starts with an `n`-byte varint of `v`, overlong or not: the continuation bit on all bytes but
      the last, and the base-128 digits of `v` below it, least significant first. */
  ghost predicate IsVarint(b: bytes, n: nat, v: nat) {
    && 1 <= n <= |b| && v < Pow128(n)
    && forall i | 0 <= i < n :: b[i] == Digit(v, 128, i) + (if i + 1 < n then 128 else 0)
  }

  lemma IsVarintOne(b: bytes, v: nat)
    ensures IsVarint(b, 1, v) <==> b != [] && b[0] == v && v < 128
  {
    assert Pow128(1) == 128 * Pow128(0);
  }

  lemma IsVarintMore(b: bytes, n: nat, v: nat)
    requires n >= 2
    ensures IsVarint(b, n, v) <==> b != [] && b[0] == v % 128 + 128 && IsVarint(b[1..], n - 1, v / 128)
  {
    assert Pow128(n) == 128 * Pow128(n - 1);
    hide Pow128;
    if IsVarint(b, n, v) {
      forall i | 0 <= i < n - 1
        ensures b[1..][i] == Digit(v / 128, 128, i) + (if i + 1 < n - 1 then 128 else 0)
      {
        assert b[i + 1] == Digit(v, 128, i + 1) + (if i + 2 < n then 128 else 0);
      }
      assert b[0] == Digit(v, 128, 0) + 128;
    }
    if b != [] && b[0] == v % 128 + 128 && IsVarint(b[1..], n - 1, v / 128) {
      forall i | 0 <= i < n
        ensures b[i] == Digit(v, 128, i) + (if i + 1 < n then 128 else 0)
      {
        if i > 0 {
          assert b[1..][i - 1] == Digit(v / 128, 128, i - 1) + (if i < n - 1 then 128 else 0);
        }
      }
    }
  }

  /** A scan finds exactly the varint the bytes start with, if it is short enough. */
  lemma {:induction false} ScanExact(b: bytes, limit: nat, v: nat, n: nat)
    ensures Scan(b, limit) == Some((v, n)) <==> n <= limit && IsVarint(b, n, v)
    decreases limit
  {
    if n <= 1 {
      IsVarintOne(b, v);
    } else {
      hide IsVarint;
      IsVarintMore(b, n, v);
      if limit > 0 && b != [] && b[0] >= 128 {
        ScanExact(b[1..], limit - 1, v / 128, n - 1);
      }
    }
  }

  /** Reading accepts every varint of up to ten bytes, and keeps its low 64 bits. */
  lemma ReadExact(b: bytes, v: nat, n: nat)
    ensures Read(b) == Some((v, n))
       <==> n <= MAX_VARINT_BYTES && exists w: nat :: IsVarint(b, n, w) && v == w % TWO_64
  {
    if Read(b) == Some((v, n)) {
      var (w, k) := Scan(b, MAX_VARINT_BYTES).value;
      ScanExact(b, MAX_VARINT_BYTES, w, k);
    }
    forall w: nat | n <= MAX_VARINT_BYTES && IsVarint(b, n, w) && v == w % TWO_64
      ensures Read(b) == Some((v, n))
    {
      ScanExact(b, MAX_VARINT_BYTES, w, n);
    }
  }

  /** The varint writer of the round-trip tests: emit seven bits, shift, stop when nothing is left. */
  method Write(n: nat) returns (out: bytes)
    ensures out == Encode(n)
  {
    out := [];
    var value := n;
    while true
      invariant out + Encode(value) == Encode(n)
      decreases value
    {
      var low := value % 128;
      var rest := value / 128;
      ghost var before := out;
      out := out + [if rest != 0 then low + 128 else low];
      if rest == 0 {
        assert out == before + Encode(value);
        break;
      }
      assert before + Encode(value) == out + Encode(rest);
      value := rest;
    }
  }
}

/** The Meshtastic nonce and AES-CTR: NIST SP 800-38A, section 6.5, with the standard
    incrementing function of Appendix B.1. The block function is a parameter. */
module Cipher {
  import opened Bytes

  const BLOCK: nat := 16

  type Block = b: bytes | |b| == BLOCK
    witness [0, 0, 0, 0, 0, 0, 0, 0, 0, 0, 0, 0, 0, 0, 0, 0]

  /** The forward cipher function under a key. */
  type BlockCipher = (bytes, Block) -> Block

  const DEFAULT_KEY: bytes :=
    [0xd4, 0xf1, 0xbb, 0x3a, 0x20, 0x29, 0x07, 0x59, 0xf0, 0xbc, 0xff, 0xab, 0xcf, 0x4e, 0x69, 0x01]

  /** Packet id (64 bits), sender (32 bits), both little-endian, then four zero bytes. */
  function BuildNonce(packetId: int, fromNode: int): Block {
    LeBytes(packetId % TWO_64, 8) + LeBytes(fromNode % TWO_32, 4) + [0, 0, 0, 0]
  }

  /** The counter block used for the `i`-th block of a message. */
  function Counter(nonce: Block, i: nat): Block {
    BeBytes((BeNat(nonce) + i) % Pow256(BLOCK), BLOCK)
  }

  function Pow2(k: nat): (p: nat)
    ensures p >= 1
  {
    if k == 0 then 1 else 2 * Pow2(k - 1)
  }

  /** Exclusive or of the low `k` bits, bit by bit. */
  function XorBits(a: nat, b: nat, k: nat): (x: nat)
    ensures x < Pow2(k)
  {
    if k == 0 then 0 else (a % 2 + b % 2) % 2 + 2 * XorBits(a / 2, b / 2, k - 1)
  }

  function Xor(a: byte, b: byte): byte {
    Pow2Eight();
    XorBits(a, b, 8)
  }

  /** The `k`-th key stream byte of the message with this nonce. */
  function KeyStream(aes: BlockCipher, key: bytes, nonce: Block, k: nat): byte {
    aes(key, Counter(nonce, k / BLOCK))[k % BLOCK]
  }

  function Ctr(aes: BlockCipher, key: bytes, nonce: Block, text: bytes): (out: bytes)
    ensures |out| == |text|
  {
    seq(|text|, k requires 0 <= k < |text| => Xor(text[k], KeyStream(aes, key, nonce, k)))
  }

  /** Decrypts, and encrypts: CTR is its own inverse. */
  function Decrypt(aes: BlockCipher, ciphertext: bytes, packetId: int, fromNode: int, key: bytes): (out: bytes)
    ensures |out| == |ciphertext|
  {
    Ctr(aes, key, BuildNonce(packetId, fromNode), ciphertext)
  }

  lemma HalfStep(bit: nat, mask: nat, rest: nat)
    requires bit < 2 && mask < 2
    ensures var x := (bit + mask) % 2 + 2 * rest; x / 2 == rest && (x % 2 + mask) % 2 == bit
  {
  }

  lemma {:induction false} XorBitsTwice(a: nat, b: nat, k: nat)
    requires a < Pow2(k)
    ensures XorBits(XorBits(a, b, k), b, k) == a
  {
    if k > 0 {
      HalfStep(a % 2, b % 2, XorBits(a / 2, b / 2, k - 1));
      XorBitsTwice(a / 2, b / 2, k - 1);
    }
  }

  lemma XorTwice(a: byte, b: byte)
    ensures Xor(Xor(a, b), b) == a
  {
    Pow2Eight();
    XorBitsTwice(a, b, 8);
  }

  /** Whatever the block function, decrypting with the same id, sender and key recovers the plaintext. */
  lemma DecryptTwice(aes: BlockCipher, text: bytes, packetId: int, fromNode: int, key: bytes)
    ensures Decrypt(aes, Decrypt(aes, text, packetId, fromNode, key), packetId, fromNode, key) == text
  {
    var nonce := BuildNonce(packetId, fromNode);
    var once := Ctr(aes, key, nonce, text);
    var twice := Ctr(aes, key, nonce, once);
    forall k | 0 <= k < |text|
      ensures twice[k] == text[k]
    {
      XorTwice(text[k], KeyStream(aes, key, nonce, k));
    }
  }

  // ---- No two messages share a counter block ----

  lemma Pow256Values()
    ensures Pow256(4) == 0x1_0000_0000 && Pow256(8) == 0x1_0000_0000_0000_0000
  {
    assert Pow256(2) == 256 * Pow256(1);
    assert Pow256(4) == 256 * (256 * Pow256(2));
    assert Pow256(6) == 256 * (256 * Pow256(4));
    assert Pow256(8) == 256 * (256 * Pow256(6));
  }

  lemma {:induction false} Pow256Adds(j: nat, k: nat)
    ensures Pow256(j + k) == Pow256(j) * Pow256(k)
  {
    if k > 0 {
      Pow256Adds(j, k - 1);
      assert Pow256(j + k) == 256 * Pow256(j + k - 1);
    } else {
      assert Pow256(0) == 1;
    }
  }

  lemma FourZeros()
    ensures BeBytes(0, 4) == [0, 0, 0, 0]
  {
    assert BeBytes(0, 1) == [0];
    assert BeBytes(0, 2) == [0, 0];
    assert BeBytes(0, 3) == [0, 0, 0];
  }

  /** Room for one more multiple of `p` below `q * p`. */
  lemma RoomBelow(hi: nat, p: nat, q: nat)
    requires hi < q
    ensures hi * p + p <= q * p
  {
    assert (hi + 1) * p == hi * p + p;
    assert (hi + 1) * p <= q * p;
  }

  /** Read as a number, a block ending in four zero bytes is a multiple of 2^32 with room below. */
  lemma ZeroTail(top: bytes)
    requires |top| == 12
    ensures BeNat(top + [0, 0, 0, 0]) == BeNat(top) * Pow256(4)
    ensures BeNat(top) * Pow256(4) + Pow256(4) <= Pow256(BLOCK)
  {
    FourZeros();
    hide BeBytes;
    hide BeNat;
    hide Pow256;
    var hi := BeNat(top);
    BeBytesOfNat(top);
    Pow256Adds(12, 4);
    RoomBelow(hi, Pow256(4), Pow256(12));
    BeBytesSplit(hi, 0, 12, 4);
    BeNatOfBytes(hi * Pow256(4), 16);
  }

  lemma CounterWithoutWrap(nonce: Block, base: nat, i: nat)
    requires BeNat(nonce) == base && base + i < Pow256(BLOCK)
    ensures Counter(nonce, i) == BeBytes(base + i, BLOCK)
  {
    hide BeBytes;
    hide BeNat;
    hide Pow256;
    assert (base + i) % Pow256(BLOCK) == base + i;
  }

  lemma CounterAfter(top: bytes, i: nat)
    requires |top| == 12 && i < Pow256(4)
    ensures Counter(top + [0, 0, 0, 0], i) == top + BeBytes(i, 4)
  {
    hide Counter;
    hide BeBytes;
    hide BeNat;
    hide Pow256;
    ZeroTail(top);
    CounterWithoutWrap(top + [0, 0, 0, 0], BeNat(top) * Pow256(4), i);
    BeBytesOfNat(top);
    BeBytesSplit(BeNat(top), i, 12, 4);
  }

  /** For the first 2^32 blocks the increment stays inside the four bytes the nonce leaves at zero. */
  lemma CounterLayout(packetId: int, fromNode: int, i: nat)
    requires i < Pow256(4)
    ensures Counter(BuildNonce(packetId, fromNode), i) == BuildNonce(packetId, fromNode)[..12] + BeBytes(i, 4)
  {
    hide Counter;
    hide Pow256;
    hide LeBytes;
    var nonce := BuildNonce(packetId, fromNode);
    assert nonce == nonce[..12] + [0, 0, 0, 0];
    CounterAfter(nonce[..12], i);
  }

  lemma NonceInjective(id1: int, from1: int, id2: int, from2: int)
    requires BuildNonce(id1, from1)[..12] == BuildNonce(id2, from2)[..12]
    ensures id1 % TWO_64 == id2 % TWO_64 && from1 % TWO_32 == from2 % TWO_32
  {
    Pow256Values();
    var a, b := BuildNonce(id1, from1), BuildNonce(id2, from2);
    assert LeBytes(id1 % TWO_64, 8) == a[..12][..8] == b[..12][..8] == LeBytes(id2 % TWO_64, 8);
    assert LeBytes(from1 % TWO_32, 4) == a[..12][8..] == b[..12][8..] == LeBytes(from2 % TWO_32, 4);
    LeNatOfBytes(id1 % TWO_64, 8);
    LeNatOfBytes(id2 % TWO_64, 8);
    LeNatOfBytes(from1 % TWO_32, 4);
    LeNatOfBytes(from2 % TWO_32, 4);
  }

  /** Counter blocks of messages up to 2^32 blocks long coincide exactly when the id, the sender
      (as far as the nonce holds them) and the block number do. */
  lemma CountersCollide(id1: int, from1: int, i1: nat, id2: int, from2: int, i2: nat)
    requires i1 < Pow256(4) && i2 < Pow256(4)
    ensures Counter(BuildNonce(id1, from1), i1) == Counter(BuildNonce(id2, from2), i2)
       <==> id1 % TWO_64 == id2 % TWO_64 && from1 % TWO_32 == from2 % TWO_32 && i1 == i2
  {
    var n1, n2 := BuildNonce(id1, from1), BuildNonce(id2, from2);
    var c1, c2 := Counter(n1, i1), Counter(n2, i2);
    CounterLayout(id1, from1, i1);
    CounterLayout(id2, from2, i2);
    if c1 == c2 {
      assert n1[..12] == c1[..12] == c2[..12] == n2[..12];
      assert BeBytes(i1, 4) == c1[12..] == c2[12..] == BeBytes(i2, 4);
      NonceInjective(id1, from1, id2, from2);
      BeNatOfBytes(i1, 4);
      BeNatOfBytes(i2, 4);
    }
  }

  // ---- The layout, byte by byte, and the standard increment ----

  /** Id and sender little-endian, least significant byte first, and four zero bytes. */
  lemma NonceLayout(packetId: int, fromNode: int, i: nat)
    requires i < BLOCK
    ensures BuildNonce(packetId, fromNode)[i]
         == if i < 8 then Digit(packetId % TWO_64, 256, i)
            else if i < 12 then Digit(fromNode % TWO_32, 256, i - 8)
            else 0
  {
    if i < 8 {
      LeDigit(packetId % TWO_64, 8, i);
    } else if i < 12 {
      LeDigit(fromNode % TWO_32, 4, i - 8);
    }
  }

  /** The counter block, byte by byte: the nonce's own twelve bytes, then the block number with its
      most significant byte first. */
  lemma CounterBytes(packetId: int, fromNode: int, i: nat, k: nat)
    requires i < Pow256(4) && k < BLOCK
    ensures Counter(BuildNonce(packetId, fromNode), i)[k]
         == if k < 8 then Digit(packetId % TWO_64, 256, k)
            else if k < 12 then Digit(fromNode % TWO_32, 256, k - 8)
            else Digit(i, 256, 15 - k)
  {
    hide Digit;
    hide Counter;
    hide BuildNonce;
    hide Pow256;
    hide BeBytes;
    CounterLayout(packetId, fromNode, i);
    if k < 12 {
      NonceLayout(packetId, fromNode, k);
    } else {
      BeDigit(i, 4, 15 - k);
    }
  }

  /** Adds one to a block, rippling the carry from the last byte. */
  function Increment(b: bytes): (r: bytes)
    ensures |r| == |b|
  {
    if b == [] then []
    else
      var init, last := b[..|b| - 1], b[|b| - 1];
      if last == 255 then Increment(init) + [0] else init + [last + 1]
  }

  lemma BeNatSnoc(init: bytes, last: byte)
    ensures BeNat(init + [last]) == 256 * BeNat(init) + last
  {
    assert (init + [last])[..|init|] == init;
  }

  /** One more, or 0 after `p - 1`. */
  function Next(x: nat, p: nat): nat {
    if x + 1 == p then 0 else x + 1
  }

  lemma {:induction false} IncrementAddsOne(b: bytes)
    ensures BeNat(Increment(b)) == Next(BeNat(b), Pow256(|b|))
  {
    if b != [] {
      var init, last := b[..|b| - 1], b[|b| - 1];
      assert b == init + [last];
      assert Pow256(|b|) == 256 * Pow256(|init|);
      BeNatSnoc(init, last);
      if last == 255 {
        IncrementAddsOne(init);
        BeNatSnoc(Increment(init), 0);
      } else {
        BeNatSnoc(init, last + 1);
      }
    }
  }

  lemma MulSign(p: int, d: int)
    requires p > 0
    ensures d >= 1 ==> p * d >= p
    ensures d <= -1 ==> p * d <= -p
  {
    if d >= 1 {
      assert p * d == p * (d - 1) + p;
    } else if d <= -1 {
      assert p * d == p * (d + 1) - p;
    }
  }

  lemma RemainderUnique(a: int, p: int, q: int, r: int)
    requires p > 0 && 0 <= r < p && a == p * q + r
    ensures a % p == r
  {
    var d := q - a / p;
    assert a == p * (a / p) + a % p;
    assert p * d == p * q - p * (a / p);
    MulSign(p, d);
  }

  lemma NextModulo(x: nat, p: nat)
    requires p > 0
    ensures (x + 1) % p == Next(x % p, p)
  {
    var q, r := x / p, x % p;
    assert x == p * q + r;
    if r + 1 == p {
      assert p * (q + 1) == p * q + p;
      RemainderUnique(x + 1, p, q + 1, 0);
    } else {
      RemainderUnique(x + 1, p, q, r + 1);
    }
  }

  lemma NextBlock(c: Block, n: nat)
    requires BeNat(c) == n
    ensures Increment(c) == BeBytes(Next(n, Pow256(BLOCK)), BLOCK)
  {
    hide Increment;
    hide BeBytes;
    hide BeNat;
    hide Pow256;
    IncrementAddsOne(c);
    BeBytesOfNat(Increment(c));
  }

  lemma Remainder(x: nat, p: nat)
    requires p > 0
    ensures 0 <= x % p < p
    ensures x < p ==> x % p == x
  {
  }

  /** The counter blocks start at the nonce and each is the increment of the one before. */
  lemma CounterSteps(nonce: Block, i: nat)
    ensures Counter(nonce, 0) == nonce
    ensures Counter(nonce, i + 1) == Increment(Counter(nonce, i))
  {
    hide Increment;
    hide BeBytes;
    hide BeNat;
    hide Pow256;
    var p := Pow256(BLOCK);
    var x := BeNat(nonce) + i;
    BeBytesOfNat(nonce);
    Remainder(BeNat(nonce), p);
    Remainder(x, p);
    NextModulo(x, p);
    BeNatOfBytes(x % p, BLOCK);
    NextBlock(Counter(nonce, i), x % p);
    hide Next;
  }

  // ---- What decryption computes, bit by bit ----

  /** The block after `n` increments. */
  function Advance(b: bytes, n: nat): (r: bytes)
    ensures |r| == |b|
  {
    if n == 0 then b else Increment(Advance(b, n - 1))
  }

  /** Id in eight bytes and sender in four, least significant first, then four zero bytes. */
  ghost predicate IsNonce(nonce: bytes, packetId: int, fromNode: int) {
    && |nonce| == BLOCK
    && (forall i | 0 <= i < 8 :: nonce[i] == Digit(packetId % TWO_64, 256, i))
    && (forall i | 8 <= i < 12 :: nonce[i] == Digit(fromNode % TWO_32, 256, i - 8))
    && (forall i | 12 <= i < BLOCK :: nonce[i] == 0)
  }

  /** Bit `i` of byte `k` is `other`'s, flipped where the enciphered counter block has a 1. */
  ghost predicate BitFlipped(aes: BlockCipher, key: bytes, nonce: Block, text: bytes, other: bytes, k: nat, i: nat)
    requires k < |text| && k < |other|
  {
    Digit(text[k], 2, i) == (Digit(other[k], 2, i) + Digit(aes(key, Advance(nonce, k / BLOCK))[k % BLOCK], 2, i)) % 2
  }

  /** One text is the other in counter mode (NIST SP 800-38A, section 6.5) under the packet's nonce. */
  ghost predicate Enciphered(
    aes: BlockCipher, key: bytes, packetId: int, fromNode: int, text: bytes, other: bytes)
  {
    && |text| == |other|
    && forall nonce: Block | IsNonce(nonce, packetId, fromNode) ::
         forall k, i | 0 <= k < |text| && 0 <= i < 8 :: BitFlipped(aes, key, nonce, text, other, k, i)
  }

  lemma {:induction false} XorDigit(a: nat, b: nat, k: nat, i: nat)
    requires i < k
    ensures Digit(XorBits(a, b, k), 2, i) == (Digit(a, 2, i) + Digit(b, 2, i)) % 2
  {
    if i > 0 {
      XorDigit(a / 2, b / 2, k - 1, i - 1);
    }
  }

  lemma {:induction false} SameDigits(a: nat, b: nat, k: nat)
    requires a < Pow2(k) && b < Pow2(k)
    requires forall i | 0 <= i < k :: Digit(a, 2, i) == Digit(b, 2, i)
    ensures a == b
  {
    if k > 0 {
      assert Digit(a, 2, 0) == a % 2 && Digit(b, 2, 0) == b % 2;
      forall i | 0 <= i < k - 1
        ensures Digit(a / 2, 2, i) == Digit(b / 2, 2, i)
      {
        assert Digit(a, 2, i + 1) == Digit(a / 2, 2, i) && Digit(b, 2, i + 1) == Digit(b / 2, 2, i);
      }
      SameDigits(a / 2, b / 2, k - 1);
    }
  }

  lemma Pow2Eight()
    ensures Pow2(8) == 256
  {
    assert Pow2(2) == 4;
    assert Pow2(4) == 16;
    assert Pow2(6) == 64;
  }

  lemma ByteBits(a: byte, b: byte)
    requires forall i | 0 <= i < 8 :: Digit(a, 2, i) == Digit(b, 2, i)
    ensures a == b
  {
    Pow2Eight();
    SameDigits(a, b, 8);
  }

  lemma BuildsNonce(nonce: bytes, packetId: int, fromNode: int)
    ensures IsNonce(nonce, packetId, fromNode) <==> nonce == BuildNonce(packetId, fromNode)
  {
    var built := BuildNonce(packetId, fromNode);
    hide Digit;
    hide BuildNonce;
    forall i | 0 <= i < BLOCK
      ensures built[i] == if i < 8 then Digit(packetId % TWO_64, 256, i)
                          else if i < 12 then Digit(fromNode % TWO_32, 256, i - 8) else 0
    {
      NonceLayout(packetId, fromNode, i);
    }
    if IsNonce(nonce, packetId, fromNode) {
      assert forall i | 0 <= i < BLOCK :: nonce[i] == built[i];
    }
  }

  lemma {:induction false} CounterAdvances(nonce: Block, n: nat)
    ensures Advance(nonce, n) == Counter(nonce, n)
  {
    hide Counter;
    hide Increment;
    CounterSteps(nonce, 0);
    if n > 0 {
      CounterAdvances(nonce, n - 1);
      CounterSteps(nonce, n - 1);
    }
  }

  lemma CtrBit(aes: BlockCipher, key: bytes, nonce: Block, text: bytes, k: nat, i: nat)
    requires k < |text| && i < 8
    ensures BitFlipped(aes, key, nonce, Ctr(aes, key, nonce, text), text, k, i)
  {
    hide Counter;
    hide Advance;
    hide XorBits;
    hide Digit;
    CounterAdvances(nonce, k / BLOCK);
    XorDigit(text[k], KeyStream(aes, key, nonce, k), 8, i);
  }

  lemma CtrUnique(aes: BlockCipher, key: bytes, nonce: Block, text: bytes, out: bytes)
    requires |out| == |text|
    requires forall k, i | 0 <= k < |text| && 0 <= i < 8 :: BitFlipped(aes, key, nonce, out, text, k, i)
    ensures out == Ctr(aes, key, nonce, text)
  {
    hide Advance;
    hide Digit;
    var ctr := Ctr(aes, key, nonce, text);
    hide Ctr;
    forall k | 0 <= k < |text|
      ensures out[k] == ctr[k]
    {
      forall i | 0 <= i < 8
        ensures Digit(out[k], 2, i) == Digit(ctr[k], 2, i)
      {
        CtrBit(aes, key, nonce, text, k, i);
        assert BitFlipped(aes, key, nonce, out, text, k, i);
      }
      ByteBits(out[k], ctr[k]);
    }
  }

  /** Decryption is exactly counter mode: each bit of the output is the input's, flipped by the bit of
      the block function at the nonce advanced by one for every sixteen bytes. */
  lemma DecryptExact(aes: BlockCipher, text: bytes, packetId: int, fromNode: int, key: bytes, out: bytes)
    ensures out == Decrypt(aes, text, packetId, fromNode, key) <==> Enciphered(aes, key, packetId, fromNode, out, text)
  {
    hide Ctr;
    hide IsNonce;
    hide BuildNonce;
    hide BitFlipped;
    var nonce := BuildNonce(packetId, fromNode);
    forall n: Block
      ensures IsNonce(n, packetId, fromNode) <==> n == nonce
    {
      BuildsNonce(n, packetId, fromNode);
    }
    if out == Decrypt(aes, text, packetId, fromNode, key) {
      forall k, i | 0 <= k < |text| && 0 <= i < 8
        ensures BitFlipped(aes, key, nonce, out, text, k, i)
      {
        CtrBit(aes, key, nonce, text, k, i);
      }
    }
    if Enciphered(aes, key, packetId, fromNode, out, text) {
      assert IsNonce(nonce, packetId, fromNode);
      CtrUnique(aes, key, nonce, text, out);
    }
  }
}

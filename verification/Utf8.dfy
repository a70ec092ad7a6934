/** Well-formed UTF-8, which a protobuf `string` field must hold (Unicode Standard, Table 3-7). */
module Utf8 {
  import opened Bytes

  predicate Tail(c: byte) {
    0x80 <= c <= 0xBF
  }

  /** Length of the well-formed character `b` starts with, or 0. */
  function CharSize(b: bytes): (n: nat)
    ensures n <= |b|
  {
    if |b| >= 1 && b[0] < 0x80 then 1
    else if |b| >= 2 && 0xC2 <= b[0] <= 0xDF && Tail(b[1]) then 2
    else if |b| >= 3 && 0xE0 <= b[0] <= 0xEF && Tail(b[1]) && Tail(b[2])
            && (b[0] == 0xE0 ==> b[1] >= 0xA0) && (b[0] == 0xED ==> b[1] <= 0x9F) then 3
    else if |b| >= 4 && 0xF0 <= b[0] <= 0xF4 && Tail(b[1]) && Tail(b[2]) && Tail(b[3])
            && (b[0] == 0xF0 ==> b[1] >= 0x90) && (b[0] == 0xF4 ==> b[1] <= 0x8F) then 4
    else 0
  }

  predicate Valid(b: bytes) {
    b == [] || (CharSize(b) > 0 && Valid(b[CharSize(b)..]))
  }

  // ---- Exactly the encodings are well-formed ----

  /** A Unicode scalar value: any code point but a surrogate. */
  type Scalar = c: int | 0 <= c < 0xD800 || 0xE000 <= c < 0x11_0000

  /** The bytes of one scalar value: its bits, six to each byte after the first. */
  function EncodeChar(c: Scalar): (b: bytes)
    ensures 1 <= |b| <= 4
  {
    if c < 0x80 then [c]
    else if c < 0x800 then [0xC0 + c / 0x40, 0x80 + c % 0x40]
    else if c < 0x1_0000 then [0xE0 + c / 0x1000, 0x80 + c / 0x40 % 0x40, 0x80 + c % 0x40]
    else [0xF0 + c / 0x4_0000, 0x80 + c / 0x1000 % 0x40, 0x80 + c / 0x40 % 0x40, 0x80 + c % 0x40]
  }

  function Encode(cs: seq<Scalar>): bytes {
    if cs == [] then [] else EncodeChar(cs[0]) + Encode(cs[1..])
  }

  function Bits2(b0: int, b1: int): int {
    0x40 * (b0 - 0xC0) + (b1 - 0x80)
  }

  function Bits3(b0: int, b1: int, b2: int): int {
    0x1000 * (b0 - 0xE0) + 0x40 * (b1 - 0x80) + (b2 - 0x80)
  }

  function Bits4(b0: int, b1: int, b2: int, b3: int): int {
    0x4_0000 * (b0 - 0xF0) + 0x1000 * (b1 - 0x80) + 0x40 * (b2 - 0x80) + (b3 - 0x80)
  }

  /** What the bytes of one character stand for. */
  function CharValue(b: bytes): int {
    if |b| == 1 then b[0]
    else if |b| == 2 then Bits2(b[0], b[1])
    else if |b| == 3 then Bits3(b[0], b[1], b[2])
    else if |b| == 4 then Bits4(b[0], b[1], b[2], b[3])
    else 0
  }

  lemma CharValueOfEncoding(c: Scalar)
    ensures CharValue(EncodeChar(c)) == c
  {
    assert c / 0x1000 == c / 0x40 / 0x40 && c / 0x4_0000 == c / 0x40 / 0x40 / 0x40;
  }

  lemma CharSizeOfEncoding(c: Scalar, t: bytes)
    ensures CharSize(EncodeChar(c) + t) == |EncodeChar(c)|
  {
  }

  lemma Sextet(hi: nat, lo: nat)
    requires lo < 0x40
    ensures (0x40 * hi + lo) / 0x40 == hi && (0x40 * hi + lo) % 0x40 == lo
  {
  }

  lemma Shift12(c: nat)
    ensures c / 0x1000 == c / 0x40 / 0x40
  {
  }

  lemma Shift18(c: nat)
    ensures c / 0x4_0000 == c / 0x1000 / 0x40
  {
  }

  lemma TwoBytes(b0: nat, b1: nat)
    requires 0xC2 <= b0 <= 0xDF && 0x80 <= b1 <= 0xBF
    ensures var c := Bits2(b0, b1);
            0x80 <= c < 0x800 && c / 0x40 == b0 - 0xC0 && c % 0x40 == b1 - 0x80
  {
  }

  lemma ThreeBytes(b0: nat, b1: nat, b2: nat)
    requires 0xE0 <= b0 <= 0xEF && 0x80 <= b1 <= 0xBF && 0x80 <= b2 <= 0xBF
    requires (b0 == 0xE0 ==> b1 >= 0xA0) && (b0 == 0xED ==> b1 <= 0x9F)
    ensures var c := Bits3(b0, b1, b2);
            && 0x800 <= c < 0x1_0000 && !(0xD800 <= c < 0xE000)
            && c / 0x1000 == b0 - 0xE0 && c / 0x40 % 0x40 == b1 - 0x80 && c % 0x40 == b2 - 0x80
  {
    var c := Bits3(b0, b1, b2);
    var top := 0x40 * (b0 - 0xE0) + (b1 - 0x80);
    assert c == 0x40 * top + (b2 - 0x80);
    Sextet(top, b2 - 0x80);
    Sextet(b0 - 0xE0, b1 - 0x80);
    Shift12(c);
  }

  lemma FourBytes(b0: nat, b1: nat, b2: nat, b3: nat)
    requires 0xF0 <= b0 <= 0xF4 && 0x80 <= b1 <= 0xBF && 0x80 <= b2 <= 0xBF && 0x80 <= b3 <= 0xBF
    requires (b0 == 0xF0 ==> b1 >= 0x90) && (b0 == 0xF4 ==> b1 <= 0x8F)
    ensures var c := Bits4(b0, b1, b2, b3);
            && 0x1_0000 <= c < 0x11_0000 && c / 0x4_0000 == b0 - 0xF0
            && c / 0x1000 % 0x40 == b1 - 0x80 && c / 0x40 % 0x40 == b2 - 0x80 && c % 0x40 == b3 - 0x80
  {
    var c := Bits4(b0, b1, b2, b3);
    var top := 0x40 * (b0 - 0xF0) + (b1 - 0x80);
    var mid := 0x40 * top + (b2 - 0x80);
    assert c == 0x40 * mid + (b3 - 0x80);
    Sextet(mid, b3 - 0x80);
    Sextet(top, b2 - 0x80);
    Sextet(b0 - 0xF0, b1 - 0x80);
    Shift12(c);
    Shift18(c);
  }

  lemma Encode2(b0: byte, b1: byte)
    requires 0xC2 <= b0 <= 0xDF && 0x80 <= b1 <= 0xBF
    ensures 0x80 <= Bits2(b0, b1) < 0x800 && EncodeChar(Bits2(b0, b1)) == [b0, b1]
  {
    TwoBytes(b0, b1);
    hide Bits2;
  }

  lemma Encode3(b0: byte, b1: byte, b2: byte)
    requires 0xE0 <= b0 <= 0xEF && 0x80 <= b1 <= 0xBF && 0x80 <= b2 <= 0xBF
    requires (b0 == 0xE0 ==> b1 >= 0xA0) && (b0 == 0xED ==> b1 <= 0x9F)
    ensures 0x800 <= Bits3(b0, b1, b2) < 0x1_0000 && !(0xD800 <= Bits3(b0, b1, b2) < 0xE000)
    ensures EncodeChar(Bits3(b0, b1, b2)) == [b0, b1, b2]
  {
    ThreeBytes(b0, b1, b2);
    hide Bits3;
  }

  lemma Encode4(b0: byte, b1: byte, b2: byte, b3: byte)
    requires 0xF0 <= b0 <= 0xF4 && 0x80 <= b1 <= 0xBF && 0x80 <= b2 <= 0xBF && 0x80 <= b3 <= 0xBF
    requires (b0 == 0xF0 ==> b1 >= 0x90) && (b0 == 0xF4 ==> b1 <= 0x8F)
    ensures 0x1_0000 <= Bits4(b0, b1, b2, b3) < 0x11_0000
    ensures EncodeChar(Bits4(b0, b1, b2, b3)) == [b0, b1, b2, b3]
  {
    FourBytes(b0, b1, b2, b3);
    hide Bits4;
  }

  /** The character that `b` starts with. */
  lemma FirstChar(b: bytes) returns (c: Scalar)
    requires CharSize(b) > 0
    ensures EncodeChar(c) == b[..CharSize(b)]
  {
    hide Bits2;
    hide Bits3;
    hide Bits4;
    if b[0] < 0x80 {
      c := b[0];
    } else {
      hide EncodeChar;
      if b[0] < 0xE0 {
        Encode2(b[0], b[1]);
        c := Bits2(b[0], b[1]);
      } else if b[0] < 0xF0 {
        Encode3(b[0], b[1], b[2]);
        c := Bits3(b[0], b[1], b[2]);
      } else {
        Encode4(b[0], b[1], b[2], b[3]);
        c := Bits4(b[0], b[1], b[2], b[3]);
      }
    }
  }

  /** Different characters differ within the bytes of either. */
  lemma CharPrefix(c: Scalar, d: Scalar, t: bytes, u: bytes)
    requires EncodeChar(c) + t == EncodeChar(d) + u
    ensures c == d && t == u
  {
    CharSizeOfEncoding(c, t);
    CharSizeOfEncoding(d, u);
    var n := |EncodeChar(c)|;
    assert EncodeChar(c) == (EncodeChar(c) + t)[..n] == (EncodeChar(d) + u)[..n] == EncodeChar(d);
    assert t == (EncodeChar(c) + t)[n..] == (EncodeChar(d) + u)[n..] == u;
    CharValueOfEncoding(c);
    CharValueOfEncoding(d);
  }

  /** Whatever the characters, their encoding is well-formed. */
  lemma {:induction false} EncodingValid(cs: seq<Scalar>)
    ensures Valid(Encode(cs))
  {
    if cs != [] {
      hide CharSize;
      EncodingValid(cs[1..]);
      CharSizeOfEncoding(cs[0], Encode(cs[1..]));
      hide EncodeChar;
      assert (EncodeChar(cs[0]) + Encode(cs[1..]))[|EncodeChar(cs[0])|..] == Encode(cs[1..]);
    }
  }

  /** Different texts have different encodings. */
  lemma {:induction false} EncodeInjective(cs: seq<Scalar>, ds: seq<Scalar>)
    requires Encode(cs) == Encode(ds)
    ensures cs == ds
  {
    hide EncodeChar;
    if cs != [] && ds != [] {
      CharPrefix(cs[0], ds[0], Encode(cs[1..]), Encode(ds[1..]));
      EncodeInjective(cs[1..], ds[1..]);
      assert cs == [cs[0]] + cs[1..] && ds == [ds[0]] + ds[1..];
    }
  }

  lemma EncodeCons(c: Scalar, cs: seq<Scalar>)
    ensures Encode([c] + cs) == EncodeChar(c) + Encode(cs)
  {
    assert ([c] + cs)[1..] == cs;
  }

  lemma ValidStep(b: bytes)
    requires Valid(b) && b != []
    ensures 0 < CharSize(b) <= |b| && Valid(b[CharSize(b)..])
  {
    hide CharSize;
  }

  /** The text of well-formed bytes. */
  lemma {:induction false} Decodes(b: bytes) returns (cs: seq<Scalar>)
    requires Valid(b)
    ensures Encode(cs) == b
  {
    hide CharSize;
    hide EncodeChar;
    if b == [] {
      cs := [];
    } else {
      ValidStep(b);
      hide Valid;
      hide Encode;
      var n := CharSize(b);
      var c := FirstChar(b);
      var rest := Decodes(b[n..]);
      cs := [c] + rest;
      EncodeCons(c, rest);
      assert b == b[..n] + b[n..];
    }
  }

  ghost predicate IsText(b: bytes) {
    exists cs: seq<Scalar> :: Encode(cs) == b
  }

  /** Well-formed bytes are exactly the encodings of texts, each of one text only. */
  lemma ValidExact(b: bytes)
    ensures Valid(b) <==> IsText(b)
    ensures forall cs: seq<Scalar>, ds: seq<Scalar> | Encode(cs) == b && Encode(ds) == b :: cs == ds
  {
    if Valid(b) {
      var cs := Decodes(b);
    }
    forall cs: seq<Scalar> | Encode(cs) == b
      ensures Valid(b)
    {
      EncodingValid(cs);
    }
    forall cs: seq<Scalar>, ds: seq<Scalar> | Encode(cs) == b && Encode(ds) == b
      ensures cs == ds
    {
      EncodeInjective(cs, ds);
    }
  }
}

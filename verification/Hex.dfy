/** Lower-case hexadecimal digits, as character codes. */
module Hex {
  import opened Bytes

  const DIGITS: string := "0123456789abcdef"

  function Digit(n: nat): (code: nat)
    requires n < 16
    ensures code < 128
  {
    if n < 10 then 48 + n else 87 + n
  }

  function Value(code: nat): Option<nat> {
    if 48 <= code < 58 then Some(code - 48) else if 97 <= code < 103 then Some(code - 87) else None
  }

  /** How many numbers `k` digits can write. */
  function Pow16(k: nat): nat {
    if k == 0 then 1 else 16 * Pow16(k - 1)
  }

  lemma Pow16Values()
    ensures Pow16(2) == 0x100 && Pow16(4) == 0x1_0000 && Pow16(8) == 0x1_0000_0000
  {
    assert Pow16(2) == 16 * Pow16(1);
    assert Pow16(4) == 16 * (16 * Pow16(2));
    assert Pow16(6) == 16 * (16 * Pow16(4));
    assert Pow16(8) == 16 * (16 * Pow16(6));
  }

  lemma DigitChar(n: nat)
    requires n < 16
    ensures Digit(n) as char == DIGITS[n]
  {
  }

  /** `h` is `n` in lower-case hexadecimal with at least `width` digits, zeros in front only as far as
      the width asks for them. */
  ghost predicate Shows(h: string, n: nat, width: nat) {
    && |h| >= width && n < Pow16(|h|)
    && (|h| > width ==> n >= Pow16(|h| - 1))
    && forall i | 0 <= i < |h| :: h[i] == DIGITS[Bytes.Digit(n, 16, |h| - 1 - i)]
  }

  lemma {:induction false} HighDigit(n: nat, k: nat)
    requires n < Pow16(k)
    ensures Bytes.Digit(n, 16, k) == 0
  {
    if k > 0 {
      HighDigit(n / 16, k - 1);
    }
  }

  lemma ShowsDigit(n: nat)
    requires n < 16
    ensures Shows([DIGITS[n]], n, 1)
  {
    assert Pow16(1) == 16 * Pow16(0);
    assert Bytes.Digit(n, 16, 0) == n;
  }

  lemma ShowsSnoc(h: string, n: nat)
    requires n >= 16 && h != "" && Shows(h, n / 16, 1)
    ensures Shows(h + [DIGITS[n % 16]], n, 1)
  {
    var h' := h + [DIGITS[n % 16]];
    forall i | 0 <= i < |h'|
      ensures h'[i] == DIGITS[Bytes.Digit(n, 16, |h'| - 1 - i)]
    {
      if i < |h| {
        assert h[i] == DIGITS[Bytes.Digit(n / 16, 16, |h| - 1 - i)];
      }
    }
    hide DIGITS;
    assert Pow16(|h'|) == 16 * Pow16(|h|);
    assert |h| > 1 ==> Pow16(|h|) == 16 * Pow16(|h| - 1);
    assert |h| == 1 ==> Pow16(|h|) == 16 * Pow16(0);
  }

  lemma ShowsPad(h: string, n: nat, width: nat)
    requires Shows(h, n, width) && |h| == width
    ensures Shows("0" + h, n, width + 1)
  {
    HighDigit(n, width);
    hide Bytes.Digit;
    var h' := "0" + h;
    forall i | 0 <= i < |h'|
      ensures h'[i] == DIGITS[Bytes.Digit(n, 16, |h'| - 1 - i)]
    {
      if i > 0 {
        assert h[i - 1] == DIGITS[Bytes.Digit(n, 16, |h| - 1 - (i - 1))];
      }
    }
    assert Pow16(width + 1) == 16 * Pow16(width);
  }
}

/** Node ids as log records show them. */
module NodeId {
  import opened JsonPacket
  import opened Bytes
  import Hex

  function HexDigits(n: nat): string {
    (if n < 16 then "" else HexDigits(n / 16)) + [Hex.Digit(n % 16) as char]
  }

  function ZeroPad(s: string, width: nat): string {
    if |s| >= width then s else "0" + ZeroPad(s, width - 1)
  }

  /** Python's `f"{n:08x}"`: the sign counts towards the width. */
  function Hex08(n: int): string {
    if n >= 0 then ZeroPad(HexDigits(n), 8) else "-" + ZeroPad(HexDigits(-n), 7)
  }

  function HexDigit(c: char): nat {
    match Hex.Value(c as int)
    case Some(d) => d
    case None => 0
  }

  function HexValue(s: string): nat {
    if s == "" then 0 else 16 * HexValue(s[..|s| - 1]) + HexDigit(s[|s| - 1])
  }

  lemma DigitValue(d: nat)
    requires d < 16
    ensures HexDigit(Hex.Digit(d) as char) == d
  {
  }

  lemma ValueSnoc(s: string, c: char)
    ensures HexValue(s + [c]) == 16 * HexValue(s) + HexDigit(c)
  {
    assert (s + [c])[..|s|] == s;
  }

  lemma {:induction false} HexDigitsValue(n: nat)
    ensures HexValue(HexDigits(n)) == n
  {
    DigitValue(n % 16);
    hide HexDigit;
    var head := if n < 16 then "" else HexDigits(n / 16);
    ValueSnoc(head, Hex.Digit(n % 16) as char);
    if n >= 16 {
      HexDigitsValue(n / 16);
    }
  }

  lemma {:induction false} HexValueZero(s: string)
    ensures HexValue("0" + s) == HexValue(s)
  {
    if s == "" {
      assert "0" + s == "0";
      assert "0"[..0] == "";
    } else {
      assert ("0" + s)[..|s|] == "0" + s[..|s| - 1];
      HexValueZero(s[..|s| - 1]);
    }
  }

  lemma {:induction false} PaddedValue(s: string, width: nat)
    ensures HexValue(ZeroPad(s, width)) == HexValue(s)
    ensures |ZeroPad(s, width)| == if |s| >= width then |s| else width
  {
    if |s| < width {
      PaddedValue(s, width - 1);
      HexValueZero(ZeroPad(s, width - 1));
    }
  }

  lemma {:induction false} HexDigitsLength(n: nat, k: nat)
    requires k > 0 && n < Hex.Pow16(k)
    ensures |HexDigits(n)| <= k
  {
    if n >= 16 {
      HexDigitsLength(n / 16, k - 1);
    }
  }

  /** A node id prints as `!` and eight digits that read back as the id: no two nodes share a name. */
  lemma NodeNameReads(n: nat)
    requires n < TWO_32
    ensures FmtNode(Int(n)) == Done("!" + Hex08(n))
    ensures |Hex08(n)| == 8 && HexValue(Hex08(n)) == n
  {
    Hex.Pow16Values();
    HexDigitsLength(n, 8);
    PaddedValue(HexDigits(n), 8);
    HexDigitsValue(n);
  }

  /** A JSON float, list or object cannot be formatted in hexadecimal. */
  predicate Formattable(v: Json) {
    !v.Float? && !v.Arr? && !v.Obj?
  }

  function FmtNode(v: Json): (r: Attempt<string>)
    ensures r.Done? <==> Formattable(v)
  {
    match v
    case Null => Done("?")
    case Str(s) => Done(s)
    case Int(n) => Done("!" + Hex08(n))
    case Bool(b) => Done("!" + Hex08(if b then 1 else 0))
    case _ => Raised
  }

  function Relay(v: Json): Json {
    if v.Int? && v.n != 0 then Str(ZeroPad(HexDigits(v.n % 256), 2)) else Null
  }

  // ---- What is shown ----

  lemma {:induction false} HexDigitsShow(n: nat)
    ensures HexDigits(n) != "" && Hex.Shows(HexDigits(n), n, 1)
  {
    hide Hex.Shows;
    Hex.DigitChar(n % 16);
    hide Hex.Digit;
    if n < 16 {
      Hex.ShowsDigit(n);
      assert HexDigits(n) == [Hex.DIGITS[n]];
    } else {
      HexDigitsShow(n / 16);
      Hex.ShowsSnoc(HexDigits(n / 16), n);
    }
  }

  lemma {:induction false} ZeroPadShows(h: string, n: nat, width: nat)
    requires h != "" && Hex.Shows(h, n, 1) && width >= 1
    ensures Hex.Shows(ZeroPad(h, width), n, width)
    ensures |ZeroPad(h, width)| == if |h| >= width then |h| else width
  {
    if |h| < width {
      ZeroPadShows(h, n, width - 1);
      hide Hex.Shows;
      Hex.ShowsPad(ZeroPad(h, width - 1), n, width - 1);
    }
  }

  /** `shown` is how a log record names the node `v`: `!` and eight hexadecimal digits or more for an
      integer, with a minus sign in the first place of a negative one. */
  ghost predicate Named(v: Json, shown: string) {
    match v
    case Null => shown == "?"
    case Str(s) => shown == s
    case Int(n) => NamedNumber(n, shown)
    case Bool(b) => NamedNumber(if b then 1 else 0, shown)
    case _ => false
  }

  ghost predicate NamedNumber(n: int, shown: string) {
    if n >= 0 then "!" <= shown && Hex.Shows(shown[1..], n, 8) else "!-" <= shown && Hex.Shows(shown[2..], -n, 7)
  }

  lemma NumberNamed(n: int)
    ensures NamedNumber(n, "!" + Hex08(n))
  {
    hide Hex.Shows;
    if n >= 0 {
      HexDigitsShow(n);
      ZeroPadShows(HexDigits(n), n, 8);
      assert ("!" + Hex08(n))[1..] == Hex08(n);
    } else {
      HexDigitsShow(-n);
      ZeroPadShows(HexDigits(-n), -n, 7);
      assert ("!" + Hex08(n))[2..] == ZeroPad(HexDigits(-n), 7);
    }
  }

  lemma FmtNodeNames(v: Json)
    requires FmtNode(v).Done?
    ensures Named(v, FmtNode(v).value)
  {
    hide NamedNumber;
    hide Hex08;
    match v
    case Int(n) => NumberNamed(n);
    case Bool(b) => NumberNamed(if b then 1 else 0);
    case _ =>
  }

  /** A relay shows as two hexadecimal digits, the low byte of its number; none for 0. */
  ghost predicate NamedRelay(n: nat, v: Json) {
    if n == 0 then v.Null? else v.Str? && |v.s| == 2 && Hex.Shows(v.s, n % 256, 2)
  }

  lemma {:induction false} FewDigits(n: nat)
    requires n < 256
    ensures |HexDigits(n)| <= 2
  {
    if n >= 16 {
      assert |HexDigits(n / 16)| == 1;
    }
  }

  lemma RelayNames(n: nat)
    ensures NamedRelay(n, Relay(Int(n)))
  {
    hide Hex.Shows;
    HexDigitsShow(n % 256);
    ZeroPadShows(HexDigits(n % 256), n % 256, 2);
    FewDigits(n % 256);
  }
}

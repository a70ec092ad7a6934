/** The text log printer and the parser that inverts it. Text is a sequence of code points,
    lone surrogates included. */
module LogText {
  import opened Bytes
  import Hex

  type CodePoint = x: int | 0 <= x < 0x11_0000

  type Text = seq<CodePoint>

  function Ascii(s: string): (t: Text)
    ensures |t| == |s|
  {
    seq(|s|, i requires 0 <= i < |s| => s[i] as int)
  }

  const SPACE: CodePoint := 32

  const QUOTE: CodePoint := 34

  const EQUALS: CodePoint := 61

  const BACKSLASH: CodePoint := 92

  /** `str.isprintable` of one character; only its verdict on ASCII is ever assumed. */
  type Printable = CodePoint -> bool

  ghost predicate AsciiPrintable(p: Printable) {
    forall c: CodePoint :: 32 <= c < 127 ==> p(c)
  }

  predicate NeedsQuoting(c: CodePoint) {
    c == SPACE || c == QUOTE || c == BACKSLASH || c == EQUALS
  }

  /** A value that is printed as it is. */
  predicate Bare(p: Printable, text: Text) {
    text != [] && forall c | c in text :: p(c) && !NeedsQuoting(c)
  }

  // ---- Hexadecimal ----

  function HexText(n: nat, k: nat): (t: Text)
    ensures |t| == k
  {
    if k == 0 then [] else HexText(n / 16, k - 1) + [Hex.Digit(n % 16)]
  }

  function ReadHex(t: Text): Option<nat> {
    if t == [] then Some(0) else
    match (ReadHex(t[..|t| - 1]), Hex.Value(t[|t| - 1]))
    case (Some(hi), Some(lo)) => Some(16 * hi + lo)
    case _ => None
  }

  lemma {:induction false} HexRoundTrip(n: nat, k: nat)
    requires n < Hex.Pow16(k)
    ensures ReadHex(HexText(n, k)) == Some(n)
    ensures forall c | c in HexText(n, k) :: 48 <= c < 103
  {
    if k > 0 {
      HexRoundTrip(n / 16, k - 1);
      assert HexText(n, k)[..k - 1] == HexText(n / 16, k - 1);
    }
  }

  // ---- Escaping ----

  /** What `repr` shows for a character that is not printable. */
  function Repr(c: CodePoint): (t: Text)
    ensures |t| >= 2 && t[0] == BACKSLASH
  {
    if c == 10 then [BACKSLASH, 110]
    else if c == 13 then [BACKSLASH, 114]
    else if c == 9 then [BACKSLASH, 116]
    else if c < 0x100 then [BACKSLASH, 120] + HexText(c, 2)
    else if c < 0x1_0000 then [BACKSLASH, 117] + HexText(c, 4)
    else [BACKSLASH, 85] + HexText(c, 8)
  }

  function EscapeChar(p: Printable, c: CodePoint): (t: Text)
    ensures t != []
  {
    if c == QUOTE || c == BACKSLASH then [BACKSLASH, c]
    else if p(c) then [c]
    else Repr(c)
  }

  function EscapeBody(p: Printable, text: Text): Text {
    if text == [] then [] else EscapeChar(p, text[0]) + EscapeBody(p, text[1..])
  }

  function Escape(p: Printable, text: Text): Text {
    if Bare(p, text) then text else [QUOTE] + EscapeBody(p, text) + [QUOTE]
  }

  lemma {:induction false} EscapeBodyAppend(p: Printable, text: Text, c: CodePoint)
    ensures EscapeBody(p, text + [c]) == EscapeBody(p, text) + EscapeChar(p, c)
  {
    hide EscapeChar;
    var last := EscapeChar(p, c);
    if text == [] {
      assert text + [c] == [c];
      assert EscapeBody(p, [c]) == last + [];
    } else {
      var head, body := EscapeChar(p, text[0]), EscapeBody(p, text[1..]);
      EscapeBodyAppend(p, text[1..], c);
      assert (text + [c])[1..] == text[1..] + [c];
      assert head + (body + last) == (head + body) + last;
    }
  }

  method EscapeValue(p: Printable, text: Text) returns (r: Text)
    ensures r == Escape(p, text)
  {
    if Bare(p, text) {
      return text;
    }
    var out: Text := [];
    for i := 0 to |text|
      invariant out == EscapeBody(p, text[..i])
    {
      var c := text[i];
      assert text[..i + 1] == text[..i] + [c];
      EscapeBodyAppend(p, text[..i], c);
      if c == QUOTE || c == BACKSLASH {
        out := out + [BACKSLASH, c];
      } else if p(c) {
        out := out + [c];
      } else {
        out := out + Repr(c);
      }
    }
    assert text[..|text|] == text;
    r := [QUOTE] + out + [QUOTE];
  }

  // ---- What is printed ----

  lemma {:induction false} EscapeBodyLonger(p: Printable, text: Text)
    ensures |EscapeBody(p, text)| >= |text|
  {
    if text != [] {
      EscapeBodyLonger(p, text[1..]);
    }
  }

  /** A value is printed as it is exactly when it is not empty and every character is printable and
      none of space, `"`, `=` and the backslash; otherwise it stands between quotes. */
  lemma EscapeExact(p: Printable, v: Text)
    ensures Escape(p, v) == v <==> v != [] && forall c | c in v :: p(c) && c != 32 && c != 34 && c != 61 && c != 92
    ensures Escape(p, v) == v || Escape(p, v) == [QUOTE] + EscapeBody(p, v) + [QUOTE]
  {
    EscapeBodyLonger(p, v);
  }

  /** Between the quotes, printable characters that are neither quote nor backslash are kept. */
  lemma {:induction false} EscapeKeeps(p: Printable, v: Text)
    requires forall c | c in v :: p(c) && c != 34 && c != 92
    ensures EscapeBody(p, v) == v
  {
    if v != [] {
      assert v[0] in v && forall c | c in v[1..] :: c in v;
      EscapeKeeps(p, v[1..]);
      assert v == [v[0]] + v[1..];
    }
  }

  lemma {:induction false} HexTextDigits(n: nat, k: nat)
    ensures forall i | 0 <= i < k :: HexText(n, k)[i] == Hex.DIGITS[Digit(n, 16, k - 1 - i)] as int
  {
    if k > 0 {
      HexTextDigits(n / 16, k - 1);
      Hex.DigitChar(n % 16);
      hide Hex.DIGITS;
      hide Hex.Digit;
      forall i | 0 <= i < k
        ensures HexText(n, k)[i] == Hex.DIGITS[Digit(n, 16, k - 1 - i)] as int
      {
        if i < k - 1 {
          assert HexText(n, k)[i] == HexText(n / 16, k - 1)[i];
        }
      }
    }
  }

  /** How many hexadecimal digits an escape has: the fewest of 2, 4 and 8 that hold the character. */
  function EscapeWidth(c: CodePoint): nat {
    if c < 0x100 then 2 else if c < 0x1_0000 then 4 else 8
  }

  /** A character that is not printable shows as `\n`, `\r`, `\t`, or as `\x`, `\u` or `\U` and its
      number in hexadecimal. */
  lemma ReprExact(c: CodePoint)
    ensures c in {9, 10, 13} ==>
              Repr(c) == Ascii("\\") + Ascii(if c == 9 then "t" else if c == 10 then "n" else "r")
    ensures c !in {9, 10, 13} ==>
              && |Repr(c)| == 2 + EscapeWidth(c) && Repr(c)[0] == '\\' as int
              && Repr(c)[1] == (if c < 0x100 then 'x' else if c < 0x1_0000 then 'u' else 'U') as int
              && forall i | 2 <= i < |Repr(c)| ::
                   Repr(c)[i] == Hex.DIGITS[Digit(c, 16, |Repr(c)| - 1 - i)] as int
  {
    HexTextDigits(c, EscapeWidth(c));
    hide Hex.DIGITS;
    hide HexText;
    hide Digit;
  }

  // ---- Reading back ----

  /** One character of a quoted value and the code points it took. */
  function ReadChar(t: Text): (r: Option<(CodePoint, nat)>)
    requires t != []
    ensures r.Some? ==> 1 <= r.value.1 <= |t|
  {
    if t[0] != BACKSLASH then Some((t[0], 1))
    else if |t| < 2 then None
    else if t[1] == QUOTE || t[1] == BACKSLASH then Some((t[1], 2))
    else if t[1] == 110 then Some((10, 2))
    else if t[1] == 114 then Some((13, 2))
    else if t[1] == 116 then Some((9, 2))
    else if t[1] == 120 then ReadHexChar(t, 2)
    else if t[1] == 117 then ReadHexChar(t, 4)
    else if t[1] == 85 then ReadHexChar(t, 8)
    else None
  }

  function ReadHexChar(t: Text, k: nat): (r: Option<(CodePoint, nat)>)
    requires |t| >= 2
    ensures r.Some? ==> 1 <= r.value.1 <= |t|
  {
    if |t| < 2 + k then None else
    match ReadHex(t[2..2 + k])
    case Some(n) => if n < 0x11_0000 then Some((n, 2 + k)) else None
    case None => None
  }

  /** The value up to the closing quote, and the code points taken with that quote. */
  function ReadQuoted(t: Text): (r: Option<(Text, nat)>)
    ensures r.Some? ==> r.value.1 <= |t|
    decreases |t|
  {
    if t == [] then None
    else if t[0] == QUOTE then Some(([], 1))
    else match ReadChar(t)
      case None => None
      case Some((c, n)) =>
        match ReadQuoted(t[n..])
        case None => None
        case Some((rest, m)) => Some(([c] + rest, n + m))
  }

  /** Everything before the first `stop`. */
  function Until(t: Text, stop: CodePoint): (r: Text)
    ensures r <= t && stop !in r
    ensures |r| < |t| ==> t[|r|] == stop
  {
    if t == [] || t[0] == stop then [] else [t[0]] + Until(t[1..], stop)
  }

  function ReadValue(t: Text): (r: Option<(Text, nat)>)
    ensures r.Some? ==> r.value.1 <= |t|
  {
    if t != [] && t[0] == QUOTE then
      match ReadQuoted(t[1..])
      case None => None
      case Some((v, n)) => Some((v, n + 1))
    else
      var v := Until(t, SPACE);
      Some((v, |v|))
  }

  /** `key=value`, and what is left of the line after it. */
  function ReadField(t: Text): (r: Option<((Text, Text), Text)>)
    ensures r.Some? ==> |r.value.1| < |t|
  {
    var key := Until(t, EQUALS);
    if |key| == |t| then None else
    var after := t[|key| + 1..];
    match ReadValue(after)
    case None => None
    case Some((v, n)) => Some(((key, v), after[n..]))
  }

  /** ` key=value` again and again until the line ends. */
  function ReadFields(t: Text): Option<seq<(Text, Text)>>
    decreases |t|
  {
    if t == [] then Some([])
    else if t[0] != SPACE then None
    else
      match ReadField(t[1..])
      case None => None
      case Some((field, left)) =>
        match ReadFields(left)
        case None => None
        case Some(rest) => Some([field] + rest)
  }

  datatype Line = Line(tag: Text, fields: seq<(Text, Text)>)

  /** A quote-aware tokenizer for a whole line. */
  function ReadLine(t: Text): Option<Line> {
    var tag := Until(t, SPACE);
    match ReadFields(t[|tag|..])
    case None => None
    case Some(fields) => Some(Line(tag, fields))
  }

  // ---- Printing a line ----

  function RenderField(p: Printable, f: (Text, Text)): Text {
    f.0 + [EQUALS] + Escape(p, f.1)
  }

  function RenderFields(p: Printable, fields: seq<(Text, Text)>): Text {
    if fields == [] then [] else [SPACE] + RenderField(p, fields[0]) + RenderFields(p, fields[1..])
  }

  function RenderLine(p: Printable, line: Line): Text {
    line.tag + RenderFields(p, line.fields)
  }

  // ---- The parser inverts the printer ----

  lemma {:induction false} UntilStop(v: Text, t: Text, stop: CodePoint)
    requires stop !in v
    requires t == [] || t[0] == stop
    ensures Until(v + t, stop) == v
  {
    if v == [] {
      assert v + t == t;
    } else {
      assert (v + t)[1..] == v[1..] + t;
      UntilStop(v[1..], t, stop);
    }
  }

  lemma HexCharRoundTrip(mark: CodePoint, c: CodePoint, k: nat, t: Text)
    requires c < Hex.Pow16(k)
    ensures ReadHexChar([BACKSLASH, mark] + HexText(c, k) + t, k) == Some((c, 2 + k))
  {
    HexRoundTrip(c, k);
    assert ([BACKSLASH, mark] + HexText(c, k) + t)[2..2 + k] == HexText(c, k);
  }

  lemma ReprRoundTrip(c: CodePoint, t: Text)
    ensures ReadChar(Repr(c) + t) == Some((c, |Repr(c)|))
  {
    Hex.Pow16Values();
    if c !in [9, 10, 13] {
      if c < 0x100 {
        HexCharRoundTrip(120, c, 2, t);
      } else if c < 0x1_0000 {
        HexCharRoundTrip(117, c, 4, t);
      } else {
        HexCharRoundTrip(85, c, 8, t);
      }
    }
  }

  lemma CharRoundTrip(p: Printable, c: CodePoint, t: Text)
    ensures ReadChar(EscapeChar(p, c) + t) == Some((c, |EscapeChar(p, c)|))
    ensures EscapeChar(p, c)[0] != QUOTE
  {
    if c != QUOTE && c != BACKSLASH && !p(c) {
      ReprRoundTrip(c, t);
    }
  }

  lemma QuotedStep(head: Text, c: CodePoint, rest: Text)
    requires head != [] && head[0] != QUOTE && ReadChar(head + rest) == Some((c, |head|))
    requires ReadQuoted(rest).Some?
    ensures ReadQuoted(head + rest) == Some(([c] + ReadQuoted(rest).value.0, |head| + ReadQuoted(rest).value.1))
  {
    hide ReadChar;
    assert (head + rest)[|head|..] == rest;
  }

  lemma {:induction false} QuotedRoundTrip(p: Printable, text: Text, t: Text)
    ensures ReadQuoted(EscapeBody(p, text) + [QUOTE] + t) == Some((text, |EscapeBody(p, text)| + 1))
    decreases |text|
  {
    hide ReadChar;
    hide EscapeChar;
    var all := EscapeBody(p, text) + [QUOTE] + t;
    if text != [] {
      hide ReadQuoted;
      var head := EscapeChar(p, text[0]);
      var rest := EscapeBody(p, text[1..]) + [QUOTE] + t;
      assert all == head + rest;
      CharRoundTrip(p, text[0], rest);
      QuotedRoundTrip(p, text[1..], t);
      QuotedStep(head, text[0], rest);
      assert [text[0]] + text[1..] == text;
    }
  }

  lemma QuotedValue(body: Text, t: Text)
    requires ReadQuoted(body + [QUOTE] + t).Some?
    ensures var (v, n) := ReadQuoted(body + [QUOTE] + t).value;
            ReadValue([QUOTE] + body + [QUOTE] + t) == Some((v, n + 1))
  {
    hide ReadQuoted;
    assert ([QUOTE] + body + [QUOTE] + t)[1..] == body + [QUOTE] + t;
  }

  lemma BareValue(p: Printable, v: Text, t: Text)
    requires Bare(p, v) && (t == [] || t[0] == SPACE)
    ensures ReadValue(v + t) == Some((v, |v|))
  {
    hide ReadQuoted;
    assert v[0] in v;
    UntilStop(v, t, SPACE);
  }

  /** A printed value ends where it ends: what follows it never leaks in, and it never leaks out. */
  lemma ValueRoundTrip(p: Printable, v: Text, t: Text)
    requires t == [] || t[0] == SPACE
    ensures ReadValue(Escape(p, v) + t) == Some((v, |Escape(p, v)|))
  {
    hide ReadValue;
    hide Bare;
    if Bare(p, v) {
      BareValue(p, v, t);
    } else {
      QuotedRoundTrip(p, v, t);
      QuotedValue(EscapeBody(p, v), t);
      assert Escape(p, v) + t == [QUOTE] + EscapeBody(p, v) + [QUOTE] + t;
    }
  }

  lemma FieldRoundTrip(p: Printable, f: (Text, Text), t: Text)
    requires EQUALS !in f.0 && (t == [] || t[0] == SPACE)
    ensures ReadField(RenderField(p, f) + t) == Some((f, t))
  {
    hide ReadValue;
    var printed := Escape(p, f.1);
    ValueRoundTrip(p, f.1, t);
    hide Escape;
    var all := RenderField(p, f) + t;
    assert all == f.0 + ([EQUALS] + (printed + t));
    UntilStop(f.0, [EQUALS] + (printed + t), EQUALS);
    hide Until;
    assert all[|f.0| + 1..] == printed + t;
    assert (printed + t)[|printed|..] == t;
  }

  lemma {:induction false} FieldsRoundTrip(p: Printable, fields: seq<(Text, Text)>)
    requires forall f | f in fields :: EQUALS !in f.0
    ensures ReadFields(RenderFields(p, fields)) == Some(fields)
  {
    hide ReadField;
    hide RenderField;
    if fields != [] {
      var rest := RenderFields(p, fields[1..]);
      var all := RenderFields(p, fields);
      assert rest == [] || rest[0] == SPACE;
      assert all == [SPACE] + (RenderField(p, fields[0]) + rest);
      assert all[1..] == RenderField(p, fields[0]) + rest;
      FieldRoundTrip(p, fields[0], rest);
      FieldsRoundTrip(p, fields[1..]);
      assert [fields[0]] + fields[1..] == fields;
    }
  }

  /** A printed line parses back to exactly its tag and its fields, for all values and under any
      notion of printable, precisely when the tag itself holds no space. */
  lemma LineRoundTrip(p: Printable, line: Line)
    requires forall f | f in line.fields :: EQUALS !in f.0
    ensures ReadLine(RenderLine(p, line)) == Some(line) <==> SPACE !in line.tag
  {
    if SPACE !in line.tag {
      var rest := RenderFields(p, line.fields);
      UntilStop(line.tag, rest, SPACE);
      assert RenderLine(p, line)[|line.tag|..] == rest;
      FieldsRoundTrip(p, line.fields);
    }
  }

  lemma EscapeInjective(p: Printable, v: Text, w: Text)
    requires Escape(p, v) == Escape(p, w)
    ensures v == w
  {
    ValueRoundTrip(p, v, []);
    ValueRoundTrip(p, w, []);
    assert Escape(p, v) + [] == Escape(p, w) + [];
  }

  // ---- One record, one line ----

  lemma {:induction false} EscapeBodyPrintable(p: Printable, text: Text)
    requires AsciiPrintable(p)
    ensures forall c | c in EscapeBody(p, text) :: p(c)
  {
    if text != [] {
      EscapeBodyPrintable(p, text[1..]);
      EscapeCharPrintable(p, text[0]);
    }
  }

  lemma EscapeCharPrintable(p: Printable, c: CodePoint)
    requires AsciiPrintable(p)
    ensures forall d | d in EscapeChar(p, c) :: p(d)
  {
    ReprAscii(c);
    hide Repr;
  }

  lemma ReprAscii(c: CodePoint)
    ensures forall d | d in Repr(c) :: 48 <= d < 127
  {
    Hex.Pow16Values();
    hide HexText;
    hide Hex.Pow16;
    if c < 0x100 {
      HexRoundTrip(c, 2);
    } else if c < 0x1_0000 {
      HexRoundTrip(c, 4);
    } else {
      HexRoundTrip(c, 8);
    }
  }

  /** Every character printed for a value is printable, so whatever breaks a line is not among them. */
  lemma EscapePrintable(p: Printable, v: Text)
    requires AsciiPrintable(p)
    ensures forall c | c in Escape(p, v) :: p(c)
  {
    EscapeBodyPrintable(p, v);
  }

  lemma {:induction false} FieldsPrintable(p: Printable, fields: seq<(Text, Text)>)
    requires AsciiPrintable(p)
    requires forall f, c | f in fields && c in f.0 :: p(c)
    ensures forall c | c in RenderFields(p, fields) :: p(c)
  {
    if fields != [] {
      EscapePrintable(p, fields[0].1);
      assert forall f | f in fields[1..] :: f in fields;
      FieldsPrintable(p, fields[1..]);
    }
  }

  /** A line whose tag and keys are printable holds no character that is not. */
  lemma LinePrintable(p: Printable, line: Line)
    requires AsciiPrintable(p)
    requires forall c | c in line.tag :: p(c)
    requires forall f, c | f in line.fields && c in f.0 :: p(c)
    ensures forall c | c in RenderLine(p, line) :: p(c)
  {
    FieldsPrintable(p, line.fields);
  }
}

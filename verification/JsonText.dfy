/** The lengths of JSON texts as `json.dumps` writes them, in ASCII. */
module JsonText {
  import opened Wrappers

  /** Bytes that one character takes inside a JSON string written in ASCII. */
  function CharCost(c: char): (n: nat)
    ensures 1 <= n <= 12
  {
    if c == '"' || c == '\\' || c == '\n' || c == '\r' || c == '\t' || c as int == 8 || c as int == 12 then 2
    else if ' ' <= c <= '~' then 1
    else if (c as int) < 0x1_0000 then 6
    else 12
  }

  /** The escaped body of a JSON string, without its quotes. */
  function TextCost(text: string): nat
    decreases |text|
  {
    if text == "" then 0 else CharCost(text[0]) + TextCost(text[1..])
  }

  lemma {:induction false} TextCostConcat(a: string, b: string)
    ensures TextCost(a + b) == TextCost(a) + TextCost(b)
    decreases |a|
  {
    if a == "" {
      assert a + b == b;
    } else {
      TextCostConcat(a[1..], b);
      assert (a + b)[1..] == a[1..] + b;
    }
  }

  /** The length of a count. */
  function Digits(n: nat): (d: nat)
    ensures d >= 1
  {
    if n < 10 then 1 else 1 + Digits(n / 10)
  }

  lemma {:induction false} DigitsGrow(m: nat, n: nat)
    requires m <= n
    ensures Digits(m) <= Digits(n)
    decreases n
  {
    if m >= 10 {
      DigitsGrow(m / 10, n / 10);
    }
  }

  // ------------------------------------------------------------------ the texts these are the lengths of

  function HexChar(d: nat): char
    requires d < 16
  {
    "0123456789abcdef"[d]
  }

  function HexValue(c: char): nat {
    if '0' <= c <= '9' then c as nat - '0' as nat
    else if 'a' <= c <= 'f' then c as nat - 'a' as nat + 10
    else 0
  }

  /** A code unit of UTF-16 as an escape. */
  function UnitEscape(u: nat): (s: string)
    requires u < 0x1_0000
    ensures |s| == 6 && s[0] == '\\' && s[1] == 'u'
  {
    ['\\', 'u', HexChar(u / 4096), HexChar(u / 256 % 16), HexChar(u / 16 % 16), HexChar(u % 16)]
  }

  /** The escape of one letter behind a backslash, for the characters that have one. */
  function Short(c: char): Option<char> {
    if c == '"' || c == '\\' then Some(c)
    else if c == '\n' then Some('n')
    else if c == '\r' then Some('r')
    else if c == '\t' then Some('t')
    else if c as int == 8 then Some('b')
    else if c as int == 12 then Some('f')
    else None
  }

  /** One character as it stands in the ASCII text; beyond the first plane it takes two code units. */
  function Escape(c: char): string {
    var code := c as nat;
    if Short(c).Some? then ['\\', Short(c).value]
    else if ' ' <= c <= '~' then [c]
    else if code < 0x1_0000 then UnitEscape(code)
    else
      assert code < 0x11_0000;
      UnitEscape(0xD800 + (code - 0x1_0000) / 0x400) + UnitEscape(0xDC00 + (code - 0x1_0000) % 0x400)
  }

  /** The escaped body of a JSON string. */
  function Escaped(text: string): string
    decreases |text|
  {
    if text == "" then "" else Escape(text[0]) + Escaped(text[1..])
  }

  function UnitAt(s: string): nat
    requires |s| >= 6
  {
    ((HexValue(s[2]) * 16 + HexValue(s[3])) * 16 + HexValue(s[4])) * 16 + HexValue(s[5])
  }

  function Long(letter: char): Option<char> {
    match letter
    case 'n' => Some('\n')
    case 'r' => Some('\r')
    case 't' => Some('\t')
    case 'b' => Some(8 as char)
    case 'f' => Some(12 as char)
    case '"' => Some('"')
    case '\\' => Some('\\')
    case _ => None
  }

  /** Read one character of a JSON string (section 7 of RFC 8259), and how much it takes. */
  function ReadChar(s: string): (r: Option<(char, nat)>)
    ensures r.Some? ==> 1 <= r.value.1 <= |s|
  {
    if s == "" || s[0] == '"' then None
    else if s[0] != '\\' then Some((s[0], 1))
    else if |s| >= 2 && s[1] != 'u' then
      if Long(s[1]).Some? then Some((Long(s[1]).value, 2)) else None
    else if |s| < 6 then None
    else
      var u := UnitAt(s);
      if u < 0xD800 || 0xE000 <= u < 0x1_0000 then Some((u as char, 6))
      else if |s| < 12 || s[6] != '\\' || s[7] != 'u' then None
      else
        var low := UnitAt(s[6..]);
        if u < 0xDC00 && 0xDC00 <= low < 0xE000 then
          Some(((0x1_0000 + (u - 0xD800) * 0x400 + (low - 0xDC00)) as char, 12))
        else None
  }

  function ReadString(s: string): Option<string>
    decreases |s|
  {
    if s == "" then Some("")
    else
      match ReadChar(s)
      case None => None
      case Some((c, n)) =>
        match ReadString(s[n..])
        case None => None
        case Some(more) => Some([c] + more)
  }

  lemma Nibbles(u: nat)
    ensures ((u / 4096 * 16 + u / 256 % 16) * 16 + u / 16 % 16) * 16 + u % 16 == u
  {
    var a, r := u / 16, u % 16;
    var b, q := a / 16, a % 16;
    var c, p := b / 16, b % 16;
    assert u == 16 * a + r && a == 16 * b + q && b == 16 * c + p;
    Quotient(u, 256, b, 16 * q + r);
    Quotient(u, 4096, c, 256 * p + 16 * q + r);
  }

  lemma Quotient(n: nat, d: nat, q: nat, r: nat)
    requires d in {256, 4096} && n == d * q + r && r < d
    ensures n / d == q
  {
  }

  lemma UnitReadsBack(u: nat, tail: string)
    requires u < 0x1_0000
    ensures UnitAt(UnitEscape(u) + tail) == u
  {
    hide HexValue, HexChar;
    HexReadsBack(u / 4096);
    HexReadsBack(u / 256 % 16);
    HexReadsBack(u / 16 % 16);
    HexReadsBack(u % 16);
    Nibbles(u);
  }

  lemma HexReadsBack(d: nat)
    requires d < 16
    ensures HexValue(HexChar(d)) == d
  {
  }

  lemma CharReadsBack(c: char, tail: string)
    ensures ReadChar(Escape(c) + tail) == Some((c, |Escape(c)|)) && |Escape(c)| == CharCost(c)
  {
    hide UnitAt, UnitEscape;
    var code, s := c as nat, Escape(c) + tail;
    if Short(c).None? && !(' ' <= c <= '~') {
      if code < 0x1_0000 {
        UnitReadsBack(code, tail);
      } else {
        var high, low := 0xD800 + (code - 0x1_0000) / 0x400, 0xDC00 + (code - 0x1_0000) % 0x400;
        assert s == UnitEscape(high) + (UnitEscape(low) + tail);
        UnitReadsBack(high, UnitEscape(low) + tail);
        assert s[6..] == UnitEscape(low) + tail;
        UnitReadsBack(low, tail);
      }
    }
  }

  /** The costs are the lengths of texts that read back to what was written. */
  lemma {:induction false} WrittenReadsBack(text: string)
    ensures |Escaped(text)| == TextCost(text) && ReadString(Escaped(text)) == Some(text)
    decreases |text|
  {
    hide Escape, ReadChar, CharCost;
    if text != "" {
      var first, rest := Escape(text[0]), Escaped(text[1..]);
      CharReadsBack(text[0], rest);
      WrittenReadsBack(text[1..]);
      assert (first + rest)[|first|..] == rest && first + rest != "";
      assert text == [text[0]] + text[1..];
    }
  }

  /** A count in decimal. */
  function Numeral(n: nat): string {
    (if n < 10 then "" else Numeral(n / 10)) + ["0123456789"[n % 10]]
  }

  function NumeralValue(s: string): nat
    decreases |s|
  {
    if s == "" then 0 else NumeralValue(s[..|s| - 1]) * 10 + HexValue(s[|s| - 1])
  }

  lemma {:induction false} NumeralReadsBack(n: nat)
    ensures |Numeral(n)| == Digits(n) && NumeralValue(Numeral(n)) == n
  {
    assert Numeral(n)[..|Numeral(n)| - 1] == if n < 10 then "" else Numeral(n / 10);
    DigitReadsBack(n % 10);
    if n >= 10 {
      NumeralReadsBack(n / 10);
    }
  }

  lemma DigitReadsBack(d: nat)
    requires d < 10
    ensures HexValue("0123456789"[d]) == d
  {
  }
}

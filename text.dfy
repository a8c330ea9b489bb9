/** The string operations of Rust's standard library that the core uses:
    zero-padded hexadecimal and plain decimal formatting, `u32::from_str_radix`
    with radix 16, UTF-8 encoding (`as_bytes`, `len`), `split`, `trim`,
    `to_lowercase` and `contains`. Strings are sequences of Unicode scalar
    values, as Rust's `char` is. */
module Text {
  import opened Seqs
  import opened Bytes

  // ---------------------------------------------------------------------
  // Hexadecimal

  function Pow16(k: nat): (r: nat)
    ensures r >= 1
  {
    if k == 0 then 1 else 16 * Pow16(k - 1)
  }

  const HEX_DIGITS: string := "0123456789abcdef"

  /** The lower-case hexadecimal digit of a value below 16. */
  function HexDigit(d: nat): char
    requires d < 16
  {
    HEX_DIGITS[d]
  }

  /** The low `width` hexadecimal digits of `n`, most significant first,
      zero-padded, for a value that fits in `width` digits. */
  function HexDigits(n: nat, width: nat): (r: string)
    ensures |r| == width
  {
    if width == 0 then "" else HexDigits(n / 16, width - 1) + [HexDigit(n % 16)]
  }

  /** Every character printed is a lower-case hexadecimal digit. */
  lemma {:induction false} HexDigitsAreDigits(n: nat, width: nat)
    ensures forall i | 0 <= i < width :: HexDigits(n, width)[i] in HEX_DIGITS
  {
    if width > 0 {
      HexDigitsAreDigits(n / 16, width - 1);
      var r := HexDigits(n, width);
      assert r == HexDigits(n / 16, width - 1) + [HexDigit(n % 16)];
      assert forall i | 0 <= i < width - 1 :: r[i] == HexDigits(n / 16, width - 1)[i];
    }
  }

  /** A `u32` formatted as `0x` and eight zero-padded lower-case hexadecimal
      digits. */
  function Hex8(n: u32): (r: string)
    ensures |r| == 10 && r[..2] == "0x"
    ensures forall i | 2 <= i < 10 :: r[i] in HEX_DIGITS
  {
    HexDigitsAreDigits(n, 8);
    "0x" + HexDigits(n, 8)
  }

  /** The value of one hexadecimal digit, either case, as `char::to_digit(16)`.
      The code points of '0', 'a' and 'A' are 48, 97 and 65, and 'a' and 'A'
      stand for ten. */
  function HexValue(c: char): (r: Option<nat>)
    ensures r.Some? ==> r.value < 16
  {
    if '0' <= c <= '9' then Some(c as int - 48)
    else if 'a' <= c <= 'f' then Some(c as int - 87)
    else if 'A' <= c <= 'F' then Some(c as int - 55)
    else None
  }

  /** The value of a string of hexadecimal digits, most significant first;
      `None` when some character is not a digit. */
  function ParseHexDigits(s: string): Option<nat>
  {
    if s == [] then Some(0)
    else
      match ParseHexDigits(s[..|s| - 1])
      case None => None
      case Some(v) =>
        match HexValue(s[|s| - 1])
        case None => None
        case Some(d) => Some(16 * v + d)
  }

  /** `u32::from_str_radix(s, 16)`, with the error kinds collapsed to `None`:
      an empty string, a lone `+`, a character that is not a hexadecimal
      digit (a leading `-` included, the type being unsigned) and a value
      that does not fit in 32 bits are all rejected; one leading `+` is
      accepted. */
  function FromStrRadix16(s: string): (r: Option<u32>)
    ensures r.Some? ==> s != [] && s != "+"
  {
    if s == [] || s == "+" then None
    else
      var digits := if s[0] == '+' then s[1..] else s;
      match ParseHexDigits(digits)
      case Some(v) => if v < U32_LIMIT then Some(v) else None
      case None => None
  }

  lemma HexValueOfDigit(d: nat)
    requires d < 16
    ensures HexValue(HexDigit(d)) == Some(d)
  {
    assert HEX_DIGITS == ['0','1','2','3','4','5','6','7','8','9','a','b','c','d','e','f'];
  }

  /** Reading back the digits printed for `n` gives `n`, when `n` fits. */
  lemma {:induction false} ParseHexDigitsOfHexDigits(n: nat, width: nat)
    requires n < Pow16(width)
    ensures ParseHexDigits(HexDigits(n, width)) == Some(n)
  {
    if width > 0 {
      var q, d := n / 16, n % 16;
      DivBound(n, 16, Pow16(width - 1));
      ParseHexDigitsOfHexDigits(q, width - 1);
      HexValueOfDigit(d);
      var init, c := HexDigits(q, width - 1), HexDigit(d);
      ParseHexDigitsSnoc(init, c);
      assert ParseHexDigits(init + [c]) == Some(16 * q + d);
      assert HexDigits(n, width) == init + [c];
      assert n == 16 * q + d;
    } else {
      assert HexDigits(n, width) == "";
    }
  }

  /** One more digit: the value so far times 16, plus the digit. */
  lemma ParseHexDigitsSnoc(init: string, c: char)
    ensures ParseHexDigits(init + [c])
              == if ParseHexDigits(init).Some? && HexValue(c).Some?
                 then Some(16 * ParseHexDigits(init).value + HexValue(c).value) else None
  {
    var s := init + [c];
    assert s[..|s| - 1] == init;
  }

  lemma DivBound(n: nat, d: nat, p: nat)
    requires d > 0 && n < d * p
    ensures n / d < p
  {
  }

  /** Every `0x%08x` token is parsed back by `from_str_radix` to its value. */
  lemma Hex8RoundTrip(n: u32)
    ensures FromStrRadix16(Hex8(n)[2..]) == Some(n)
  {
    assert Pow16(8) == U32_LIMIT;
    var digits := Hex8(n)[2..];
    assert digits == HexDigits(n, 8);
    ParseHexDigitsOfHexDigits(n, 8);
    assert digits[0] in HEX_DIGITS;
    assert digits[0] != '+';
  }

  /** A `0x%08x` token is plain ASCII. */
  lemma Hex8Ascii(n: u32)
    ensures IsAscii(Hex8(n))
  {
    var r := Hex8(n);
    assert forall k | 0 <= k < |HEX_DIGITS| :: HEX_DIGITS[k] as int < 0x80;
    assert r[0] == '0' && r[1] == 'x';
  }

  // ---------------------------------------------------------------------
  // Decimal

  function DecimalDigit(d: nat): char
    requires d < 10
  {
    HEX_DIGITS[d]
  }

  /** `format!("{}", n)`: decimal digits without leading zeros. */
  function Decimal(n: nat): (r: string)
    ensures |r| >= 1
    ensures forall i | 0 <= i < |r| :: '0' <= r[i] <= '9'
    ensures r[0] == '0' ==> n == 0
  {
    if n < 10 then [DecimalDigit(n)] else Decimal(n / 10) + [DecimalDigit(n % 10)]
  }

  /** The value of one decimal digit; the code point of '0' is 48. */
  function DecimalValue(c: char): Option<nat>
  {
    if '0' <= c <= '9' then Some(c as int - 48) else None
  }

  lemma DecimalValueOfDigit(d: nat)
    requires d < 10
    ensures DecimalValue(DecimalDigit(d)) == Some(d)
  {
    assert HEX_DIGITS[..10] == ['0','1','2','3','4','5','6','7','8','9'];
    assert DecimalDigit(d) == HEX_DIGITS[..10][d];
  }

  /** The value of a non-empty decimal numeral; `None` otherwise. */
  function ParseDecimal(s: string): Option<nat>
  {
    if s == [] then None
    else
      var d := DecimalValue(s[|s| - 1]);
      if d.None? then None
      else if |s| == 1 then d
      else
        match ParseDecimal(s[..|s| - 1])
        case None => None
        case Some(v) => Some(10 * v + d.value)
  }

  /** One more digit after a non-empty numeral. */
  lemma ParseDecimalSnoc(init: string, c: char)
    requires init != []
    ensures ParseDecimal(init + [c]) ==
              if DecimalValue(c).Some? && ParseDecimal(init).Some?
              then Some(10 * ParseDecimal(init).value + DecimalValue(c).value)
              else None
  {
    var s := init + [c];
    assert s[|s| - 1] == c;
    assert s[..|s| - 1] == init;
  }

  lemma {:induction false} ParseDecimalOfDecimal(n: nat)
    ensures ParseDecimal(Decimal(n)) == Some(n)
  {
    if n < 10 {
      DecimalValueOfDigit(n);
    } else {
      var q, d := n / 10, n % 10;
      ParseDecimalOfDecimal(q);
      DecimalValueOfDigit(d);
      var init, c := Decimal(q), DecimalDigit(d);
      ParseDecimalSnoc(init, c);
      assert Decimal(n) == init + [c];
      assert n == 10 * q + d;
    }
  }

  // ---------------------------------------------------------------------
  // UTF-8

  /** The UTF-8 encoding of one Unicode scalar value. */
  function Utf8Char(c: char): (r: seq<byte>)
    ensures 1 <= |r| <= 4
    ensures |r| == 1 <==> c as int < 0x80
    ensures |r| == 1 ==> r[0] == c as int
  {
    var n := c as int;
    if n < 0x80 then [n]
    else if n < 0x800 then [0xC0 + n / 0x40, 0x80 + n % 0x40]
    else if n < 0x1_0000 then [0xE0 + n / 0x1000, 0x80 + (n / 0x40) % 0x40, 0x80 + n % 0x40]
    else [0xF0 + n / 0x4_0000, 0x80 + (n / 0x1000) % 0x40, 0x80 + (n / 0x40) % 0x40, 0x80 + n % 0x40]
  }

  /** `String::as_bytes`; its length is `String::len`. */
  function Utf8(s: string): seq<byte>
  {
    FlatMap(s, Utf8Char)
  }

  predicate IsAscii(s: string)
  {
    forall i | 0 <= i < |s| :: s[i] as int < 0x80
  }

  /** An ASCII string encodes to its own character codes, one byte each. */
  lemma {:induction false} Utf8OfAscii(s: string)
    requires IsAscii(s)
    ensures |Utf8(s)| == |s|
    ensures forall i | 0 <= i < |s| :: Utf8(s)[i] == s[i] as int
  {
    if s != [] {
      assert IsAscii(s[1..]) by {
        assert forall i | 0 <= i < |s[1..]| :: s[1..][i] == s[i + 1];
      }
      Utf8OfAscii(s[1..]);
      assert Utf8(s) == Utf8Char(s[0]) + Utf8(s[1..]);
    }
  }

  lemma Utf8Append(s: string, t: string)
    ensures Utf8(s + t) == Utf8(s) + Utf8(t)
  {
    FlatMapAppend(s, t, Utf8Char);
  }

  // ---------------------------------------------------------------------
  // split, trim, to_lowercase, contains

  /** `str::split` on a one-character separator: the pieces between
      separators, in order, the first and last included even when empty. */
  function Split(s: string, sep: char): (r: seq<string>)
    ensures |r| >= 1
  {
    if s == [] then [""]
    else
      var rest := Split(s[1..], sep);
      if s[0] == sep then [""] + rest else [[s[0]] + rest[0]] + rest[1..]
  }

  /** `join` with a one-character separator. */
  function Join(parts: seq<string>, sep: char): string
    requires |parts| >= 1
  {
    if |parts| == 1 then parts[0] else parts[0] + [sep] + Join(parts[1..], sep)
  }

  /** No piece holds the separator. */
  lemma {:induction false} SplitPiecesLackSeparator(s: string, sep: char)
    ensures forall i | 0 <= i < |Split(s, sep)| :: sep !in Split(s, sep)[i]
  {
    if s != [] {
      SplitPiecesLackSeparator(s[1..], sep);
    }
  }

  /** Joining the pieces gives back the string. */
  lemma {:induction false} JoinSplit(s: string, sep: char)
    ensures Join(Split(s, sep), sep) == s
  {
    if s != [] {
      var rest := Split(s[1..], sep);
      JoinSplit(s[1..], sep);
      if s[0] == sep {
        assert Split(s, sep)[1..] == rest;
      } else if |rest| == 1 {
        assert [s[0]] + s[1..] == s;
      } else {
        var parts := Split(s, sep);
        assert parts[1..] == rest[1..];
        assert Join(rest, sep) == rest[0] + [sep] + Join(rest[1..], sep);
        assert parts[0] + [sep] + Join(rest[1..], sep) == [s[0]] + (rest[0] + [sep] + Join(rest[1..], sep));
        assert [s[0]] + s[1..] == s;
      }
    }
  }

  /** Splitting around one separator splits each side on its own. */
  lemma {:induction false} SplitAround(a: string, b: string, sep: char)
    ensures Split(a + [sep] + b, sep) == Split(a, sep) + Split(b, sep)
  {
    if a == [] {
      assert a + [sep] + b == [sep] + b;
      assert ([sep] + b)[1..] == b;
    } else {
      var s := a + [sep] + b;
      assert s[0] == a[0];
      assert s[1..] == a[1..] + [sep] + b;
      SplitAround(a[1..], b, sep);
    }
  }

  /** `char::is_whitespace`: the Unicode White_Space characters. */
  predicate IsWhitespace(c: char)
  {
    ('\t' <= c <= '\r') || c == ' ' || c == '\U{0085}' || c == '\U{00A0}' || c == '\U{1680}'
    || ('\U{2000}' <= c <= '\U{200A}') || c == '\U{2028}' || c == '\U{2029}'
    || c == '\U{202F}' || c == '\U{205F}' || c == '\U{3000}'
  }

  /** `str::trim_start`. */
  function TrimStart(s: string): (r: string)
    ensures |r| <= |s|
  {
    if s != [] && IsWhitespace(s[0]) then TrimStart(s[1..]) else s
  }

  /** `str::trim_end`. */
  function TrimEnd(s: string): (r: string)
    ensures |r| <= |s|
  {
    if s != [] && IsWhitespace(s[|s| - 1]) then TrimEnd(s[..|s| - 1]) else s
  }

  /** `TrimStart` drops a whitespace prefix and stops at the first other character. */
  lemma {:induction false} TrimStartDropsWhitespace(s: string)
    ensures TrimStart(s) == s[|s| - |TrimStart(s)|..]
    ensures forall k | 0 <= k < |s| - |TrimStart(s)| :: IsWhitespace(s[k])
    ensures TrimStart(s) != [] ==> !IsWhitespace(TrimStart(s)[0])
  {
    if s != [] && IsWhitespace(s[0]) {
      TrimStartDropsWhitespace(s[1..]);
      assert forall k | 1 <= k < |s| :: s[k] == s[1..][k - 1];
    }
  }

  /** `TrimEnd` drops a whitespace suffix and stops at the last other character. */
  lemma {:induction false} TrimEndDropsWhitespace(s: string)
    ensures TrimEnd(s) == s[..|TrimEnd(s)|]
    ensures forall k | |TrimEnd(s)| <= k < |s| :: IsWhitespace(s[k])
    ensures TrimEnd(s) != [] ==> !IsWhitespace(TrimEnd(s)[|TrimEnd(s)| - 1])
  {
    if s != [] && IsWhitespace(s[|s| - 1]) {
      TrimEndDropsWhitespace(s[..|s| - 1]);
      assert forall k | 0 <= k < |s| - 1 :: s[k] == s[..|s| - 1][k];
    }
  }

  /** `str::trim`: the string without its leading and trailing whitespace. */
  function Trim(s: string): (r: string)
    ensures |r| <= |s|
  {
    TrimEnd(TrimStart(s))
  }

  /** What `Trim` removes is whitespace at either end, and what it keeps
      neither starts nor ends with whitespace. */
  lemma TrimRemovesOuterWhitespace(s: string)
    ensures exists i, j | 0 <= i <= j <= |s| :: Trim(s) == s[i..j]
              && (forall k | 0 <= k < i :: IsWhitespace(s[k]))
              && (forall k | j <= k < |s| :: IsWhitespace(s[k]))
    ensures Trim(s) != [] ==> !IsWhitespace(Trim(s)[0]) && !IsWhitespace(Trim(s)[|Trim(s)| - 1])
  {
    var t := TrimStart(s);
    var r := TrimEnd(t);
    TrimStartDropsWhitespace(s);
    TrimEndDropsWhitespace(t);
    var i := |s| - |t|;
    assert r == s[i..i + |r|];
    assert forall k | i + |r| <= k < |s| :: s[k] == t[k - i];
  }

  function LowerChar(c: char): char
  {
    if 'A' <= c <= 'Z' then (c as int + 32) as char else c
  }

  /** `str::to_lowercase`, for the ASCII letters. */
  function ToLower(s: string): (r: string)
    ensures |r| == |s| && forall i | 0 <= i < |s| :: r[i] == LowerChar(s[i])
    ensures forall i | 0 <= i < |s| :: 'A' <= s[i] <= 'Z' ==> 'a' <= r[i] <= 'z' && r[i] as int - s[i] as int == 32
    ensures forall i | 0 <= i < |s| :: !('A' <= s[i] <= 'Z') ==> r[i] == s[i]
  {
    seq(|s|, i requires 0 <= i < |s| => LowerChar(s[i]))
  }

  /** `t` occurs in `s` starting at position `i`. */
  ghost predicate OccursAt(s: string, t: string, i: int)
  {
    0 <= i && i + |t| <= |s| && s[i..i + |t|] == t
  }

  /** `str::contains` for a string pattern: some window of `s` equals `t`. */
  function Contains(s: string, t: string): (r: bool)
    ensures r <==> exists i :: OccursAt(s, t, i)
  {
    if |t| > |s| then false
    else if s[..|t|] == t then assert OccursAt(s, t, 0); true
    else
      OccursInTail(s, t);
      Contains(s[1..], t)
  }

  lemma OccursInTail(s: string, t: string)
    requires s != [] && |t| <= |s| && s[..|t|] != t
    ensures forall i :: OccursAt(s, t, i) ==> OccursAt(s[1..], t, i - 1)
    ensures forall j :: OccursAt(s[1..], t, j) ==> OccursAt(s, t, j + 1)
  {
    forall i | OccursAt(s, t, i) ensures OccursAt(s[1..], t, i - 1) {
      assert i != 0;
      var j := i - 1;
      var u, w := s[1..][j..j + |t|], s[i..i + |t|];
      assert forall k | 0 <= k < |t| :: u[k] == w[k];
      assert u == w;
    }
    forall j | OccursAt(s[1..], t, j) ensures OccursAt(s, t, j + 1) {
      assert s[j + 1..j + 1 + |t|] == s[1..][j..j + |t|];
    }
  }
}

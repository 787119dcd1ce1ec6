/** Go string handling the editor relies on: byte strings, splitting at the
    first separator, trimming, ASCII lower-casing, the decimal and
    hexadecimal numerals of strconv, and UTF-8 encoding. */
module Text {

  datatype Option<T> = None | Some(value: T)

  /** The largest value of Go's 64-bit `int`. */
  const MaxInt64: nat := 0x7FFF_FFFF_FFFF_FFFF

  /** A Go `string` is a sequence of bytes: each char of a `Bytes` value holds one byte. */
  predicate IsBytes(s: string) {
    forall i | 0 <= i < |s| :: s[i] as int < 0x100
  }

  type Bytes = s: string | IsBytes(s)

  /** strings.SplitN(s, [sep], 2): the part before the first `sep` and the
      part after it, or None when there is no `sep` (SplitN then returns `s`
      as its only element). */
  function SplitOnce(s: string, sep: char): Option<(string, string)> {
    if |s| == 0 then None
    else if s[0] == sep then Some(([], s[1..]))
    else match SplitOnce(s[1..], sep)
      case None => None
      case Some((before, after)) => Some(([s[0]] + before, after))
  }

  /** There are parts exactly when there is a separator; they are the text
      before the first separator and the text after it. */
  lemma {:induction false} SplitOnceParts(s: string, sep: char)
    ensures SplitOnce(s, sep).None? <==> sep !in s
    ensures SplitOnce(s, sep).Some? ==>
              s == SplitOnce(s, sep).value.0 + [sep] + SplitOnce(s, sep).value.1
              && sep !in SplitOnce(s, sep).value.0
  {
    if |s| > 0 && s[0] != sep {
      SplitOnceParts(s[1..], sep);
      assert s == [s[0]] + s[1..];
      if SplitOnce(s[1..], sep).Some? {
        var before, after := SplitOnce(s[1..], sep).value.0, SplitOnce(s[1..], sep).value.1;
        assert s[1..] == before + [sep] + after;
        assert s == ([s[0]] + before) + [sep] + after;
      }
    } else if |s| > 0 {
      assert s == [] + [sep] + s[1..];
    }
  }

  /** The split is at the first separator, so a separator-free prefix is exactly what comes back. */
  lemma {:induction false} SplitOnceAt(a: string, sep: char, b: string)
    requires sep !in a
    ensures SplitOnce(a + [sep] + b, sep) == Some((a, b))
  {
    if a != [] {
      var s := a + [sep] + b;
      assert s[0] == a[0] != sep;
      assert s[1..] == a[1..] + [sep] + b;
      SplitOnceAt(a[1..], sep, b);
      assert [a[0]] + a[1..] == a;
    } else {
      assert a + [sep] + b == [sep] + b;
    }
  }

  /** The parts of a byte string are byte strings. */
  lemma BytesParts(s: Bytes, a: string, sep: char, b: string)
    requires s == a + [sep] + b
    ensures IsBytes(a) && IsBytes(b) && sep as int < 0x100
  {
    assert forall i | 0 <= i < |a| :: a[i] == s[i];
    assert forall i | 0 <= i < |b| :: b[i] == s[|a| + 1 + i];
    assert s[|a|] == sep;
  }

  /** Byte strings joined are a byte string. */
  lemma BytesConcat(a: Bytes, b: Bytes)
    ensures IsBytes(a + b)
  {
    assert forall i | |a| <= i < |a + b| :: (a + b)[i] == b[i - |a|];
  }

  /** strings.TrimRight(s, cutset): `s` without its longest suffix made only of cutset characters. */
  function TrimRight(s: string, cutset: set<char>): (t: string)
    ensures t <= s
    ensures |t| == 0 || t[|t| - 1] !in cutset
    ensures forall i | |t| <= i < |s| :: s[i] in cutset
  {
    if |s| == 0 || s[|s| - 1] !in cutset then s else TrimRight(s[..|s| - 1], cutset)
  }

  /** Trimming stops at the last character outside the cutset. */
  lemma TrimRightStops(s: string, tail: string, cutset: set<char>)
    requires |s| > 0 && s[|s| - 1] !in cutset
    requires forall i | 0 <= i < |tail| :: tail[i] in cutset
    ensures TrimRight(s + tail, cutset) == s
  {
    var u := s + tail;
    var t := TrimRight(u, cutset);
    assert u[|s| - 1] !in cutset;
    assert forall i | |s| <= i < |u| :: u[i] == tail[i - |s|];
    assert t == u[..|t|];
    assert u[..|s|] == s;
  }

  /** The byte `c` with an ASCII capital replaced by its small letter. */
  function LowerByte(c: char): (l: char)
    ensures c as int < 0x100 ==> l as int < 0x100
  {
    if 'A' <= c <= 'Z' then (c as int + 0x20) as char else c
  }

  /** strings.ToLower on bytes, ASCII letters only: no capital is left,
      each capital becomes its small letter, and every other byte stays. */
  function ToLowerAscii(s: Bytes): (r: Bytes)
    ensures |r| == |s|
    ensures forall i | 0 <= i < |r| :: !('A' <= r[i] <= 'Z')
    ensures forall i | 0 <= i < |s| && 'A' <= s[i] <= 'Z' :: r[i] as int == s[i] as int + 0x20
    ensures forall i | 0 <= i < |s| && !('A' <= s[i] <= 'Z') :: r[i] == s[i]
  {
    seq(|s|, i requires 0 <= i < |s| => LowerByte(s[i]))
  }

  // ---------------------------------------------------------------------
  // Decimal numerals: strconv.Atoi and fmt's "%d"

  predicate IsDigit(c: char) { '0' <= c <= '9' }

  predicate AllDigits(s: string) { forall i | 0 <= i < |s| :: IsDigit(s[i]) }

  function DigitValue(c: char): nat
    requires IsDigit(c)
  {
    c as int - '0' as int
  }

  function DigitChar(d: nat): char
    requires d < 10
  {
    ('0' as int + d) as char
  }

  /** The value of a numeral, most significant digit first. */
  function DecimalValue(s: string): nat
    requires AllDigits(s)
  {
    if |s| == 0 then 0 else 10 * DecimalValue(s[..|s| - 1]) + DigitValue(s[|s| - 1])
  }

  /** strconv.Atoi for unsigned numerals: None for an empty string, a
      character that is not a digit, or a value beyond the 64-bit range. */
  function ParseDecimal(s: string): Option<nat> {
    if |s| > 0 && AllDigits(s) && DecimalValue(s) <= MaxInt64 then Some(DecimalValue(s)) else None
  }

  /** fmt's "%d" rendering of a non-negative integer. */
  function Decimal(n: nat): (s: string)
    ensures |s| > 0 && AllDigits(s)
    ensures ' ' !in s && '\n' !in s
  {
    if n < 10 then [DigitChar(n)] else Decimal(n / 10) + [DigitChar(n % 10)]
  }

  lemma {:induction false} DecimalValueOf(n: nat)
    ensures DecimalValue(Decimal(n)) == n
  {
    if n >= 10 {
      var s := Decimal(n);
      assert s[..|s| - 1] == Decimal(n / 10);
      DecimalValueOf(n / 10);
    }
  }

  /** Atoi reads back what "%d" wrote. */
  lemma DecimalRoundTrip(n: nat)
    requires n <= MaxInt64
    ensures ParseDecimal(Decimal(n)) == Some(n)
  {
    DecimalValueOf(n);
  }

  // ---------------------------------------------------------------------
  // Hexadecimal numerals: strconv.ParseInt(s, 16, 64)

  predicate IsHexDigit(c: char) { '0' <= c <= '9' || 'a' <= c <= 'f' || 'A' <= c <= 'F' }

  predicate AllHexDigits(s: string) { forall i | 0 <= i < |s| :: IsHexDigit(s[i]) }

  function HexDigitValue(c: char): nat
    requires IsHexDigit(c)
  {
    if '0' <= c <= '9' then c as int - '0' as int
    else if 'a' <= c <= 'f' then c as int - 'a' as int + 10
    else c as int - 'A' as int + 10
  }

  function HexDigitChar(d: nat): char
    requires d < 16
  {
    if d < 10 then ('0' as int + d) as char else ('a' as int + d - 10) as char
  }

  function HexValue(s: string): nat
    requires AllHexDigits(s)
  {
    if |s| == 0 then 0 else 16 * HexValue(s[..|s| - 1]) + HexDigitValue(s[|s| - 1])
  }

  /** strconv.ParseInt(s, 16, 64) for unsigned numerals: None for an empty
      string, a character that is not a hex digit, or a value beyond the
      64-bit range. */
  function ParseHex(s: string): Option<nat> {
    if |s| > 0 && AllHexDigits(s) && HexValue(s) <= MaxInt64 then Some(HexValue(s)) else None
  }

  /** Lower-casing a string changes neither whether it is a hexadecimal
      numeral nor the value it denotes. */
  lemma {:induction false} HexLower(s: string, t: string)
    requires |t| == |s| && forall i | 0 <= i < |s| :: t[i] == LowerByte(s[i])
    ensures AllHexDigits(t) <==> AllHexDigits(s)
    ensures AllHexDigits(s) ==> HexValue(t) == HexValue(s)
  {
    if |s| > 0 {
      var n := |s| - 1;
      HexLower(s[..n], t[..n]);
    }
  }

  /** The lower-case hexadecimal numeral of `n`. */
  function Hex(n: nat): (s: string)
    ensures |s| > 0 && AllHexDigits(s)
    ensures forall i | 0 <= i < |s| :: s[i] as int < 0x80 && !('A' <= s[i] <= 'Z')
  {
    if n < 16 then [HexDigitChar(n)] else Hex(n / 16) + [HexDigitChar(n % 16)]
  }

  lemma {:induction false} HexValueOf(n: nat)
    ensures HexValue(Hex(n)) == n
  {
    if n >= 16 {
      var s := Hex(n);
      assert s[..|s| - 1] == Hex(n / 16);
      HexValueOf(n / 16);
    }
  }

  /** ParseInt with base 16 reads back the numeral Hex writes. */
  lemma HexRoundTrip(n: nat)
    requires n <= MaxInt64
    ensures ParseHex(Hex(n)) == Some(n)
  {
    HexValueOf(n);
  }

  // ---------------------------------------------------------------------
  // UTF-8: how a Go string holds text

  /** The UTF-8 bytes of one code point. */
  function EncodeRune(c: char): (b: Bytes)
    ensures 1 <= |b| <= 4
    ensures (c as int < 0x80) <==> (b == [c])
  {
    var n := c as int;
    if n < 0x80 then [c]
    else if n < 0x800 then [(0xC0 + n / 0x40) as char, (0x80 + n % 0x40) as char]
    else if n < 0x1_0000 then
      [(0xE0 + n / 0x1000) as char, (0x80 + n / 0x40 % 0x40) as char, (0x80 + n % 0x40) as char]
    else
      [(0xF0 + n / 0x4_0000) as char, (0x80 + n / 0x1000 % 0x40) as char,
       (0x80 + n / 0x40 % 0x40) as char, (0x80 + n % 0x40) as char]
  }

  /** The UTF-8 bytes of a text. */
  function Utf8(s: string): Bytes {
    if |s| == 0 then [] else Utf8(s[..|s| - 1]) + EncodeRune(s[|s| - 1])
  }
}

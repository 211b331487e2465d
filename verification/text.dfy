/** Text conversions used by the core: the decimal form of an unsigned
    integer (Rust's `to_string`), the UTF-8 bytes of a string (`as_bytes`,
    `fs::write` of a `String`) and the parse of bytes as a `u16`
    (`String::from_utf8_lossy(..).parse::<u16>()`). */
module Text {
  import opened Ints
  import opened Wrappers

  predicate IsDigitChar(c: char) {
    '0' <= c <= '9'
  }

  predicate IsDigitByte(b: byte) {
    '0' as int <= b <= '9' as int
  }

  const PlusSign: byte := '+' as int

  function DigitChar(d: nat): (c: char)
    requires d < 10
    ensures IsDigitChar(c)
    ensures c as int - '0' as int == d
  {
    ('0' as int + d) as char
  }

  /** The decimal text of `n`: digits only, no sign, no leading zero. */
  function Decimal(n: nat): (s: string)
    ensures 0 < |s|
    ensures forall i | 0 <= i < |s| :: IsDigitChar(s[i])
    ensures 1 < |s| ==> s[0] != '0'
    decreases n
  {
    if n < 10 then [DigitChar(n)] else Decimal(n / 10) + [DigitChar(n % 10)]
  }

  /** The UTF-8 encoding of one Unicode scalar value. */
  function Utf8Char(c: char): (b: seq<byte>)
    ensures 1 <= |b| <= 4
    ensures c as int < 0x80 <==> |b| == 1
    ensures |b| == 1 ==> b[0] == c as int
  {
    var v := c as int;
    if v < 0x80 then [v]
    else if v < 0x800 then [0xC0 + v / 0x40, 0x80 + v % 0x40]
    else if v < 0x1_0000 then [0xE0 + v / 0x1000, 0x80 + (v / 0x40) % 0x40, 0x80 + v % 0x40]
    else [0xF0 + v / 0x4_0000, 0x80 + (v / 0x1000) % 0x40, 0x80 + (v / 0x40) % 0x40, 0x80 + v % 0x40]
  }

  /** The UTF-8 encoding of a string. */
  function Utf8(s: string): (b: seq<byte>)
    ensures |s| <= |b| <= 4 * |s|
    decreases |s|
  {
    if s == [] then [] else Utf8Char(s[0]) + Utf8(s[1..])
  }

  /** Value of a non-empty run of decimal digit bytes, most significant first. */
  function DigitsValue(ds: seq<byte>): nat
    requires forall i | 0 <= i < |ds| :: IsDigitByte(ds[i])
    decreases |ds|
  {
    if ds == [] then 0
    else
      assert IsDigitByte(ds[|ds| - 1]);
      DigitsValue(ds[..|ds| - 1]) * 10 + (ds[|ds| - 1] - '0' as int)
  }

  /** `u16::from_str` on the bytes of a text: an optional leading `+`, then
      one or more decimal digits (leading zeros allowed) whose value fits
      16 bits. Anything else, including non-ASCII bytes (which the lossy
      UTF-8 decoding would turn into non-digit characters), is refused. */
  function ParseU16(text: seq<byte>): (r: Option<u16>)
    ensures r.Some? ==> 0 < |text| && IsDigitByte(text[|text| - 1])
    ensures r.Some? ==> forall i | 1 <= i < |text| :: IsDigitByte(text[i])
    ensures r.Some? && !IsDigitByte(text[0]) ==> text[0] == PlusSign
    ensures 0 < |text| && (forall i | 0 <= i < |text| :: IsDigitByte(text[i])) ==>
              r == if DigitsValue(text) < 0x1_0000 then Some(DigitsValue(text)) else None
    ensures 1 < |text| && text[0] == PlusSign && (forall i | 1 <= i < |text| :: IsDigitByte(text[i])) ==>
              r == if DigitsValue(text[1..]) < 0x1_0000 then Some(DigitsValue(text[1..])) else None
  {
    var digits := if 0 < |text| && text[0] == PlusSign then text[1..] else text;
    if |digits| == 0 || !(forall i | 0 <= i < |digits| :: IsDigitByte(digits[i])) then None
    else
      var v := DigitsValue(digits);
      if v < 0x1_0000 then Some(v) else None
  }

  /** A leading zero digit does not change the value of a digit run. */
  lemma {:induction false} LeadingZeroValue(ds: seq<byte>)
    requires forall i | 0 <= i < |ds| :: IsDigitByte(ds[i])
    ensures forall i | 0 <= i < |[0x30] + ds| :: IsDigitByte(([0x30] + ds)[i])
    ensures DigitsValue([0x30] + ds) == DigitsValue(ds)
    decreases |ds|
  {
    var z := [0x30] + ds;
    assert forall i | 0 <= i < |z| :: IsDigitByte(z[i]);
    if ds != [] {
      var init := ds[..|ds| - 1];
      LeadingZeroValue(init);
      assert z[..|z| - 1] == [0x30] + init;
    }
  }

  /** `u16::from_str` accepts leading zeros: they do not change the parse. */
  lemma ParseLeadingZero(t: seq<byte>)
    requires 0 < |t| && forall i | 0 <= i < |t| :: IsDigitByte(t[i])
    ensures ParseU16([0x30] + t) == ParseU16(t)
  {
    LeadingZeroValue(t);
  }

  /** `u16::from_str` accepts one leading `+`: it does not change the parse
      of a text that does not itself start with a sign. */
  lemma ParsePlusSign(t: seq<byte>)
    requires 0 < |t| ==> t[0] != PlusSign
    ensures ParseU16([PlusSign] + t) == ParseU16(t)
  {
    assert ([PlusSign] + t)[1..] == t;
  }

  /** The value of a digit run, read one more digit at a time. */
  lemma DigitsSnoc(ds: seq<byte>, d: byte)
    requires forall i | 0 <= i < |ds| :: IsDigitByte(ds[i])
    requires IsDigitByte(d)
    ensures forall i | 0 <= i < |ds + [d]| :: IsDigitByte((ds + [d])[i])
    ensures DigitsValue(ds + [d]) == DigitsValue(ds) * 10 + (d - 0x30)
  {
    assert (ds + [d])[..|ds|] == ds;
  }

  /** Values past 16 bits are refused, the largest one is accepted, and a
      sign with leading zeros is read through. */
  lemma ParseBounds()
    ensures ParseU16([0x36, 0x35, 0x35, 0x33, 0x35]) == Some(65535)
    ensures ParseU16([0x36, 0x35, 0x35, 0x33, 0x36]) == None
    ensures ParseU16([PlusSign, 0x30, 0x30, 0x38, 0x30]) == Some(80)
  {
    assert DigitsValue([0x36]) == 6;
    assert DigitsValue([0x36, 0x35]) == 65;
    assert DigitsValue([0x36, 0x35, 0x35]) == 655;
    var front := [0x36, 0x35, 0x35, 0x33];
    assert [0x36, 0x35, 0x35] + [0x33] == front;
    DigitsSnoc([0x36, 0x35, 0x35], 0x33);
    assert DigitsValue(front) == 6553;
    assert front + [0x35] == [0x36, 0x35, 0x35, 0x33, 0x35];
    assert front + [0x36] == [0x36, 0x35, 0x35, 0x33, 0x36];
    DigitsSnoc(front, 0x35);
    DigitsSnoc(front, 0x36);
    assert DigitsValue([0x38, 0x30]) == 80;
    ParseLeadingZero([0x38, 0x30]);
    assert [0x30] + [0x38, 0x30] == [0x30, 0x38, 0x30];
    ParseLeadingZero([0x30, 0x38, 0x30]);
    assert [0x30] + [0x30, 0x38, 0x30] == [0x30, 0x30, 0x38, 0x30];
    ParsePlusSign([0x30, 0x30, 0x38, 0x30]);
    assert [PlusSign] + [0x30, 0x30, 0x38, 0x30] == [PlusSign, 0x30, 0x30, 0x38, 0x30];
  }

  lemma {:induction false} Utf8Append(a: string, b: string)
    ensures Utf8(a + b) == Utf8(a) + Utf8(b)
    decreases |a|
  {
    if a == [] {
      assert a + b == b;
    } else {
      assert (a + b)[1..] == a[1..] + b;
      Utf8Append(a[1..], b);
    }
  }

  /** Each digit character is encoded as its single ASCII byte. */
  lemma {:induction false} Utf8OfDigits(s: string)
    requires forall i | 0 <= i < |s| :: IsDigitChar(s[i])
    ensures |Utf8(s)| == |s|
    ensures forall i | 0 <= i < |s| :: Utf8(s)[i] == s[i] as int && IsDigitByte(Utf8(s)[i])
    decreases |s|
  {
    if s != [] {
      Utf8OfDigits(s[1..]);
      assert Utf8(s) == [s[0] as int] + Utf8(s[1..]);
    }
  }

  /** Reading back the digits of `Decimal(n)` gives `n`. */
  lemma {:induction false} DecimalValue(n: nat)
    ensures forall i | 0 <= i < |Utf8(Decimal(n))| :: IsDigitByte(Utf8(Decimal(n))[i])
    ensures DigitsValue(Utf8(Decimal(n))) == n
    decreases n
  {
    Utf8OfDigits(Decimal(n));
    if n >= 10 {
      var head := Decimal(n / 10);
      var d := DigitChar(n % 10);
      DecimalValue(n / 10);
      Utf8Append(head, [d]);
      var bytes := Utf8(Decimal(n));
      assert bytes == Utf8(head) + [d as int];
      assert bytes[..|bytes| - 1] == Utf8(head);
    }
  }

  /** Distinct numbers have distinct decimal texts. */
  lemma DecimalInjective(a: nat, b: nat)
    ensures Decimal(a) == Decimal(b) ==> a == b
  {
    DecimalValue(a);
    DecimalValue(b);
  }

  /** Parsing the decimal text of a `u16` gives it back. */
  lemma {:induction false} DecimalRoundTrip(p: u16)
    ensures ParseU16(Utf8(Decimal(p))) == Some(p)
  {
    var bytes := Utf8(Decimal(p));
    DecimalValue(p);
    Utf8OfDigits(Decimal(p));
    assert bytes[0] != PlusSign;
  }
}

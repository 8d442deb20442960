/** The text primitives behind the credential format: splitting, hexadecimal and decimal numbers. */
module Text {
  import opened Integers
  import opened Option

  // ---------- Splitting ----------

  /** `str::split` on a character: the parts between its occurrences, at least one. */
  function Split(s: string, c: char): (parts: seq<string>)
    ensures parts != []
  {
    if s == [] then [[]]
    else
      var rest := Split(s[1..], c);
      if s[0] == c then [[]] + rest else [[s[0]] + rest[0]] + rest[1..]
  }

  lemma {:induction false} SplitAt(a: string, c: char, b: string)
    requires c !in a
    ensures Split(a + [c] + b, c) == [a] + Split(b, c)
  {
    if a == [] {
      assert a + [c] + b == [c] + b;
      assert ([c] + b)[1..] == b;
    } else {
      assert a == [a[0]] + a[1..];
      assert (a + [c] + b)[1..] == a[1..] + [c] + b;
      SplitAt(a[1..], c, b);
    }
  }

  lemma {:induction false} SplitNone(a: string, c: char)
    requires c !in a
    ensures Split(a, c) == [a]
  {
    if a == [] {
    } else {
      assert a == [a[0]] + a[1..];
      SplitNone(a[1..], c);
    }
  }

  lemma {:induction false} SplitSingle(a: string, c: char)
    ensures |Split(a, c)| == 1 <==> c !in a
  {
    if a == [] {
    } else {
      assert a == [a[0]] + a[1..];
      SplitSingle(a[1..], c);
    }
  }

  /** `str::split_once`: the texts around the first occurrence. */
  function SplitOnce(s: string, c: char): Option<(string, string)> {
    if s == [] then None
    else if s[0] == c then Some(([], s[1..]))
    else
      var rest := SplitOnce(s[1..], c);
      if rest.None? then None else Some(([s[0]] + rest.value.0, rest.value.1))
  }

  lemma {:induction false} SplitOnceAt(a: string, c: char, b: string)
    requires c !in a
    ensures SplitOnce(a + [c] + b, c) == Some((a, b))
  {
    if a == [] {
      assert a + [c] + b == [c] + b;
      assert ([c] + b)[1..] == b;
    } else {
      assert a == [a[0]] + a[1..];
      assert (a + [c] + b)[1..] == a[1..] + [c] + b;
      SplitOnceAt(a[1..], c, b);
    }
  }

  lemma {:induction false} SplitOnceSound(s: string, c: char)
    ensures SplitOnce(s, c).None? ==> c !in s
    ensures SplitOnce(s, c).Some? ==>
      var (a, b) := SplitOnce(s, c).value; c !in a && s == a + [c] + b
  {
    if s != [] && s[0] != c {
      SplitOnceSound(s[1..], c);
    }
  }

  /** `str::strip_prefix`. */
  function StripPrefix(s: string, p: string): Option<string> {
    if p <= s then Some(s[|p|..]) else None
  }

  lemma StripPrefixOf(p: string, rest: string)
    ensures StripPrefix(p + rest, p) == Some(rest)
  {
    assert (p + rest)[|p|..] == rest;
  }

  /** Texts that differ within the length of a prefix do not both start with it. */
  lemma StripOther(p: string, rest: string, q: string, i: nat)
    requires i < |p| && i < |q| && p[i] != q[i]
    ensures StripPrefix(p + rest, q).None?
  {
    assert (p + rest)[i] == p[i];
  }

  // ---------- Hexadecimal ----------

  function HexDigit(n: int): char
    requires 0 <= n < 16
  {
    if n < 10 then (n + '0' as int) as char else (n - 10 + 'a' as int) as char
  }

  /** The value of a digit; both cases are accepted. */
  function HexValue(c: char): Option<int> {
    if '0' <= c <= '9' then Some(c as int - '0' as int)
    else if 'a' <= c <= 'f' then Some(c as int - 'a' as int + 10)
    else if 'A' <= c <= 'F' then Some(c as int - 'A' as int + 10)
    else None
  }

  lemma HexValueBound(c: char)
    ensures HexValue(c).Some? ==> 0 <= HexValue(c).value < 16
  {
  }

  lemma HexDigitValue(n: int)
    requires 0 <= n < 16
    ensures HexValue(HexDigit(n)) == Some(n)
  {
  }

  /** `hex::encode`: two lower-case digits per byte. */
  function HexEncode(bytes: Bytes): string {
    if bytes == [] then []
    else [HexDigit(bytes[0] / 16), HexDigit(bytes[0] % 16)] + HexEncode(bytes[1..])
  }

  const HEX_DIGITS := "0123456789abcdef"

  /** Each byte is written with its high digit first. */
  lemma HexByte(b: U8)
    ensures HexEncode([b]) == [HEX_DIGITS[b / 16], HEX_DIGITS[b % 16]]
  {
    assert [b][1..] == [];
    assert HexEncode([b]) == [HexDigit(b / 16), HexDigit(b % 16)] + [];
  }

  lemma {:induction false} HexConcat(xs: Bytes, ys: Bytes)
    ensures HexEncode(xs + ys) == HexEncode(xs) + HexEncode(ys)
  {
    if xs == [] {
      assert xs + ys == ys;
    } else {
      assert (xs + ys)[1..] == xs[1..] + ys;
      HexConcat(xs[1..], ys);
    }
  }

  /** `hex::decode`. */
  function HexDecode(s: string): Option<Bytes> {
    if s == [] then Some([])
    else if |s| == 1 then None
    else
      HexValueBound(s[0]);
      HexValueBound(s[1]);
      var hi, lo, rest := HexValue(s[0]), HexValue(s[1]), HexDecode(s[2..]);
      if hi.None? || lo.None? || rest.None? then None else Some([hi.value * 16 + lo.value] + rest.value)
  }

  function UpperHex(c: char): char {
    if 'a' <= c <= 'f' then (c as int - 32) as char else c
  }

  /** Upper-case digits are read like lower-case ones, and no other character is read. */
  lemma HexReads(c: char)
    ensures HexValue(UpperHex(c)) == HexValue(c)
    ensures HexValue(c).Some? <==> exists i :: 0 <= i < 16 && (c == HEX_DIGITS[i] || c == UpperHex(HEX_DIGITS[i]))
  {
    if HexValue(c).Some? {
      var i := HexValue(c).value;
      assert c == HEX_DIGITS[i] || c == UpperHex(HEX_DIGITS[i]);
    }
  }

  lemma {:induction false} HexRoundTrip(bytes: Bytes)
    ensures HexDecode(HexEncode(bytes)) == Some(bytes)
  {
    if bytes == [] {
    } else {
      HexRoundTrip(bytes[1..]);
      var s := HexEncode(bytes);
      assert s[2..] == HexEncode(bytes[1..]);
      HexDigitValue(bytes[0] / 16);
      HexDigitValue(bytes[0] % 16);
      assert [bytes[0]] + bytes[1..] == bytes;
    }
  }

  /** The printed digits: neither a colon nor an equals sign among them. */
  lemma {:induction false} HexIsPlain(bytes: Bytes)
    ensures ':' !in HexEncode(bytes) && '=' !in HexEncode(bytes)
  {
    if bytes == [] {
    } else {
      HexIsPlain(bytes[1..]);
    }
  }

  // ---------- Decimal ----------

  function Digit(n: int): char
    requires 0 <= n < 10
  {
    (n + '0' as int) as char
  }

  function Decimal(n: nat): string {
    if n < 10 then [Digit(n)] else Decimal(n / 10) + [Digit(n % 10)]
  }

  /** Positional notation: the digits of the tens, then the last digit. */
  lemma DecimalNotation(n: nat, d: int)
    requires n > 0 && 0 <= d < 10
    ensures Decimal(10 * n + d) == Decimal(n) + Decimal(d)
    ensures Decimal(d) == [DECIMAL_DIGITS[d]]
  {
    DigitIs(d);
    var m := 10 * n + d;
    assert m / 10 == n && m % 10 == d;
  }

  const DECIMAL_DIGITS := "0123456789"

  lemma DigitIs(d: int)
    requires 0 <= d < 10
    ensures Digit(d) == DECIMAL_DIGITS[d]
  {
  }

  predicate AllDigits(s: string) {
    forall i :: 0 <= i < |s| ==> '0' <= s[i] <= '9'
  }

  function DigitsValue(s: string): nat
    requires AllDigits(s)
  {
    if s == [] then 0 else DigitsValue(s[..|s| - 1]) * 10 + (s[|s| - 1] as int - '0' as int)
  }

  /** `u32::from_str`: digits, after an optional plus sign, whose value fits. */
  function ParseU32(s: string): Option<U32> {
    var digits := if |s| > 1 && s[0] == '+' then s[1..] else s;
    if digits != [] && AllDigits(digits) && DigitsValue(digits) < 0x1_0000_0000 then Some(DigitsValue(digits)) else None
  }

  lemma {:induction false} DecimalRoundTrip(n: nat)
    ensures Decimal(n) != [] && AllDigits(Decimal(n)) && DigitsValue(Decimal(n)) == n
  {
    if n >= 10 {
      DecimalRoundTrip(n / 10);
      assert Decimal(n)[..|Decimal(n)| - 1] == Decimal(n / 10);
    } else {
      assert Decimal(n)[..0] == [];
    }
  }

  /** A plus sign may come first, a number that does not fit is refused, and so is a sign alone. */
  lemma ParseU32Edges(n: nat)
    ensures ParseU32("+" + Decimal(n)) == ParseU32(Decimal(n)) == if n < 0x1_0000_0000 then Some(n) else None
    ensures ParseU32("").None? && ParseU32("+").None?
  {
    DecimalRoundTrip(n);
    var digits, signed := Decimal(n), "+" + Decimal(n);
    assert signed[1..] == digits && signed[0] == '+';
    assert '0' <= digits[0] <= '9';
    assert "+"[0] == '+';
  }

  lemma ParseDecimal(n: U32)
    ensures ParseU32(Decimal(n)) == Some(n)
    ensures ':' !in Decimal(n) && '=' !in Decimal(n)
  {
    DecimalRoundTrip(n);
  }
}

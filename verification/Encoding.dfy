/**
  The two text encodings both sides of the wire share: base16 (section 8 of RFC 4648) for bytes
  and decimal for integers.
 */
module Encoding {
  import opened Wrappers

  type Byte = b: int | 0 <= b < 256
  type Bytes = seq<Byte>

  // ---------------------------------------------------------------- base16

  function HexDigit(d: int): char
    requires 0 <= d < 16
  {
    if d < 10 then '0' + d as char else 'a' + (d - 10) as char
  }

  /** The relayer's decoder accepts both cases. */
  function HexValue(c: char): (v: Option<int>)
    ensures v.Some? ==> 0 <= v.value < 16 && (HexDigit(v.value) == c <==> !('A' <= c <= 'F'))
  {
    if '0' <= c <= '9' then Some((c - '0') as int)
    else if 'a' <= c <= 'f' then Some((c - 'a') as int + 10)
    else if 'A' <= c <= 'F' then Some((c - 'A') as int + 10)
    else None
  }

  function HexEncode(b: Bytes): string {
    if b == [] then "" else [HexDigit(b[0] / 16), HexDigit(b[0] % 16)] + HexEncode(b[1..])
  }

  /** None for an odd number of characters and for a character that is no digit. */
  function HexDecode(s: string): Option<Bytes> {
    if s == "" then Some([])
    else if |s| == 1 then None
    else
      match (HexValue(s[0]), HexValue(s[1]), HexDecode(s[2..]))
      case (Some(hi), Some(lo), Some(rest)) => Some([16 * hi + lo] + rest)
      case _ => None
  }

  predicate IsLowerCase(s: string) {
    forall c | c in s :: !('A' <= c <= 'F')
  }

  lemma HexDigitReads(d: int)
    requires 0 <= d < 16
    ensures HexValue(HexDigit(d)) == Some(d) && !('A' <= HexDigit(d) <= 'F') && HexDigit(d) != ':'
  {
  }

  lemma {:induction false} HexRoundTrip(b: Bytes)
    ensures HexDecode(HexEncode(b)) == Some(b)
    ensures IsLowerCase(HexEncode(b)) && ':' !in HexEncode(b)
  {
    if b == [] {
    } else {
      HexRoundTrip(b[1..]);
      HexDigitReads(b[0] / 16);
      HexDigitReads(b[0] % 16);
      assert HexEncode(b)[2..] == HexEncode(b[1..]);
      assert [b[0]] + b[1..] == b;
    }
  }

  /** Decoding and encoding again gives the same text exactly when the text was lower case. */
  lemma {:induction false} HexNormalForm(s: string)
    requires HexDecode(s).Some?
    ensures |HexEncode(HexDecode(s).value)| == |s|
    ensures HexEncode(HexDecode(s).value) == s <==> IsLowerCase(s)
  {
    if s == "" {
    } else {
      HexNormalForm(s[2..]);
      var again := HexEncode(HexDecode(s).value);
      var hi, lo := HexValue(s[0]).value, HexValue(s[1]).value;
      assert (16 * hi + lo) / 16 == hi && (16 * hi + lo) % 16 == lo;
      assert HexDecode(s).value[1..] == HexDecode(s[2..]).value;
      assert again == [HexDigit(hi), HexDigit(lo)] + HexEncode(HexDecode(s[2..]).value);
      assert s == [s[0], s[1]] + s[2..];
      assert again == s <==> again[0] == s[0] && again[1] == s[1] && again[2..] == s[2..];
      assert s[0] in s && s[1] in s;
      assert forall c :: c in s <==> c == s[0] || c == s[1] || c in s[2..];
      assert IsLowerCase(s) <==> !('A' <= s[0] <= 'F') && !('A' <= s[1] <= 'F') && IsLowerCase(s[2..]);
    }
  }

  predicate IsHexDigit(c: char) {
    '0' <= c <= '9' || 'a' <= c <= 'f' || 'A' <= c <= 'F'
  }

  function Lower(c: char): char {
    if 'A' <= c <= 'Z' then c - 'A' + 'a' else c
  }

  function LowerCase(s: string): string {
    if s == "" then "" else [Lower(s[0])] + LowerCase(s[1..])
  }

  lemma DigitReadsIff(c: char)
    ensures HexValue(c).Some? <==> IsHexDigit(c)
    ensures HexValue(Lower(c)) == HexValue(c)
  {
  }

  /** Text decodes exactly when it is an even number of base16 digits of either case. */
  lemma {:induction false} HexDecodesIff(s: string)
    ensures HexDecode(s).Some? <==> |s| % 2 == 0 && forall c | c in s :: IsHexDigit(c)
  {
    if |s| >= 2 {
      HexDecodesIff(s[2..]);
      DigitReadsIff(s[0]);
      DigitReadsIff(s[1]);
      assert s[0] in s && s[1] in s && forall c :: c in s <==> c == s[0] || c == s[1] || c in s[2..];
    }
  }

  /** The case makes no difference. */
  lemma {:induction false} HexIgnoresCase(s: string)
    ensures HexDecode(LowerCase(s)) == HexDecode(s)
  {
    if |s| >= 2 {
      HexIgnoresCase(s[2..]);
      DigitReadsIff(s[0]);
      DigitReadsIff(s[1]);
      assert LowerCase(s)[2..] == LowerCase(s[1..])[1..] == LowerCase(s[2..]);
    }
  }

  lemma {:induction false} HexTextHasNoColon(s: string)
    requires HexDecode(s).Some?
    ensures ':' !in s
  {
    if s == "" {
    } else {
      HexTextHasNoColon(s[2..]);
      assert s == [s[0], s[1]] + s[2..];
    }
  }

  // ---------------------------------------------------------------- joining with colons

  function Joined(left: string, right: string): string {
    left + ":" + right
  }

  /** A colon-free left part is read back from the front. */
  lemma SplitAtFirstColon(a: string, x: string, b: string, y: string)
    requires ':' !in a && ':' !in b && Joined(a, x) == Joined(b, y)
    ensures a == b && x == y
  {
    var s := Joined(a, x);
    assert forall i | 0 <= i < |a| :: s[i] == a[i] != ':';
    assert forall i | 0 <= i < |b| :: s[i] == b[i] != ':';
    assert s[|a|] == ':' && s[|b|] == ':';
    assert a == s[..|a|] == b;
    assert x == s[|a| + 1..] == y;
  }

  /** A colon-free right part is read back from the end. */
  lemma SplitAtLastColon(a: string, x: string, b: string, y: string)
    requires ':' !in x && ':' !in y && Joined(a, x) == Joined(b, y)
    ensures a == b && x == y
  {
    var s := Joined(a, x);
    assert forall i | |a| < i < |s| :: s[i] == x[i - |a| - 1] != ':';
    assert forall i | |b| < i < |s| :: s[i] == y[i - |b| - 1] != ':';
    assert s[|a|] == ':' && s[|b|] == ':';
    assert a == s[..|a|] == b;
    assert x == s[|a| + 1..] == y;
  }

  // ---------------------------------------------------------------- decimal

  function Abs(n: int): nat {
    if n < 0 then -n else n
  }

  function Digits(n: nat): string {
    if n < 10 then ['0' + n as char] else Digits(n / 10) + ['0' + (n % 10) as char]
  }

  function Decimal(n: int): string {
    if n < 0 then "-" + Digits(-n) else Digits(n)
  }

  function ParseDigits(s: string): (v: Option<int>)
    ensures v.Some? ==> v.value >= 0
  {
    if s == "" then Some(0)
    else
      var c := s[|s| - 1];
      match ParseDigits(s[..|s| - 1])
      case Some(v) => if '0' <= c <= '9' then Some(10 * v + (c - '0') as int) else None
      case None => None
  }

  /** An optional sign and at least one digit, as Rust's i64 parser and JavaScript's parseInt read it. */
  function ParseDecimal(s: string): Option<int> {
    if s == "" || s == "-" then None
    else if s[0] == '-' then
      var digits := ParseDigits(s[1..]);
      if digits.Some? then Some(-digits.value) else None
    else
      var digits := ParseDigits(s);
      if digits.Some? then Some(digits.value) else None
  }

  lemma {:induction false} DigitsRoundTrip(n: nat)
    ensures ParseDigits(Digits(n)) == Some(n)
    ensures Digits(n) != "" && forall c | c in Digits(n) :: '0' <= c <= '9'
  {
    var s := Digits(n);
    if n < 10 {
      assert s[..0] == "";
    } else {
      DigitsRoundTrip(n / 10);
      assert s[..|s| - 1] == Digits(n / 10);
    }
  }

  lemma {:induction false} DigitsOnly(s: string)
    ensures ParseDigits(s).Some? <==> forall c | c in s :: '0' <= c <= '9'
  {
    if s == "" {
    } else {
      var front, last := s[..|s| - 1], s[|s| - 1];
      DigitsOnly(front);
      assert last in s && forall c :: c in s <==> c in front || c == last;
      if ParseDigits(front).None? {
        var c :| c in front && !('0' <= c <= '9');
        assert c in s;
      }
    }
  }

  lemma DecimalRoundTrip(n: int)
    ensures ParseDecimal(Decimal(n)) == Some(n)
    ensures Decimal(n) != "" && ':' !in Decimal(n)
  {
    var digits := Digits(Abs(n));
    DigitsRoundTrip(Abs(n));
    assert digits[0] in digits;
    assert ("-" + digits)[1..] == digits;
  }
}

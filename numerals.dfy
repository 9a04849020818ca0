/** The parts of Python's `int()` and of its `%x` / `{:0Nx}` formatting that the
    modelled code relies on: whitespace stripping, decimal and hexadecimal
    numerals, and zero-padded lowercase hexadecimal output. */
module Numerals {
  import opened Wrappers

  /** Python's `str.isspace()`: the characters `int()` and `str.strip()` discard. */
  predicate IsSpace(c: char) {
    ('\t' <= c <= '\r') || ('\U{1C}' <= c <= '\U{1F}') || c == ' '
    || c == '\U{85}' || c == '\U{A0}' || c == '\U{1680}'
    || ('\U{2000}' <= c <= '\U{200A}') || c == '\U{2028}' || c == '\U{2029}'
    || c == '\U{202F}' || c == '\U{205F}' || c == '\U{3000}'
  }

  predicate IsDecDigit(c: char) { '0' <= c <= '9' }

  predicate IsLowerHexDigit(c: char) { IsDecDigit(c) || 'a' <= c <= 'f' }

  predicate IsHexDigit(c: char) { IsLowerHexDigit(c) || 'A' <= c <= 'F' }

  predicate AllSpace(s: string) { forall i :: 0 <= i < |s| ==> IsSpace(s[i]) }

  predicate AllDec(s: string) { forall i :: 0 <= i < |s| ==> IsDecDigit(s[i]) }

  predicate AllHex(s: string) { forall i :: 0 <= i < |s| ==> IsHexDigit(s[i]) }

  predicate AllLowerHex(s: string) { forall i :: 0 <= i < |s| ==> IsLowerHexDigit(s[i]) }

  function HexDigitValue(c: char): (v: nat)
    requires IsHexDigit(c)
    ensures v < 16
    ensures IsDecDigit(c) <==> v < 10
  {
    if IsDecDigit(c) then c as int - '0' as int
    else if 'a' <= c <= 'f' then c as int - 'a' as int + 10
    else c as int - 'A' as int + 10
  }

  /** The value of a numeral in the given base, most significant digit first. */
  function DigitsValue(s: string, base: nat): nat
    requires AllHex(s)
  {
    if s == [] then 0 else DigitsValue(s[..|s| - 1], base) * base + HexDigitValue(s[|s| - 1])
  }

  /** The first position at or after `i` that does not hold whitespace. */
  function SkipSpaces(s: string, i: nat): (k: nat)
    requires i <= |s|
    ensures i <= k <= |s|
    ensures forall j :: i <= j < k ==> IsSpace(s[j])
    ensures k < |s| ==> !IsSpace(s[k])
    decreases |s| - i
  {
    if i == |s| || !IsSpace(s[i]) then i else SkipSpaces(s, i + 1)
  }

  /** The position after the last character before `i` that is not whitespace. */
  function SkipSpacesBack(s: string, i: nat): (k: nat)
    requires i <= |s|
    ensures k <= i
    ensures forall j :: k <= j < i ==> IsSpace(s[j])
    ensures 0 < k ==> !IsSpace(s[k - 1])
  {
    if i == 0 || !IsSpace(s[i - 1]) then i else SkipSpacesBack(s, i - 1)
  }

  /** Number of leading whitespace characters. */
  function LeadEnd(s: string): (k: nat)
    ensures k <= |s|
    ensures forall i :: 0 <= i < k ==> IsSpace(s[i])
    ensures k < |s| ==> !IsSpace(s[k])
  {
    SkipSpaces(s, 0)
  }

  /** The position after the last character that is not whitespace. */
  function TrailStart(s: string): (k: nat)
    ensures k <= |s|
    ensures forall i :: k <= i < |s| ==> IsSpace(s[i])
    ensures 0 < k ==> !IsSpace(s[k - 1])
  {
    SkipSpacesBack(s, |s|)
  }

  /** `str.strip()`. */
  function Strip(s: string): string {
    var a := LeadEnd(s);
    if a == |s| then [] else s[a..TrailStart(s)]
  }

  /** `str.rstrip()`. */
  function RStrip(s: string): string {
    s[..TrailStart(s)]
  }

  /** `int(s)`: surrounding whitespace, an optional sign, then decimal digits. */
  function ParseDecimal(s: string): Option<int> {
    SignedNumeral(Strip(s))
  }

  /** An optionally signed run of decimal digits, nothing around it. */
  function SignedNumeral(t: string): Option<int> {
    if t == [] then None
    else
      var digits := if t[0] == '-' || t[0] == '+' then t[1..] else t;
      if digits != [] && AllDec(digits) then
        var v: int := DigitsValue(digits, 10);
        Some(if t[0] == '-' then -v else v)
      else None
  }

  /** `s[:2].lower() == '0x'`. */
  predicate HasHexPrefix(s: string) {
    |s| >= 2 && s[0] == '0' && (s[1] == 'x' || s[1] == 'X')
  }

  /** `int(s, 16)` for text that begins with the `0x` prefix: hexadecimal
      digits follow the prefix directly, and trailing whitespace is dropped. */
  function ParseHexPrefixed(s: string): Option<nat>
    requires HasHexPrefix(s)
  {
    var digits := RStrip(s[2..]);
    if digits != [] && AllHex(digits) then Some(DigitsValue(digits, 16)) else None
  }

  function HexChar(d: nat): (c: char)
    requires d < 16
    ensures IsLowerHexDigit(c) && HexDigitValue(c) == d
  {
    if d < 10 then ('0' as int + d) as char else ('a' as int + d - 10) as char
  }

  /** `'%x' % n`: lowercase hexadecimal without leading zeros. */
  function HexString(n: nat): string {
    if n < 16 then [HexChar(n)] else HexString(n / 16) + [HexChar(n % 16)]
  }

  function Zeros(k: nat): (z: string)
    ensures |z| == k && forall i :: 0 <= i < k ==> z[i] == '0'
  {
    seq(k, _ => '0')
  }

  /** `'%0<width>x' % n`, the same as `'{:0<width>x}'.format(n)`. */
  function FormatHex(n: nat, width: nat): string {
    var h := HexString(n);
    if |h| >= width then h else Zeros(width - |h|) + h
  }

  /** `16` to the power `e`. */
  function Pow16(e: nat): (p: nat)
    ensures p >= 1
  {
    if e == 0 then 1 else 16 * Pow16(e - 1)
  }

  /** `'%x' % n` spells `n`, and has no leading zero unless `n` is 0. */
  lemma {:induction false} HexStringDigits(n: nat)
    ensures 1 <= |HexString(n)|
    ensures AllLowerHex(HexString(n)) && DigitsValue(HexString(n), 16) == n
    ensures n >= 16 ==> HexString(n)[0] != '0'
    ensures n < 256 ==> |HexString(n)| <= 2
  {
    var s := HexString(n);
    if n >= 16 {
      HexStringDigits(n / 16);
      assert s[..|s| - 1] == HexString(n / 16);
      assert s[0] == HexString(n / 16)[0];
      assert s[|s| - 1] == HexChar(n % 16);
      assert (n / 16) * 16 + n % 16 == n;
    }
  }

  /** `'%x' % n` has at most `width` digits exactly when `n` is below
      `16^width`. */
  lemma {:induction false} HexStringLength(n: nat, width: nat)
    requires width >= 1
    ensures |HexString(n)| <= width <==> n < Pow16(width)
  {
    if n >= 16 {
      if width == 1 {
        assert |HexString(n)| == |HexString(n / 16)| + 1;
      } else {
        HexStringLength(n / 16, width - 1);
        QuotientBound(n, Pow16(width - 1));
      }
    }
  }

  lemma QuotientBound(n: nat, p: nat)
    ensures n / 16 < p <==> n < 16 * p
  {
    assert n == 16 * (n / 16) + n % 16;
  }

  lemma {:induction false} LeadingZero(s: string, base: nat)
    requires AllHex(s)
    ensures AllHex(['0'] + s) && DigitsValue(['0'] + s, base) == DigitsValue(s, base)
  {
    var z := ['0'] + s;
    if s != [] {
      assert z[..|z| - 1] == ['0'] + s[..|s| - 1];
      LeadingZero(s[..|s| - 1], base);
    } else {
      assert z[..|z| - 1] == [];
    }
  }

  lemma {:induction false} LeadingZeros(k: nat, s: string, base: nat)
    requires AllHex(s)
    ensures AllHex(Zeros(k) + s) && DigitsValue(Zeros(k) + s, base) == DigitsValue(s, base)
  {
    if k > 0 {
      LeadingZeros(k - 1, s, base);
      assert Zeros(k) + s == ['0'] + (Zeros(k - 1) + s);
      LeadingZero(Zeros(k - 1) + s, base);
    } else {
      assert Zeros(k) + s == s;
    }
  }

  /** `'%0<width>x' % n` is a lowercase hexadecimal numeral for `n`, exactly
      `width` characters long unless `'%x' % n` is longer. */
  lemma FormatHexDigits(n: nat, width: nat)
    ensures AllLowerHex(FormatHex(n, width))
    ensures DigitsValue(FormatHex(n, width), 16) == n
    ensures |FormatHex(n, width)| == if |HexString(n)| >= width then |HexString(n)| else width
    ensures |HexString(n)| <= width ==> |FormatHex(n, width)| == width
  {
    HexStringDigits(n);
    var h := HexString(n);
    var f := FormatHex(n, width);
    if |h| < width {
      LeadingZeros(width - |h|, h, 16);
      assert f == Zeros(width - |h|) + h;
      assert DigitsValue(f, 16) == DigitsValue(h, 16);
    } else {
      assert f == h;
    }
  }

  /** `'%0<width>x' % n` is exactly `width` characters long when `n` is
      below `16^width`, and longer otherwise. */
  lemma FormatHexWidth(n: nat, width: nat)
    requires width >= 1
    ensures |FormatHex(n, width)| >= width
    ensures |FormatHex(n, width)| == width <==> n < Pow16(width)
  {
    HexStringLength(n, width);
    var h := HexString(n);
    if |h| < width {
      assert |FormatHex(n, width)| == width;
    }
  }

  lemma RStripNonSpaceEnd(s: string)
    requires s != [] && !IsSpace(s[|s| - 1])
    ensures RStrip(s) == s
  {
  }

  /** Formatting a non-negative number as `0x` followed by zero-padded
      hexadecimal digits, then reading it back with `int(s, 16)`, gives the
      number back. */
  lemma HexRoundTrip(n: nat, width: nat)
    ensures HasHexPrefix("0x" + FormatHex(n, width))
    ensures ParseHexPrefixed("0x" + FormatHex(n, width)) == Some(n)
  {
    var f := FormatHex(n, width);
    FormatHexDigits(n, width);
    var s := "0x" + f;
    assert s[2..] == f;
    assert IsLowerHexDigit(f[|f| - 1]);
    RStripNonSpaceEnd(f);
  }

  /** Stripping surrounding whitespace from `l + m + r` leaves `m` when `m`
      neither begins nor ends with whitespace. */
  lemma StripPadded(l: string, m: string, r: string)
    requires AllSpace(l) && AllSpace(r)
    requires m != [] && !IsSpace(m[0]) && !IsSpace(m[|m| - 1])
    ensures Strip(l + m + r) == m
  {
    var s := l + m + r;
    var a := LeadEnd(s);
    assert s[|l|] == m[0];
    assert forall i :: 0 <= i < |l| ==> s[i] == l[i];
    assert a == |l|;
    var b := TrailStart(s);
    assert s[|l| + |m| - 1] == m[|m| - 1];
    assert forall i :: |l| + |m| <= i < |s| ==> s[i] == r[i - |l| - |m|];
    assert b == |l| + |m|;
    assert s[a..b] == m;
  }

  /** `int()` accepts every decimal numeral: optional surrounding whitespace,
      an optional sign, and at least one digit. */
  lemma DecimalNumeralAccepted(l: string, sign: string, d: string, r: string)
    requires AllSpace(l) && AllSpace(r)
    requires sign == "" || sign == "+" || sign == "-"
    requires d != [] && AllDec(d)
    ensures ParseDecimal(l + sign + d + r)
            == Some(if sign == "-" then -(DigitsValue(d, 10) as int) else DigitsValue(d, 10))
  {
    var m := sign + d;
    assert l + sign + d + r == l + m + r;
    assert m[0] == if sign == "" then d[0] else sign[0];
    assert m[|m| - 1] == d[|d| - 1];
    StripPadded(l, m, r);
    SignedDigits(sign, d);
  }

  lemma SignedDigits(sign: string, d: string)
    requires sign == "" || sign == "+" || sign == "-"
    requires d != [] && AllDec(d)
    ensures SignedNumeral(sign + d) == Some(if sign == "-" then -(DigitsValue(d, 10) as int) else DigitsValue(d, 10))
  {
    var m := sign + d;
    if sign == "" {
      assert m == d;
    } else {
      assert m[1..] == d;
    }
  }

  /** Every character `int()` accepts in a decimal numeral is whitespace, a
      sign or a digit, and at least one is a digit. */
  lemma DecimalAcceptedText(s: string)
    requires ParseDecimal(s).Some?
    ensures forall i :: 0 <= i < |s| ==> IsSpace(s[i]) || IsDecDigit(s[i]) || s[i] == '+' || s[i] == '-'
    ensures exists i :: 0 <= i < |s| && IsDecDigit(s[i])
  {
    AcceptedStrip(s);
    NumeralAmidSpaces(s, Strip(s), LeadEnd(s));
  }

  /** What the strip of an accepted text looks like, and where it sits. */
  lemma AcceptedStrip(s: string)
    requires ParseDecimal(s).Some?
    ensures LeadEnd(s) + |Strip(s)| <= |s|
    ensures forall j :: 0 <= j < |Strip(s)| ==> s[LeadEnd(s) + j] == Strip(s)[j]
    ensures forall i :: 0 <= i < |s| && !(LeadEnd(s) <= i < LeadEnd(s) + |Strip(s)|) ==> IsSpace(s[i])
    ensures forall j :: 0 <= j < |Strip(s)| ==> IsDecDigit(Strip(s)[j]) || Strip(s)[j] == '+' || Strip(s)[j] == '-'
    ensures exists j :: 0 <= j < |Strip(s)| && IsDecDigit(Strip(s)[j])
  {
    assert SignedNumeral(Strip(s)).Some?;
    SignedNumeralText(Strip(s));
    StripSource(s);
  }

  /** The strip keeps a contiguous run of the original and drops only spaces around it. */
  lemma StripSource(s: string)
    requires Strip(s) != []
    ensures LeadEnd(s) + |Strip(s)| <= |s|
    ensures forall j :: 0 <= j < |Strip(s)| ==> s[LeadEnd(s) + j] == Strip(s)[j]
    ensures forall i :: 0 <= i < |s| && !(LeadEnd(s) <= i < LeadEnd(s) + |Strip(s)|) ==> IsSpace(s[i])
  {
    var a, b := LeadEnd(s), TrailStart(s);
    assert a < b && Strip(s) == s[a..b];
    SliceAmidSpaces(s, a, b);
  }

  lemma SliceAmidSpaces(s: string, a: nat, b: nat)
    requires a <= b <= |s|
    requires forall i :: 0 <= i < a ==> IsSpace(s[i])
    requires forall i :: b <= i < |s| ==> IsSpace(s[i])
    ensures forall j :: 0 <= j < |s[a..b]| ==> s[a + j] == s[a..b][j]
    ensures forall i :: 0 <= i < |s| && !(a <= i < a + |s[a..b]|) ==> IsSpace(s[i])
  {
  }

  lemma NumeralAmidSpaces(s: string, t: string, a: nat)
    requires a + |t| <= |s|
    requires forall j :: 0 <= j < |t| ==> s[a + j] == t[j]
    requires forall i :: 0 <= i < |s| && !(a <= i < a + |t|) ==> IsSpace(s[i])
    requires forall j :: 0 <= j < |t| ==> IsDecDigit(t[j]) || t[j] == '+' || t[j] == '-'
    requires exists j :: 0 <= j < |t| && IsDecDigit(t[j])
    ensures forall i :: 0 <= i < |s| ==> IsSpace(s[i]) || IsDecDigit(s[i]) || s[i] == '+' || s[i] == '-'
    ensures exists i :: 0 <= i < |s| && IsDecDigit(s[i])
  {
    var k :| 0 <= k < |t| && IsDecDigit(t[k]);
    assert s[a + k] == t[k];
    forall i | 0 <= i < |s| && a <= i < a + |t|
      ensures IsDecDigit(s[i]) || s[i] == '+' || s[i] == '-'
    {
      assert s[a + (i - a)] == t[i - a];
    }
  }

  /** An accepted signed numeral consists of decimal digits after an optional sign. */
  lemma SignedNumeralText(t: string)
    requires SignedNumeral(t).Some?
    ensures t != []
    ensures forall i :: 0 <= i < |t| ==> IsDecDigit(t[i]) || t[i] == '+' || t[i] == '-'
    ensures exists i :: 0 <= i < |t| && IsDecDigit(t[i])
  {
    var off := if t[0] == '-' || t[0] == '+' then 1 else 0;
    var digits := t[off..];
    assert IsDecDigit(digits[0]) && t[off] == digits[0];
    forall i | off <= i < |t| ensures IsDecDigit(t[i]) {
      assert t[i] == digits[i - off];
    }
  }

  /** Text without a single hexadecimal digit is rejected as a decimal and has no hex prefix. */
  lemma NoDigitsRejected(s: string)
    requires forall i :: 0 <= i < |s| ==> !IsHexDigit(s[i])
    ensures ParseDecimal(s) == None
    ensures !HasHexPrefix(s)
  {
    if ParseDecimal(s).Some? {
      DecimalAcceptedText(s);
    }
  }

  /** A hex prefix followed by no hexadecimal digit is rejected. */
  lemma BareHexPrefixRejected(s: string)
    requires HasHexPrefix(s)
    requires forall i :: 2 <= i < |s| ==> !IsHexDigit(s[i])
    ensures ParseHexPrefixed(s) == None
  {
  }
}

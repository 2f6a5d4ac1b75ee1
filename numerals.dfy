/**
 Integer text in the two forms the reader uses: Python's `int(s)` on a
 decimal literal, `str(n)` (the `{r}` of an f-string) and `format(n, '0Nx')`
 (the `{r:02x}` of an f-string).
 */
module Numerals {
  import opened Text

  datatype Option<T> = None | Some(value: T)

  predicate IsDecimalDigit(c: char) {
    '0' <= c <= '9'
  }

  /** A hexadecimal digit in either case, as a reader accepts it. */
  predicate IsHexDigit(c: char) {
    '0' <= c <= '9' || 'a' <= c <= 'f' || 'A' <= c <= 'F'
  }

  /** The digits `format(n, 'x')` writes: lower-case only. */
  predicate IsLowerHexDigit(c: char) {
    '0' <= c <= '9' || 'a' <= c <= 'f'
  }

  function CharValue(c: char): (d: nat)
    requires IsHexDigit(c)
    ensures d < 16
    ensures IsDecimalDigit(c) <==> d < 10
  {
    if '0' <= c <= '9' then c as int - '0' as int
    else if 'a' <= c <= 'f' then c as int - 'a' as int + 10
    else c as int - 'A' as int + 10
  }

  predicate IsDigitIn(c: char, base: nat) {
    IsHexDigit(c) && CharValue(c) < base
  }

  /** The lower-case digit character for `d`. */
  function DigitChar(d: nat): (c: char)
    requires d < 16
    ensures IsLowerHexDigit(c) && CharValue(c) == d
  {
    if d < 10 then ('0' as int + d) as char else ('a' as int + d - 10) as char
  }

  /** The value of a string of digits in `base`, most significant first.
      Any number of leading zeros is allowed. */
  function ValueOf(s: string, base: nat): nat
    requires 2 <= base <= 16
    requires forall i :: 0 <= i < |s| ==> IsDigitIn(s[i], base)
  {
    if s == [] then 0
    else
      var last := s[|s| - 1];
      assert IsDigitIn(last, base);
      var high := ValueOf(s[..|s| - 1], base);
      ShiftNat(high, base);
      high * base + CharValue(last)
  }

  lemma ShiftNat(high: nat, base: nat)
    ensures high * base >= 0
  {
  }

  /** The digits of `n` in `base`, most significant first, as Python writes
      them for `str(n)` (base 10) and `format(n, 'x')` (base 16): never empty,
      lower-case, no leading zero, and read back they give `n`. */
  function Digits(n: nat, base: nat): (r: string)
    requires 2 <= base <= 16
    ensures |r| > 0
    ensures forall i :: 0 <= i < |r| ==> IsDigitIn(r[i], base) && IsLowerHexDigit(r[i])
    ensures r[0] == '0' <==> n == 0
    ensures r[0] == '0' ==> r == "0"
    ensures ValueOf(r, base) == n
  {
    if n < base then [DigitChar(n)]
    else
      DivStep(n, base);
      var q := Digits(n / base, base);
      var r := q + [DigitChar(n % base)];
      assert r[..|r| - 1] == q;
      r
  }

  lemma DivStep(n: nat, base: nat)
    requires 2 <= base <= 16 && n >= base
    ensures 1 <= n / base < n && n % base < base && n == (n / base) * base + n % base
  {
  }

  /** `str(n)` for an integer of either sign: a minus sign exactly for a
      negative `n`, and decimal digits everywhere else, with no leading
      zero except in `"0"` itself. */
  function Decimal(n: int): (d: string)
    ensures |d| > 0 && (d[0] == '-' <==> n < 0)
    ensures forall i :: 0 <= i < |d| ==> (i == 0 && n < 0) || IsDecimalDigit(d[i])
    ensures var ds := if n < 0 then d[1..] else d;
            ds != [] && (ds[0] == '0' ==> ds == "0")
  {
    if n < 0 then
      var ds := Digits(-n, 10);
      var d := ['-'] + ds;
      assert forall i :: 0 < i < |d| ==> d[i] == ds[i - 1];
      assert d[1..] == ds;
      d
    else
      Digits(n, 10)
  }

  /** A run of `'0'` characters of length `k`, empty when `k <= 0`. */
  function Zeros(k: int): (r: string)
    ensures |r| == if k <= 0 then 0 else k
    ensures forall i :: 0 <= i < |r| ==> r[i] == '0'
  {
    if k <= 0 then [] else ['0'] + Zeros(k - 1)
  }

  /** `format(n, '0{width}x')`: lower-case hexadecimal, zero-padded after
      the sign up to `width` characters. The width is a minimum only:
      longer digit strings are never truncated. */
  function FormatHex(n: int, width: nat): (h: string)
    ensures |h| >= width && |h| > 0
    ensures h[0] == '-' <==> n < 0
  {
    var sign := if n < 0 then "-" else "";
    var digits := Digits(if n < 0 then -n else n, 16);
    var z := Zeros(width - |sign| - |digits|);
    assert z != [] ==> (sign + z + digits)[|sign|] == '0';
    assert z == [] ==> (sign + z + digits)[|sign|] == digits[0];
    sign + z + digits
  }

  lemma {:induction false} LeadingZero(s: string, base: nat)
    requires 2 <= base <= 16
    requires forall i :: 0 <= i < |s| ==> IsDigitIn(s[i], base)
    ensures ValueOf(['0'] + s, base) == ValueOf(s, base)
  {
    if s != [] {
      assert (['0'] + s)[..|s|] == ['0'] + s[..|s| - 1];
      LeadingZero(s[..|s| - 1], base);
    }
  }

  lemma ZerosThenDigits(k: int, s: string, base: nat)
    requires 2 <= base <= 16
    requires forall i :: 0 <= i < |s| ==> IsDigitIn(s[i], base)
    ensures forall i :: 0 <= i < |Zeros(k) + s| ==> IsDigitIn((Zeros(k) + s)[i], base)
  {
    var z := Zeros(k);
    assert IsDigitIn('0', base);
    forall i | 0 <= i < |z + s| ensures IsDigitIn((z + s)[i], base) {
      if i < |z| {
        assert (z + s)[i] == z[i];
      } else {
        assert (z + s)[i] == s[i - |z|];
      }
    }
  }

  /** Leading zeros do not change the value of a digit string. */
  lemma {:induction false} LeadingZeros(k: int, s: string, base: nat)
    requires 2 <= base <= 16
    requires forall i :: 0 <= i < |s| ==> IsDigitIn(s[i], base)
    ensures forall i :: 0 <= i < |Zeros(k) + s| ==> IsDigitIn((Zeros(k) + s)[i], base)
    ensures ValueOf(Zeros(k) + s, base) == ValueOf(s, base)
  {
    ZerosThenDigits(k, s, base);
    if k > 0 {
      LeadingZeros(k - 1, s, base);
      var z := Zeros(k - 1) + s;
      assert Zeros(k) + s == ['0'] + z;
      assert IsDigitIn('0', base);
      LeadingZero(z, base);
    } else {
      assert Zeros(k) + s == s;
    }
  }

  /** The number of hexadecimal digits of `n` is one below 16, two below
      256, and at least three from 256 on. */
  lemma HexDigitCount(n: nat)
    ensures (|Digits(n, 16)| == 1) <==> n < 16
    ensures (|Digits(n, 16)| <= 2) <==> n < 256
  {
    if n >= 16 {
      var q := n / 16;
      assert |Digits(n, 16)| == |Digits(q, 16)| + 1;
      if n >= 256 {
        assert q >= 16 && q / 16 >= 1;
        assert |Digits(q, 16)| == |Digits(q / 16, 16)| + 1;
      } else {
        assert q < 16;
      }
    }
  }

  /** For a non-negative `n`, `format(n, '0{width}x')` is at least `width`
      long, exactly `width` long when the digits fit, made of lower-case
      hexadecimal digits only, and read back as hexadecimal it gives `n`. */
  lemma FormatHexNonNegative(n: nat, width: nat)
    ensures var h := FormatHex(n, width);
            && |h| == (if |Digits(n, 16)| < width then width else |Digits(n, 16)|)
            && (forall i :: 0 <= i < |h| ==> IsDigitIn(h[i], 16) && IsLowerHexDigit(h[i]))
            && ValueOf(h, 16) == n
  {
    var digits := Digits(n, 16);
    var z := Zeros(width - |digits|);
    assert "" + z == z;
    assert FormatHex(n, width) == z + digits;
    LeadingZeros(width - |digits|, digits, 16);
  }

  /** For a negative `n` the text starts with a minus sign, which is not a
      hexadecimal digit. */
  lemma FormatHexNegative(n: int, width: nat)
    requires n < 0
    ensures var h := FormatHex(n, width);
            && |h| >= 2 && h[0] == '-' && !IsHexDigit(h[0])
  {
  }

  /** A value one byte can hold. */
  predicate IsByte(c: int) {
    0 <= c < 256
  }

  /** Two lower-case hexadecimal digits. */
  predicate IsHexPair(h: string) {
    |h| == 2 && IsLowerHexDigit(h[0]) && IsLowerHexDigit(h[1])
  }

  /** `{c:02x}` is exactly two lower-case hexadecimal digits precisely for
      `0 <= c < 256`; read back, the two digits give `c`. */
  lemma HexByte(c: int)
    ensures IsHexPair(FormatHex(c, 2)) <==> IsByte(c)
    ensures IsByte(c) ==> ValueOf(FormatHex(c, 2), 16) == c
    ensures c >= 256 ==> |FormatHex(c, 2)| >= 3
  {
    if c >= 0 {
      HexDigitCount(c);
      FormatHexNonNegative(c, 2);
    } else {
      FormatHexNegative(c, 2);
    }
  }

  // ---------------------------------------------------------------------
  // Reading a decimal literal, as Python's `int(s)` does (base 10).

  /** The digits of a literal with its `_` separators removed. */
  function DropUnderscores(t: string): (r: string)
    ensures forall i :: 0 <= i < |r| ==> r[i] in t && r[i] != '_'
  {
    if t == [] then []
    else if t[0] == '_' then DropUnderscores(t[1..])
    else [t[0]] + DropUnderscores(t[1..])
  }

  /** The digit part of a Python decimal literal: decimal digits, with
      single underscores allowed between two digits. */
  ghost predicate DigitGroups(t: string) {
    && |t| > 0
    && IsDecimalDigit(t[0])
    && IsDecimalDigit(t[|t| - 1])
    && (forall i :: 0 <= i < |t| ==> IsDecimalDigit(t[i]) || t[i] == '_')
    && (forall i :: 0 <= i < |t| - 1 ==> t[i] == '_' ==> IsDecimalDigit(t[i + 1]))
  }

  /** A literal `int()` accepts once whitespace is stripped: an optional
      sign followed by digit groups. */
  ghost predicate IntLiteral(t: string) {
    DigitGroups(t) || (|t| > 0 && (t[0] == '+' || t[0] == '-') && DigitGroups(t[1..]))
  }

  ghost predicate AllDecimal(s: string) {
    forall i :: 0 <= i < |s| ==> IsDecimalDigit(s[i])
  }

  /** Scans digit groups left to right; `acc` is the value read so far and
      `afterDigit` says whether the previous character was a digit, so that
      an underscore may follow. */
  function ScanDigits(t: string, acc: nat, afterDigit: bool): Option<nat> {
    if t == [] then
      if afterDigit then Some(acc) else None
    else if IsDecimalDigit(t[0]) then
      ScanDigits(t[1..], acc * 10 + CharValue(t[0]), true)
    else if t[0] == '_' && afterDigit then
      ScanDigits(t[1..], acc, false)
    else
      None
  }

  /** U+001C to U+001F. `str.isspace` holds for them, so `strip` removes
      them, but `int()` skips only the ASCII whitespace ` \t\n\v\f\r` and
      the non-ASCII whitespace. These four are none of those. */
  predicate IsInfoSeparator(c: char) {
    0x1C <= c as int <= 0x1F
  }

  /** An information separator is whitespace to `strip`, yet it is none of
      the characters an integer literal is made of. */
  lemma InfoSeparatorIsSpace(c: char)
    requires IsInfoSeparator(c)
    ensures IsSpace(c)
    ensures !IsDecimalDigit(c) && c != '+' && c != '-' && c != '_'
  {
  }

  predicate HasInfoSeparator(s: string) {
    exists i | 0 <= i < |s| :: IsInfoSeparator(s[i])
  }

  /** `int(s)`: strip surrounding whitespace, take an optional sign, then
      digit groups; anything else fails (Python raises `ValueError`).
      Since `int()` accepts an information separator neither as whitespace
      nor as part of a literal, one anywhere in `s` makes it fail. On text
      without one, `int()`'s whitespace and `strip`'s agree. Blank text
      never converts. */
  function ParseInt(s: string): (r: Option<int>)
    ensures r.Some? ==> Strip(s) != [] && forall i :: 0 <= i < |s| ==> !IsInfoSeparator(s[i])
  {
    if HasInfoSeparator(s) then None else ParseLiteral(Strip(s))
  }

  /** The text `int()` accepts: no information separator, and once stripped
      an optional sign followed by digit groups. */
  ghost predicate IntText(s: string) {
    !HasInfoSeparator(s) && IntLiteral(Strip(s))
  }

  /** An optional sign, then digit groups. */
  function ParseLiteral(t: string): Option<int> {
    if |t| > 0 && (t[0] == '+' || t[0] == '-') then
      match ScanDigits(t[1..], 0, false)
      case None => None
      case Some(v) => Some(if t[0] == '-' then -(v as int) else v as int)
    else
      match ScanDigits(t, 0, false)
      case None => None
      case Some(v) => Some(v as int)
  }

  lemma DropUnderscoresDigits(t: string)
    requires DigitGroups(t)
    ensures AllDecimal(DropUnderscores(t))
  {
  }

  /** The value of a literal that `int()` accepts. */
  ghost function LiteralValue(t: string): int
    requires IntLiteral(t)
  {
    if DigitGroups(t) then
      DropUnderscoresDigits(t);
      ValueOf(DropUnderscores(t), 10)
    else
      DropUnderscoresDigits(t[1..]);
      var v: int := ValueOf(DropUnderscores(t[1..]), 10);
      if t[0] == '-' then -v else v
  }

  lemma DigitGroupsNonDigitHead(c: char, w: string)
    requires !IsDecimalDigit(c)
    ensures !DigitGroups([c] + w)
  {
    assert ([c] + w)[0] == c;
  }

  lemma DigitGroupsOneDigit(c: char)
    requires IsDecimalDigit(c)
    ensures DigitGroups([c])
  {
  }

  lemma DigitGroupsDigitDigit(c: char, w: string)
    requires IsDecimalDigit(c) && w != [] && IsDecimalDigit(w[0])
    ensures DigitGroups([c] + w) <==> DigitGroups(w)
  {
    var t := [c] + w;
    assert forall i :: 1 <= i < |t| ==> t[i] == w[i - 1];
    assert t[|t| - 1] == w[|w| - 1];
    if DigitGroups(w) {
      forall i | 0 <= i < |t| ensures IsDecimalDigit(t[i]) || t[i] == '_' {
        if i > 0 { assert t[i] == w[i - 1]; }
      }
      forall i | 0 <= i < |t| - 1 && t[i] == '_' ensures IsDecimalDigit(t[i + 1]) {
        assert i >= 1 && w[i - 1] == '_';
        assert t[i + 1] == w[i];
      }
    }
    if DigitGroups(t) {
      forall i | 0 <= i < |w| ensures IsDecimalDigit(w[i]) || w[i] == '_' {
        assert w[i] == t[i + 1];
      }
      forall i | 0 <= i < |w| - 1 && w[i] == '_' ensures IsDecimalDigit(w[i + 1]) {
        assert t[i + 1] == '_';
        assert IsDecimalDigit(t[i + 2]);
        assert t[i + 2] == w[i + 1];
      }
    }
  }

  lemma DigitGroupsDigitUnderscore(c: char, w: string)
    requires IsDecimalDigit(c) && w != [] && w[0] == '_'
    ensures DigitGroups([c] + w) <==> DigitGroups(w[1..])
  {
    var t := [c] + w;
    var u := w[1..];
    assert forall i :: 2 <= i < |t| ==> t[i] == u[i - 2];
    assert t[1] == '_';
    if DigitGroups(u) {
      assert t[|t| - 1] == u[|u| - 1];
      forall i | 0 <= i < |t| ensures IsDecimalDigit(t[i]) || t[i] == '_' {
        if i >= 2 { assert t[i] == u[i - 2]; }
      }
      forall i | 0 <= i < |t| - 1 && t[i] == '_' ensures IsDecimalDigit(t[i + 1]) {
        if i == 1 {
          assert t[2] == u[0];
        } else {
          assert i >= 2 && u[i - 2] == '_';
          assert t[i + 1] == u[i - 1];
        }
      }
    }
    if DigitGroups(t) {
      assert IsDecimalDigit(t[2]);
      assert |u| > 0 && u[0] == t[2];
      assert t[|t| - 1] == u[|u| - 1];
      forall i | 0 <= i < |u| ensures IsDecimalDigit(u[i]) || u[i] == '_' {
        assert u[i] == t[i + 2];
      }
      forall i | 0 <= i < |u| - 1 && u[i] == '_' ensures IsDecimalDigit(u[i + 1]) {
        assert t[i + 2] == '_';
        assert IsDecimalDigit(t[i + 3]);
        assert t[i + 3] == u[i + 1];
      }
    }
  }

  lemma DigitGroupsBadSecond(c: char, w: string)
    requires w != [] && !IsDecimalDigit(w[0]) && w[0] != '_'
    ensures !DigitGroups([c] + w)
  {
    assert ([c] + w)[1] == w[0];
  }

  /** Replacing the first digit by another digit keeps digit groups. */
  lemma DigitGroupsSwapHead(c: char, d: char, u: string)
    requires IsDecimalDigit(c) && IsDecimalDigit(d)
    ensures DigitGroups([c] + u) <==> DigitGroups([d] + u)
  {
    if u == [] {
      DigitGroupsOneDigit(c);
      DigitGroupsOneDigit(d);
    } else if IsDecimalDigit(u[0]) {
      DigitGroupsDigitDigit(c, u);
      DigitGroupsDigitDigit(d, u);
    } else if u[0] == '_' {
      DigitGroupsDigitUnderscore(c, u);
      DigitGroupsDigitUnderscore(d, u);
    } else {
      DigitGroupsBadSecond(c, u);
      DigitGroupsBadSecond(d, u);
    }
  }

  /** The scanner accepts exactly the digit groups and computes their
      value: with `afterDigit` the text continues a literal whose last digit
      is already read, otherwise it must start one. */
  lemma {:induction false} ScanDigitsCorrect(p: string, t: string, afterDigit: bool)
    requires AllDecimal(p)
    ensures var ok := if afterDigit then DigitGroups(['0'] + t) else DigitGroups(t);
            && (ok ==> AllDecimal(p + DropUnderscores(t)))
            && ScanDigits(t, ValueOf(p, 10), afterDigit)
               == if ok then Some(ValueOf(p + DropUnderscores(t), 10)) else None
    decreases |t|
  {
    if t == [] {
      assert p + DropUnderscores(t) == p;
      DigitGroupsOneDigit('0');
    } else {
      var c, u := t[0], t[1..];
      assert t == [c] + u;
      if IsDecimalDigit(c) {
        var p' := p + [c];
        AppendDigit(p, c, u);
        ScanDigitsCorrect(p', u, true);
        DigitGroupsSwapHead(c, '0', u);
        if afterDigit {
          DigitGroupsDigitDigit('0', t);
        }
      } else if c == '_' {
        if afterDigit {
          ScanDigitsCorrect(p, u, false);
          DigitGroupsDigitUnderscore('0', t);
        } else {
          DigitGroupsNonDigitHead(c, u);
        }
      } else {
        DigitGroupsNonDigitHead(c, u);
        DigitGroupsBadSecond('0', t);
      }
    }
  }

  /** One more digit read: the value grows by one decimal place, and the
      digit moves from the rest of the literal to the part already read. */
  lemma AppendDigit(p: string, c: char, u: string)
    requires AllDecimal(p) && IsDecimalDigit(c)
    ensures AllDecimal(p + [c])
    ensures ValueOf(p + [c], 10) == ValueOf(p, 10) * 10 + CharValue(c)
    ensures p + DropUnderscores([c] + u) == p + [c] + DropUnderscores(u)
  {
    var p' := p + [c];
    assert forall i :: 0 <= i < |p| ==> p'[i] == p[i];
    assert p'[|p|] == c;
    assert p'[..|p'| - 1] == p;
    var t := [c] + u;
    assert t[0] == c && t[1..] == u;
    assert DropUnderscores(t) == [c] + DropUnderscores(u);
    assert p + ([c] + DropUnderscores(u)) == p' + DropUnderscores(u);
  }

  /** `int()` succeeds exactly on the literals it accepts and returns their
      value. */
  lemma ParseIntCorrect(s: string)
    ensures ParseInt(s).Some? <==> IntText(s)
    ensures ParseInt(s).Some? ==> ParseInt(s).value == LiteralValue(Strip(s))
  {
    ParseLiteralCorrect(Strip(s));
  }

  lemma ParseLiteralCorrect(t: string)
    ensures ParseLiteral(t).Some? <==> IntLiteral(t)
    ensures ParseLiteral(t).Some? ==> ParseLiteral(t).value == LiteralValue(t)
  {
    if |t| > 0 && (t[0] == '+' || t[0] == '-') {
      assert t == [t[0]] + t[1..];
      DigitGroupsNonDigitHead(t[0], t[1..]);
      ScanFromStart(t[1..]);
    } else {
      ScanFromStart(t);
    }
  }

  /** The scanner started on a fresh literal. */
  lemma ScanFromStart(t: string)
    ensures DigitGroups(t) ==> AllDecimal(DropUnderscores(t))
    ensures ScanDigits(t, 0, false)
            == if DigitGroups(t) then Some(ValueOf(DropUnderscores(t), 10)) else None
  {
    assert ValueOf([], 10) == 0;
    ScanDigitsCorrect([], t, false);
    assert [] + DropUnderscores(t) == DropUnderscores(t);
  }

  /** A non-empty run of plain digits scans to its value. */
  lemma ScanPlainDigits(ds: string)
    requires ds != [] && AllDecimal(ds)
    ensures ScanDigits(ds, 0, false) == Some(ValueOf(ds, 10))
  {
    assert DigitGroups(ds);
    AllDigitsKept(ds);
    assert ValueOf([], 10) == 0;
    ScanDigitsCorrect([], ds, false);
    assert [] + ds == ds;
  }

  /** `int(str(n)) == n` for every integer. */
  lemma ParseDecimal(n: int)
    ensures ParseInt(Decimal(n)) == Some(n)
  {
    var d := Decimal(n);
    DecimalUnpadded(n);
    StripUnpadded(d);
    assert !HasInfoSeparator(d);
    ParseLiteralDecimal(n);
  }

  lemma DecimalUnpadded(n: int)
    ensures var d := Decimal(n); |d| > 0 && !IsSpace(d[0]) && !IsSpace(d[|d| - 1])
  {
    var ds := Digits(if n < 0 then -n else n, 10);
    assert IsDecimalDigit(ds[0]) && IsDecimalDigit(ds[|ds| - 1]);
  }

  lemma ParseLiteralDecimal(n: int)
    ensures ParseLiteral(Decimal(n)) == Some(n)
  {
    var m := if n < 0 then -n else n;
    var ds := Digits(m, 10);
    ScanPlainDigits(ds);
    var d := Decimal(n);
    if n < 0 {
      assert d[1..] == ds;
    } else {
      assert IsDecimalDigit(d[0]);
    }
  }

  lemma {:induction false} AllDigitsKept(s: string)
    requires AllDecimal(s)
    ensures DropUnderscores(s) == s
  {
    if s != [] {
      AllDigitsKept(s[1..]);
    }
  }
}

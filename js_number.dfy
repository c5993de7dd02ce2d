/**
 * The subset of JavaScript's number built-ins that the translator uses:
 * `parseInt(s, radix)` and `Number.prototype.toString(radix)` on integers.
 * Numbers are unbounded integers here; `NaN` is an absent value.
 */
module JsNumber {
  import opened Wrappers
  import opened JsString

  type Radix = r: nat | 2 <= r <= 36 witness 2

  function Pow(b: nat, e: nat): (r: nat)
    ensures b >= 1 ==> r >= 1
  {
    if e == 0 then 1 else Pow(b, e - 1) * b
  }

  /** The value of `c` as a digit of radix 36 (either case), or -1. */
  function DigitOf(c: char): int {
    if '0' <= c <= '9' then c as int - '0' as int
    else if 'a' <= c <= 'z' then c as int - 'a' as int + 10
    else if 'A' <= c <= 'Z' then c as int - 'A' as int + 10
    else -1
  }

  predicate IsDigit(c: char, radix: Radix) {
    0 <= DigitOf(c) < radix
  }

  predicate AllDigits(s: string, radix: Radix) {
    forall i :: 0 <= i < |s| ==> IsDigit(s[i], radix)
  }

  /** A digit as `toString` writes it: `0`-`9`, then lower-case letters. */
  function DigitChar(d: nat): (c: char)
    requires d < 36
    ensures DigitOf(c) == d
    ensures !('A' <= c <= 'Z')
  {
    if d < 10 then ('0' as int + d) as char else ('a' as int + d - 10) as char
  }

  /** An upper-case hexadecimal digit, as matched by `[0-9A-F]`. */
  predicate IsUpperHexDigit(c: char) {
    '0' <= c <= '9' || 'A' <= c <= 'F'
  }

  predicate AllUpperHex(s: string) {
    forall i :: 0 <= i < |s| ==> IsUpperHexDigit(s[i])
  }

  predicate IsBinaryDigit(c: char) {
    c == '0' || c == '1'
  }

  predicate AllBinary(s: string) {
    forall i :: 0 <= i < |s| ==> IsBinaryDigit(s[i])
  }

  /** The length of the longest prefix of `s` made of digits of `radix`. */
  function DigitPrefixLength(s: string, radix: Radix): (n: nat)
    ensures n <= |s| && AllDigits(s[..n], radix)
    ensures n < |s| ==> !IsDigit(s[n], radix)
  {
    if |s| == 0 || !IsDigit(s[0], radix) then 0
    else 1 + DigitPrefixLength(s[1..], radix)
  }

  /** The value of a digit string, most significant digit first. */
  function DigitsValue(ds: string, radix: Radix): (v: int)
    requires AllDigits(ds, radix)
    ensures v >= 0
  {
    if |ds| == 0 then 0
    else DigitsValue(ds[..|ds| - 1], radix) * radix + DigitOf(ds[|ds| - 1])
  }

  /**
   * `parseInt(s, radix)`: leading white space and one sign are skipped, a
   * `0x`/`0X` prefix too when the radix is 16, then the longest run of digits
   * is read; with no digit the result is `NaN` (here: None).
   */
  function ParseInt(s: string, radix: Radix): Option<int> {
    var t := TrimStart(s);
    var negative := |t| > 0 && t[0] == '-';
    match ReadDigits(StripHexPrefix(DropSign(t), radix), radix)
    case None => None
    case Some(m) => var value: int := if negative then -(m as int) else m; Some(value)
  }

  function DropSign(t: string): string {
    if |t| > 0 && (t[0] == '-' || t[0] == '+') then t[1..] else t
  }

  function StripHexPrefix(u: string, radix: Radix): string {
    if radix == 16 && |u| >= 2 && u[0] == '0' && (u[1] == 'x' || u[1] == 'X') then u[2..] else u
  }

  /** The value of the longest leading run of digits, or None when there is none. */
  function ReadDigits(v: string, radix: Radix): Option<nat> {
    var n := DigitPrefixLength(v, radix);
    if n == 0 then None else Some(DigitsValue(v[..n], radix))
  }

  /** `n.toString(radix)` for a non-negative integer: the shortest digit string. */
  function ToRadix(n: nat, radix: Radix): (r: string)
    ensures |r| >= 1
    decreases n
  {
    if n < radix then [DigitChar(n)]
    else
      DivMod(n, radix);
      ToRadix(n / radix, radix) + [DigitChar(n % radix)]
  }

  /** `n.toString(radix)` for any integer: a minus sign, then the digits of `|n|`. */
  function NumberToString(n: int, radix: Radix): string {
    if n < 0 then "-" + ToRadix(-n, radix) else ToRadix(n, radix)
  }

  lemma {:induction false} ToRadixDigits(n: nat, radix: Radix)
    ensures AllDigits(ToRadix(n, radix), radix)
    ensures DigitsValue(ToRadix(n, radix), radix) == n
    ensures forall i :: 0 <= i < |ToRadix(n, radix)| ==> !('A' <= ToRadix(n, radix)[i] <= 'Z')
    decreases n
  {
    if n >= radix {
      var q, d := n / radix, n % radix;
      assert q * radix + d == n && q < n by { DivMod(n, radix); }
      ToRadixDigits(q, radix);
      DigitsValueSnoc(ToRadix(q, radix), d, radix);
    }
  }

  lemma DivMod(n: nat, radix: Radix)
    ensures (n / radix) * radix + n % radix == n
    ensures n >= radix ==> n / radix < n
  {
  }

  /** Appending a digit multiplies the value by the radix and adds the digit. */
  lemma DigitsValueSnoc(p: string, d: nat, radix: Radix)
    requires AllDigits(p, radix) && d < radix
    ensures AllDigits(p + [DigitChar(d)], radix)
    ensures DigitsValue(p + [DigitChar(d)], radix) == DigitsValue(p, radix) * radix + d
  {
    var r := p + [DigitChar(d)];
    assert r[..|r| - 1] == p;
  }

  /** Below `radix^w`, `toString(radix)` writes at most `w` digits. */
  lemma {:induction false} ToRadixLength(n: nat, radix: Radix, w: nat)
    requires w >= 1 && n < Pow(radix, w)
    ensures |ToRadix(n, radix)| <= w
    decreases n
  {
    if n >= radix {
      assert Pow(radix, w) == radix * Pow(radix, w - 1);
      assert Pow(radix, 1) == radix;
      assert w >= 2;
      DivBound(n, radix, Pow(radix, w - 1));
      DivMod(n, radix);
      ToRadixLength(n / radix, radix, w - 1);
    }
  }

  lemma DivBound(n: nat, radix: Radix, m: nat)
    requires n < radix * m
    ensures n / radix < m
  {
  }

  lemma Regroup(x: int, p: int, y: int, r: int, z: int)
    ensures (x * p + y) * r + z == x * (p * r) + (y * r + z)
  {
  }

  lemma {:induction false} DigitsValueConcat(a: string, b: string, radix: Radix)
    requires AllDigits(a, radix) && AllDigits(b, radix)
    ensures AllDigits(a + b, radix)
    ensures DigitsValue(a + b, radix) == DigitsValue(a, radix) * Pow(radix, |b|) + DigitsValue(b, radix)
    decreases |b|
  {
    if |b| > 0 {
      var b' := b[..|b| - 1];
      var last := DigitOf(b[|b| - 1]);
      assert (a + b)[..|a + b| - 1] == a + b';
      DigitsValueConcat(a, b', radix);
      assert DigitsValue(a + b, radix) == DigitsValue(a + b', radix) * radix + last;
      assert DigitsValue(b, radix) == DigitsValue(b', radix) * radix + last;
      assert Pow(radix, |b|) == Pow(radix, |b'|) * radix;
      Regroup(DigitsValue(a, radix), Pow(radix, |b'|), DigitsValue(b', radix), radix, last);
    } else {
      assert a + b == a;
    }
  }

  /** Leading zeros do not change a digit string's value. */
  lemma {:induction false} DigitsValueZeros(k: nat, s: string, radix: Radix)
    requires AllDigits(s, radix)
    ensures AllDigits(Repeat('0', k) + s, radix)
    ensures DigitsValue(Repeat('0', k) + s, radix) == DigitsValue(s, radix)
  {
    ZerosValue(k, radix);
    DigitsValueConcat(Repeat('0', k), s, radix);
  }

  lemma {:induction false} ZerosValue(k: nat, radix: Radix)
    ensures AllDigits(Repeat('0', k), radix)
    ensures DigitsValue(Repeat('0', k), radix) == 0
  {
    if k > 0 {
      assert Repeat('0', k)[..k - 1] == Repeat('0', k - 1);
      ZerosValue(k - 1, radix);
    }
  }

  /** Upper-casing a digit string keeps its digits and its value. */
  lemma {:induction false} DigitsValueUpper(s: string, radix: Radix)
    requires AllDigits(s, radix)
    ensures AllDigits(ToUpper(s), radix)
    ensures DigitsValue(ToUpper(s), radix) == DigitsValue(s, radix)
    decreases |s|
  {
    if |s| > 0 {
      var n := |s| - 1;
      var s', u := s[..n], ToUpper(s);
      assert u[..n] == ToUpper(s');
      DigitsValueUpper(s', radix);
      UpperDigit(s[n], radix);
      assert AllDigits(u, radix) by {
        forall i | 0 <= i < |u| ensures IsDigit(u[i], radix) {
          if i < n { assert u[i] == u[..n][i]; }
        }
      }
      assert DigitsValue(u, radix) == DigitsValue(u[..n], radix) * radix + DigitOf(u[n]);
    }
  }

  /** Upper-casing a digit keeps its value. */
  lemma UpperDigit(c: char, radix: Radix)
    requires IsDigit(c, radix)
    ensures IsDigit(UpperChar(c), radix) && DigitOf(UpperChar(c)) == DigitOf(c)
  {
  }

  /** `parseInt` reads a leading run of digits and stops at the first non-digit. */
  lemma ParseIntDigitPrefix(ds: string, rest: string, radix: Radix)
    requires |ds| >= 1 && AllDigits(ds, radix) && radix <= 16
    requires |rest| > 0 ==> !IsDigit(rest[0], radix) && rest[0] != 'x' && rest[0] != 'X'
    ensures ParseInt(ds + rest, radix) == Some(DigitsValue(ds, radix))
  {
    var s := ds + rest;
    assert s[0] == ds[0];
    DigitIsPlain(ds[0], radix);
    assert TrimStart(s) == s;
    assert DropSign(s) == s;
    if |ds| >= 2 {
      DigitIsPlain(ds[1], radix);
      assert s[1] == ds[1];
    } else if |rest| > 0 {
      assert s[1] == rest[0];
    }
    assert StripHexPrefix(s, radix) == s;
    DigitPrefixOf(ds, rest, radix);
    assert s[..|ds|] == ds;
  }

  /** A digit is neither white space, a sign nor the `x` of a `0x` prefix. */
  lemma DigitIsPlain(c: char, radix: Radix)
    requires IsDigit(c, radix) && radix <= 16
    ensures !IsSpace(c) && c != '-' && c != '+' && c != 'x' && c != 'X'
  {
  }

  lemma {:induction false} DigitPrefixOf(ds: string, rest: string, radix: Radix)
    requires AllDigits(ds, radix)
    requires |rest| > 0 ==> !IsDigit(rest[0], radix)
    ensures DigitPrefixLength(ds + rest, radix) == |ds|
  {
    if |ds| > 0 {
      assert (ds + rest)[1..] == ds[1..] + rest;
      DigitPrefixOf(ds[1..], rest, radix);
    } else {
      assert ds + rest == rest;
    }
  }

  /** `parseInt(n.toString(radix), radix) == n` for the radixes the translator uses. */
  lemma ParseIntToString(n: int, radix: Radix)
    requires radix <= 16
    ensures ParseInt(NumberToString(n, radix), radix) == Some(n)
  {
    if n < 0 {
      ParseIntNegative(-n, radix, NumberToString(n, radix));
    } else {
      ParseIntDigits(n, radix, NumberToString(n, radix));
    }
  }

  /** The digits of `m` read back as `m`. */
  lemma ParseIntDigits(m: nat, radix: Radix, s: string)
    requires radix <= 16 && s == ToRadix(m, radix)
    ensures ParseInt(s, radix) == Some(m)
  {
    var ds := ToRadix(m, radix);
    ToRadixDigits(m, radix);
    ReadPlainDigits(ds, radix);
  }

  /** A minus sign and the digits of `m` read back as `-m`. */
  lemma ParseIntNegative(m: nat, radix: Radix, s: string)
    requires radix <= 16 && s == "-" + ToRadix(m, radix)
    ensures ParseInt(s, radix) == Some(-(m as int))
  {
    var ds := ToRadix(m, radix);
    ToRadixDigits(m, radix);
    ReadPlainDigits(ds, radix);
    MinusPrefix(ds);
  }

  lemma MinusPrefix(ds: string)
    ensures TrimStart("-" + ds) == "-" + ds
    ensures DropSign("-" + ds) == ds
  {
    var s := "-" + ds;
    assert s[0] == '-' && !IsSpace('-');
    assert s[1..] == ds;
  }

  /** A bare digit string passes the prefix steps of `parseInt` unchanged. */
  lemma ReadPlainDigits(ds: string, radix: Radix)
    requires |ds| >= 1 && AllDigits(ds, radix) && radix <= 16
    ensures TrimStart(ds) == ds && DropSign(ds) == ds && StripHexPrefix(ds, radix) == ds
    ensures ReadDigits(ds, radix) == Some(DigitsValue(ds, radix))
  {
    DigitIsPlain(ds[0], radix);
    if |ds| >= 2 {
      DigitIsPlain(ds[1], radix);
    }
    DigitPrefixOf(ds, "", radix);
    assert ds + "" == ds;
    assert ds[..|ds|] == ds;
  }

  /**
   * Rendering `n` in base 16, zero-padded to `w` and upper-cased gives exactly `w`
   * upper-case hexadecimal digits whose value is `n`, whenever `n < 16^w`; the
   * order of padding and upper-casing does not matter.
   */
  lemma PaddedHex(n: nat, w: nat)
    requires w >= 1 && n < Pow(16, w)
    ensures |ToUpper(PadStart(ToRadix(n, 16), w, '0'))| == w
    ensures AllUpperHex(ToUpper(PadStart(ToRadix(n, 16), w, '0')))
    ensures AllDigits(ToUpper(PadStart(ToRadix(n, 16), w, '0')), 16)
    ensures DigitsValue(ToUpper(PadStart(ToRadix(n, 16), w, '0')), 16) == n
    ensures PadStart(ToUpper(ToRadix(n, 16)), w, '0') == ToUpper(PadStart(ToRadix(n, 16), w, '0'))
  {
    var p := PadStart(ToRadix(n, 16), w, '0');
    PaddedDigits(n, 16, w);
    DigitsValueUpper(p, 16);
    UpperHexDigits(p);
    PadThenUpper(ToRadix(n, 16), w);
  }

  /** Zero-padding `toString(radix)` to `w` digits keeps the value. */
  lemma PaddedDigits(n: nat, radix: Radix, w: nat)
    requires w >= 1 && n < Pow(radix, w)
    ensures |PadStart(ToRadix(n, radix), w, '0')| == w
    ensures AllDigits(PadStart(ToRadix(n, radix), w, '0'), radix)
    ensures DigitsValue(PadStart(ToRadix(n, radix), w, '0'), radix) == n
  {
    var ds := ToRadix(n, radix);
    ToRadixDigits(n, radix);
    ToRadixLength(n, radix, w);
    var k := w - |ds|;
    assert PadStart(ds, w, '0') == Repeat('0', k) + ds;
    DigitsValueZeros(k, ds, radix);
  }

  lemma PadThenUpper(s: string, w: nat)
    ensures PadStart(ToUpper(s), w, '0') == ToUpper(PadStart(s, w, '0'))
  {
    var k := if |s| >= w then 0 else w - |s|;
    ToUpperConcat(Repeat('0', k), s);
    assert ToUpper(Repeat('0', k)) == Repeat('0', k);
    assert Repeat('0', k) + s == PadStart(s, w, '0');
  }

  /** Upper-casing hexadecimal digits gives the `[0-9A-F]` spelling. */
  lemma UpperHexDigits(s: string)
    requires AllDigits(s, 16)
    ensures AllUpperHex(ToUpper(s))
  {
    forall i | 0 <= i < |s| ensures IsUpperHexDigit(ToUpper(s)[i]) {
      assert IsDigit(s[i], 16);
    }
  }
}

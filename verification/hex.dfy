/** Hexadecimal rendering and parsing as the poller uses them:
    `hex(n)[2:].upper()` for numbers it writes, `int(s, 16)` for numbers it
    reads, and the `'0'`-padding loop of the checksum. */
module Hex {
  import opened Text

  predicate IsHexDigit(c: char) {
    '0' <= c <= '9' || 'a' <= c <= 'f' || 'A' <= c <= 'F'
  }

  predicate IsUpperHexDigit(c: char) {
    '0' <= c <= '9' || 'A' <= c <= 'F'
  }

  predicate AllHex(s: string) {
    forall i :: 0 <= i < |s| ==> IsHexDigit(s[i])
  }

  predicate AllUpperHex(s: string) {
    forall i :: 0 <= i < |s| ==> IsUpperHexDigit(s[i])
  }

  function DigitValue(c: char): (d: nat)
    requires IsHexDigit(c)
    ensures d < 16
  {
    if '0' <= c <= '9' then (c as int) - ('0' as int)
    else if 'a' <= c <= 'f' then (c as int) - ('a' as int) + 10
    else (c as int) - ('A' as int) + 10
  }

  /** The upper-case digit for a value below sixteen. */
  function DigitChar(d: nat): (c: char)
    requires d < 16
    ensures IsUpperHexDigit(c) && DigitValue(c) == d
  {
    if d < 10 then ('0' as int + d) as char else ('A' as int + d - 10) as char
  }

  lemma DigitCharOfValue(c: char)
    requires IsUpperHexDigit(c)
    ensures DigitChar(DigitValue(c)) == c
  {
  }

  /** `hex(n)[2:].upper()`: upper-case digits, no prefix, no leading zero. */
  function ToHex(n: nat): (h: string)
    ensures |h| >= 1 && AllUpperHex(h)
    ensures n > 0 ==> h[0] != '0'
    decreases n
  {
    if n < 16 then [DigitChar(n)] else ToHex(n / 16) + [DigitChar(n % 16)]
  }

  /** The number a non-empty run of hex digits denotes (most significant first). */
  function Value(s: string): nat
    requires AllHex(s)
  {
    if |s| == 0 then 0 else Value(s[..|s| - 1]) * 16 + DigitValue(s[|s| - 1])
  }

  /** `int(s, 16)` restricted to plain hex digits of either case; anything
      else (including the empty string) is a parse failure. */
  function ParseHex(s: string): (r: Option<nat>)
    ensures r.Some? <==> |s| > 0 && AllHex(s)
  {
    if |s| > 0 && AllHex(s) then Some(Value(s)) else None
  }

  function Pow16(k: nat): (p: nat)
    ensures p >= 1
  {
    if k == 0 then 1 else 16 * Pow16(k - 1)
  }

  /** Reading back what `ToHex` wrote gives the number again. */
  lemma {:induction false} ValueOfToHex(n: nat)
    ensures Value(ToHex(n)) == n
    decreases n
  {
    if n >= 16 {
      ValueOfToHex(n / 16);
      var h := ToHex(n);
      assert h[..|h| - 1] == ToHex(n / 16);
    }
  }

  lemma ParseToHex(n: nat)
    ensures ParseHex(ToHex(n)) == Some(n)
  {
    ValueOfToHex(n);
  }

  /** `ToHex(n)` fits in `k` digits exactly when `n < 16^k`. */
  lemma {:induction false} ToHexWidth(n: nat, k: nat)
    requires k >= 1
    ensures |ToHex(n)| <= k <==> n < Pow16(k)
    decreases n
  {
    if n >= 16 {
      if k == 1 {
        assert Pow16(1) == 16;
      } else {
        ToHexWidth(n / 16, k - 1);
        assert n / 16 < Pow16(k - 1) <==> n < 16 * Pow16(k - 1);
      }
    } else {
      assert Pow16(k) >= 16 by { assert Pow16(k) == 16 * Pow16(k - 1); }
    }
  }

  /** `k` copies of the digit zero. */
  function Zeros(k: nat): (z: string)
    ensures |z| == k
    ensures forall i :: 0 <= i < k ==> z[i] == '0'
  {
    if k == 0 then "" else Zeros(k - 1) + "0"
  }

  /** The `while len(h) < width: h = '0' + h` loop. */
  function PadZeros(h: string, width: nat): (r: string)
    ensures |h| >= width ==> r == h
    ensures |h| < width ==> r == Zeros(width - |h|) + h
    decreases width - |h|
  {
    if |h| >= width then h
    else
      var r := PadZeros("0" + h, width);
      assert |"0" + h| < width ==> Zeros(width - |h| - 1) + ("0" + h) == Zeros(width - |h|) + h;
      r
  }

  /** A leading zero does not change the value. */
  lemma {:induction false} ValueLeadingZero(s: string)
    requires AllHex(s)
    ensures AllHex("0" + s) && Value("0" + s) == Value(s)
    decreases |s|
  {
    var z := "0" + s;
    assert AllHex(z) by {
      forall i | 0 <= i < |z| ensures IsHexDigit(z[i]) {
        if i > 0 { assert z[i] == s[i - 1]; }
      }
    }
    if |s| > 0 {
      var pre := s[..|s| - 1];
      assert z[..|z| - 1] == "0" + pre;
      ValueLeadingZero(pre);
    }
  }

  /** Padding with zeros keeps the value. */
  lemma {:induction false} ValueOfPadZeros(h: string, width: nat)
    requires AllHex(h)
    ensures AllHex(PadZeros(h, width)) && Value(PadZeros(h, width)) == Value(h)
    decreases width - |h|
  {
    if |h| < width {
      ValueLeadingZero(h);
      ValueOfPadZeros("0" + h, width);
    }
  }

  /** Base-16 positional notation is unambiguous in its last digit. */
  lemma DigitsOfBase16(a: nat, da: nat, b: nat, db: nat)
    requires da < 16 && db < 16
    requires a * 16 + da == b * 16 + db
    ensures a == b && da == db
  {
    var d: int := a - b;
    assert d * 16 == db - da;
  }

  /** Two upper-case digit strings of one length with one value are equal. */
  lemma {:induction false} ValueInjective(s: string, t: string)
    requires |s| == |t| && AllUpperHex(s) && AllUpperHex(t)
    requires Value(s) == Value(t)
    ensures s == t
    decreases |s|
  {
    if |s| > 0 {
      var n := |s| - 1;
      DigitsOfBase16(Value(s[..n]), DigitValue(s[n]), Value(t[..n]), DigitValue(t[n]));
      DigitCharOfValue(s[n]);
      DigitCharOfValue(t[n]);
      ValueInjective(s[..n], t[..n]);
      assert s == s[..n] + [s[n]] && t == t[..n] + [t[n]];
    }
  }
}

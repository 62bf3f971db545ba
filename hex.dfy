/** Hexadecimal text as read by Python's `int(text, 16)` and written by
    `format(n, '08X')`: digit classes, the value of a digit string, the
    canonical upper-case rendering, the 8-digit zero-padded field, and the
    parser with its surrounding-whitespace rule. */
module Hex {
  import opened Wrappers

  /** A digit accepted by `int(text, 16)`: 0-9, a-f, A-F. */
  predicate IsHexDigit(c: char) {
    '0' <= c <= '9' || 'a' <= c <= 'f' || 'A' <= c <= 'F'
  }

  /** A digit written by the `X` format: 0-9 and upper-case A-F. */
  predicate IsUpperHexDigit(c: char) {
    '0' <= c <= '9' || 'A' <= c <= 'F'
  }

  predicate AllHexDigits(s: string) {
    forall i :: 0 <= i < |s| ==> IsHexDigit(s[i])
  }

  predicate AllUpperHexDigits(s: string) {
    forall i :: 0 <= i < |s| ==> IsUpperHexDigit(s[i])
  }

  /** The whitespace `int()` strips before and after the digits: the ASCII
      characters tab, line feed, vertical tab, form feed, carriage return and
      space, and the characters from U+007F up that `str.isspace` accepts.
      U+001C to U+001F are not stripped, although `str.isspace` accepts them. */
  predicate IsSpace(c: char) {
    var n := c as int;
    (0x09 <= n <= 0x0D) || n == 0x20 || n == 0x85 || n == 0xA0 ||
    n == 0x1680 || (0x2000 <= n <= 0x200A) || n == 0x2028 || n == 0x2029 ||
    n == 0x202F || n == 0x205F || n == 0x3000
  }

  function DigitValue(c: char): (v: nat)
    requires IsHexDigit(c)
    ensures v < 16
  {
    if '0' <= c <= '9' then c as int - '0' as int
    else if 'a' <= c <= 'f' then c as int - 'a' as int + 10
    else c as int - 'A' as int + 10
  }

  /** The upper-case digit for a value below 16. */
  function HexChar(d: nat): (c: char)
    requires d < 16
    ensures IsUpperHexDigit(c) && DigitValue(c) == d
  {
    if d < 10 then ('0' as int + d) as char else ('A' as int + d - 10) as char
  }

  /** An upper-case digit is the one HexChar gives for its value. */
  lemma UpperDigitCanonical(c: char)
    requires IsUpperHexDigit(c)
    ensures HexChar(DigitValue(c)) == c
  {
  }

  function Pow16(k: nat): (p: nat)
    ensures p >= 1
  {
    if k == 0 then 1 else 16 * Pow16(k - 1)
  }

  lemma {:induction false} Pow16Monotone(i: nat, j: nat)
    requires i <= j
    ensures Pow16(i) <= Pow16(j)
    decreases j
  {
    if i < j {
      Pow16Monotone(i, j - 1);
    }
  }

  lemma Pow16Eight()
    ensures Pow16(8) == 0x1_0000_0000
  {
  }

  /** The number a digit string denotes in base 16, most significant digit
      first; it is below 16 to the power of the number of digits. */
  function ValueOf(s: string): (v: nat)
    requires AllHexDigits(s)
    ensures v < Pow16(|s|)
    decreases |s|
  {
    if s == [] then 0
    else
      var init := s[..|s| - 1];
      var hi := ValueOf(init);
      assert hi * 16 <= (Pow16(|init|) - 1) * 16;
      hi * 16 + DigitValue(s[|s| - 1])
  }

  /** Leading zero digits do not change the value. */
  lemma {:induction false} ValueOfLeadingZeros(z: string, s: string)
    requires forall i :: 0 <= i < |z| ==> z[i] == '0'
    requires AllHexDigits(s)
    ensures AllHexDigits(z + s) && ValueOf(z + s) == ValueOf(s)
    decreases |s|
  {
    var t := z + s;
    if s == [] {
      assert t == z;
      AllZerosValue(z);
    } else {
      assert t[..|t| - 1] == z + s[..|s| - 1];
      ValueOfLeadingZeros(z, s[..|s| - 1]);
    }
  }

  lemma {:induction false} AllZerosValue(z: string)
    requires forall i :: 0 <= i < |z| ==> z[i] == '0'
    ensures AllHexDigits(z) && ValueOf(z) == 0
    decreases |z|
  {
    if z != [] {
      AllZerosValue(z[..|z| - 1]);
    }
  }

  /** Two upper-case digit strings of one length with one value are equal. */
  lemma {:induction false} ValueOfInjective(s: string, t: string)
    requires AllUpperHexDigits(s) && AllUpperHexDigits(t) && |s| == |t|
    requires ValueOf(s) == ValueOf(t)
    ensures s == t
    decreases |s|
  {
    if s != [] {
      var n := |s| - 1;
      var ds, dt := DigitValue(s[n]), DigitValue(t[n]);
      var hs, ht := ValueOf(s[..n]), ValueOf(t[..n]);
      assert ds == ValueOf(s) % 16 && hs == ValueOf(s) / 16;
      assert dt == ValueOf(t) % 16 && ht == ValueOf(t) / 16;
      ValueOfInjective(s[..n], t[..n]);
      UpperDigitCanonical(s[n]);
      UpperDigitCanonical(t[n]);
      assert s == s[..n] + [s[n]] && t == t[..n] + [t[n]];
    }
  }

  /** The arithmetic of appending the low digit of n to the digits of n / 16. */
  lemma ToHexStep(n: nat, len: nat)
    requires n >= 16 && len >= 1
    requires len > 1 ==> Pow16(len - 1) <= n / 16
    ensures (n / 16) * 16 + n % 16 == n
    ensures Pow16(len) <= n
  {
    assert Pow16(len - 1) <= n / 16;
  }

  /** The shortest upper-case rendering of n, as `format(n, 'X')` gives it:
      it denotes n and has no superfluous leading digit. */
  function ToHex(n: nat): (s: string)
    ensures 1 <= |s| && AllUpperHexDigits(s)
    ensures ValueOf(s) == n
    ensures |s| > 1 ==> Pow16(|s| - 1) <= n
    decreases n
  {
    if n < 16 then [HexChar(n)]
    else
      var h := ToHex(n / 16);
      var s := h + [HexChar(n % 16)];
      assert s[..|s| - 1] == h;
      ToHexStep(n, |h|);
      s
  }

  function Zeros(k: nat): (z: string)
    ensures |z| == k && forall i :: 0 <= i < k ==> z[i] == '0'
    ensures AllUpperHexDigits(z)
  {
    if k == 0 then [] else Zeros(k - 1) + "0"
  }

  lemma AllUpperConcat(a: string, b: string)
    requires AllUpperHexDigits(a) && AllUpperHexDigits(b)
    ensures AllUpperHexDigits(a + b)
  {
    forall i | 0 <= i < |a + b| ensures IsUpperHexDigit((a + b)[i]) {
      if i >= |a| { assert (a + b)[i] == b[i - |a|]; }
    }
  }

  /** Padding with zeros to 8 digits keeps the digits upper-case and the
      value unchanged. */
  lemma ZeroPadded(h: string, s: string)
    requires |h| < 8 && AllUpperHexDigits(h)
    requires s == Zeros(8 - |h|) + h
    ensures |s| == 8 && AllUpperHexDigits(s) && ValueOf(s) == ValueOf(h)
  {
    var z := Zeros(8 - |h|);
    AllUpperConcat(z, h);
    ValueOfLeadingZeros(z, h);
  }

  /** `format(n, '08X')`: upper-case digits denoting n, at least 8 of them,
      and more only when n needs them; so exactly 8 when n < 16^8. */
  function FormatHex08(n: nat): (s: string)
    ensures |s| >= 8 && AllUpperHexDigits(s)
    ensures ValueOf(s) == n
    ensures |s| > 8 ==> Pow16(|s| - 1) <= n
    ensures |s| == 8 <==> n < 0x1_0000_0000
  {
    var h := ToHex(n);
    Pow16Eight();
    if |h| < 8 then
      var s := Zeros(8 - |h|) + h;
      ZeroPadded(h, s);
      Pow16Monotone(|h|, 8);
      s
    else
      Pow16Monotone(8, if |h| > 8 then |h| - 1 else 8);
      h
  }

  /** The field FormatHex08 writes is the only 8-digit upper-case field with
      its value: formatting the value of such a field gives the field back. */
  lemma FormatOfValue(s: string)
    requires |s| == 8 && AllUpperHexDigits(s)
    ensures FormatHex08(ValueOf(s)) == s
  {
    var f := FormatHex08(ValueOf(s));
    Pow16Eight();
    ValueOfInjective(f, s);
  }

  /** Number of whitespace characters at the front of s. */
  function LeadingSpaces(s: string): (k: nat)
    ensures k <= |s|
    ensures forall i :: 0 <= i < k ==> IsSpace(s[i])
    ensures k < |s| ==> !IsSpace(s[k])
    decreases |s|
  {
    if s != [] && IsSpace(s[0]) then 1 + LeadingSpaces(s[1..]) else 0
  }

  /** Number of whitespace characters at the end of s. */
  function TrailingSpaces(s: string): (j: nat)
    ensures j <= |s|
    ensures forall i :: |s| - j <= i < |s| ==> IsSpace(s[i])
    ensures j < |s| ==> !IsSpace(s[|s| - 1 - j])
    decreases |s|
  {
    if s != [] && IsSpace(s[|s| - 1]) then 1 + TrailingSpaces(s[..|s| - 1]) else 0
  }

  /** s is whitespace, then the digits s[k..m] (at least one), then whitespace:
      the shape of text `int(text, 16)` accepts in this model. */
  predicate HexLiteral(s: string, k: int, m: int) {
    0 <= k < m <= |s| &&
    (forall i :: 0 <= i < k ==> IsSpace(s[i])) &&
    (forall i :: k <= i < m ==> IsHexDigit(s[i])) &&
    (forall i :: m <= i < |s| ==> IsSpace(s[i]))
  }

  /** Where the digits of s end once the surrounding whitespace is removed;
      they start at LeadingSpaces(s). */
  function DigitsEnd(s: string): (m: nat)
    ensures LeadingSpaces(s) <= m <= |s|
  {
    |s| - TrailingSpaces(s[LeadingSpaces(s)..])
  }

  /** `int(text, 16)`: None where Python raises ValueError. */
  function ParseHex(s: string): (r: Option<nat>)
    ensures |s| > 0 && AllHexDigits(s) ==> r == Some(ValueOf(s))
  {
    NoSpaceAround(s);
    var digits := s[LeadingSpaces(s)..DigitsEnd(s)];
    if digits != [] && AllHexDigits(digits) then
      Some(ValueOf(digits))
    else
      None
  }

  /** Text made only of digits has no whitespace to remove. */
  lemma NoSpaceAround(s: string)
    ensures |s| > 0 && AllHexDigits(s) ==> s[LeadingSpaces(s)..DigitsEnd(s)] == s
  {
    if |s| > 0 && AllHexDigits(s) {
      assert !IsSpace(s[0]) && !IsSpace(s[|s| - 1]);
      assert s[0..] == s && s[0..|s|] == s;
    }
  }

  /** The accepted shape, with the digit bounds ParseHex found. */
  lemma ParseHexSound(s: string)
    requires ParseHex(s).Some?
    ensures HexLiteral(s, LeadingSpaces(s), DigitsEnd(s))
    ensures ParseHex(s).value == ValueOf(s[LeadingSpaces(s)..DigitsEnd(s)])
  {
    var k, m := LeadingSpaces(s), DigitsEnd(s);
    assert s[k..m] != [] && AllHexDigits(s[k..m]);
    forall i | k <= i < m ensures IsHexDigit(s[i]) {
      assert s[i] == s[k..m][i - k];
    }
  }

  /** Every text of the accepted shape parses, to the value of its digits. */
  lemma ParseHexComplete(s: string, k: int, m: int)
    requires HexLiteral(s, k, m)
    ensures ParseHex(s) == Some(ValueOf(s[k..m]))
  {
    assert !IsSpace(s[k]);
    assert LeadingSpaces(s) == k;
    var rest := s[k..];
    assert !IsSpace(rest[m - 1 - k]);
    assert TrailingSpaces(rest) == |s| - m;
    assert DigitsEnd(s) == m;
  }

  /** The two halves together: ParseHex(s) == Some(v) exactly when s has the
      accepted shape and its digits denote v. */
  lemma ParseHexIff(s: string, v: nat)
    ensures ParseHex(s) == Some(v) <==> exists k, m :: HexLiteral(s, k, m) && v == ValueOf(s[k..m])
  {
    if ParseHex(s) == Some(v) {
      ParseHexSound(s);
    }
    if exists k, m :: HexLiteral(s, k, m) && v == ValueOf(s[k..m]) {
      var k, m :| HexLiteral(s, k, m) && v == ValueOf(s[k..m]);
      ParseHexComplete(s, k, m);
    }
  }

  /** Whitespace in front of an accepted text keeps it accepted. */
  lemma LiteralAfterSpace(pre: string, s: string, k: int, m: int)
    requires forall i :: 0 <= i < |pre| ==> IsSpace(pre[i])
    requires HexLiteral(s, k, m)
    ensures HexLiteral(pre + s, |pre| + k, |pre| + m)
    ensures (pre + s)[|pre| + k..|pre| + m] == s[k..m]
  {
    var t := pre + s;
    var p := |pre|;
    forall i | 0 <= i < p + k ensures IsSpace(t[i]) {
      if i >= p { assert t[i] == s[i - p]; }
    }
    forall i | p + k <= i < p + m ensures IsHexDigit(t[i]) {
      assert t[i] == s[i - p];
    }
    forall i | p + m <= i < |t| ensures IsSpace(t[i]) {
      assert t[i] == s[i - p];
    }
  }

  /** Whitespace after an accepted text keeps it accepted. */
  lemma LiteralBeforeSpace(s: string, post: string, k: int, m: int)
    requires forall i :: 0 <= i < |post| ==> IsSpace(post[i])
    requires HexLiteral(s, k, m)
    ensures HexLiteral(s + post, k, m)
    ensures (s + post)[k..m] == s[k..m]
  {
    var t := s + post;
    forall i | m <= i < |t| ensures IsSpace(t[i]) {
      if i >= |s| { assert t[i] == post[i - |s|]; }
    }
  }

  /** An accepted text framed by whitespace has its digits inside the frame. */
  lemma LiteralWithinSpace(pre: string, s: string, post: string, k: int, m: int)
    requires forall i :: 0 <= i < |pre| ==> IsSpace(pre[i])
    requires forall i :: 0 <= i < |post| ==> IsSpace(post[i])
    requires HexLiteral(pre + s + post, k, m)
    ensures |pre| <= k && m <= |pre| + |s|
    ensures HexLiteral(s, k - |pre|, m - |pre|)
    ensures s[k - |pre|..m - |pre|] == (pre + s + post)[k..m]
  {
    var t := pre + s + post;
    var p := |pre|;
    forall i | 0 <= i < p ensures !IsHexDigit(t[i]) {
      assert t[i] == pre[i];
    }
    forall i | p + |s| <= i < |t| ensures !IsHexDigit(t[i]) {
      assert t[i] == post[i - p - |s|];
    }
    assert IsHexDigit(t[k]) && IsHexDigit(t[m - 1]);
    forall i | 0 <= i < k - p ensures IsSpace(s[i]) {
      assert s[i] == t[i + p];
    }
    forall i | k - p <= i < m - p ensures IsHexDigit(s[i]) {
      assert s[i] == t[i + p];
    }
    forall i | m - p <= i < |s| ensures IsSpace(s[i]) {
      assert s[i] == t[i + p];
    }
  }

  /** Two texts of the accepted shape with the same digits parse alike. */
  lemma ParseHexSameDigits(s: string, k: int, m: int, t: string, k': int, m': int)
    requires HexLiteral(s, k, m) && HexLiteral(t, k', m')
    requires s[k..m] == t[k'..m']
    ensures ParseHex(s) == ParseHex(t)
  {
    ParseHexComplete(s, k, m);
    ParseHexComplete(t, k', m');
  }

  lemma ParseHexSpaceKeepsValue(pre: string, s: string, post: string)
    requires forall i :: 0 <= i < |pre| ==> IsSpace(pre[i])
    requires forall i :: 0 <= i < |post| ==> IsSpace(post[i])
    requires ParseHex(s).Some?
    ensures ParseHex(pre + s + post) == ParseHex(s)
  {
    ParseHexSound(s);
    var k, m := LeadingSpaces(s), DigitsEnd(s);
    var p := |pre|;
    LiteralAfterSpace(pre, s, k, m);
    LiteralBeforeSpace(pre + s, post, p + k, p + m);
    ParseHexSameDigits(s, k, m, pre + s + post, p + k, p + m);
  }

  lemma ParseHexSpaceUnframed(pre: string, s: string, post: string)
    requires forall i :: 0 <= i < |pre| ==> IsSpace(pre[i])
    requires forall i :: 0 <= i < |post| ==> IsSpace(post[i])
    requires ParseHex(pre + s + post).Some?
    ensures ParseHex(s) == ParseHex(pre + s + post)
  {
    var t := pre + s + post;
    ParseHexSound(t);
    var k, m := LeadingSpaces(t), DigitsEnd(t);
    LiteralWithinSpace(pre, s, post, k, m);
    ParseHexSameDigits(s, k - |pre|, m - |pre|, t, k, m);
  }

  /** Whitespace around the digits, such as the line terminator, is ignored. */
  lemma ParseHexIgnoresSpace(pre: string, s: string, post: string)
    requires forall i :: 0 <= i < |pre| ==> IsSpace(pre[i])
    requires forall i :: 0 <= i < |post| ==> IsSpace(post[i])
    ensures ParseHex(pre + s + post) == ParseHex(s)
  {
    if ParseHex(s).Some? {
      ParseHexSpaceKeepsValue(pre, s, post);
    } else if ParseHex(pre + s + post).Some? {
      ParseHexSpaceUnframed(pre, s, post);
    }
  }

  /** The terminator read with the line does not change the parse. */
  lemma ParseHexIgnoresNewline(s: string)
    ensures ParseHex(s + "\n") == ParseHex(s)
  {
    assert [] + s + "\n" == s + "\n";
    ParseHexIgnoresSpace([], s, "\n");
  }

  /** Text without a single hex digit, such as the "\n" left of "@\n", does
      not parse. */
  lemma ParseHexNeedsDigit(s: string)
    requires forall i :: 0 <= i < |s| ==> !IsHexDigit(s[i])
    ensures ParseHex(s) == None
  {
    forall k, m | 0 <= k < m <= |s| ensures !HexLiteral(s, k, m) {
      assert !IsHexDigit(s[k]);
    }
  }

  /** c and d are the same character or the same digit in either case. */
  predicate SameUpToCase(c: char, d: char) {
    c == d || (IsHexDigit(c) && IsHexDigit(d) && DigitValue(c) == DigitValue(d))
  }

  lemma {:induction false} ValueOfUpToCase(s: string, t: string)
    requires AllHexDigits(s) && |s| == |t|
    requires forall i :: 0 <= i < |s| ==> SameUpToCase(s[i], t[i])
    ensures AllHexDigits(t) && ValueOf(t) == ValueOf(s)
    decreases |s|
  {
    if s != [] {
      ValueOfUpToCase(s[..|s| - 1], t[..|t| - 1]);
    }
  }

  lemma ParseHexUpToCaseOneWay(s: string, t: string)
    requires |s| == |t|
    requires forall i :: 0 <= i < |s| ==> SameUpToCase(s[i], t[i])
    requires ParseHex(s).Some?
    ensures ParseHex(t) == ParseHex(s)
  {
    ParseHexSound(s);
    var k, m := LeadingSpaces(s), DigitsEnd(s);
    ValueOfUpToCase(s[k..m], t[k..m]);
    assert HexLiteral(t, k, m);
    ParseHexComplete(t, k, m);
  }

  /** Digits are accepted in either case: texts that differ only in the case
      of their digits parse alike. */
  lemma ParseHexCaseInsensitive(s: string, t: string)
    requires |s| == |t|
    requires forall i :: 0 <= i < |s| ==> SameUpToCase(s[i], t[i])
    ensures ParseHex(s) == ParseHex(t)
  {
    if ParseHex(s).Some? {
      ParseHexUpToCaseOneWay(s, t);
    } else if ParseHex(t).Some? {
      ParseHexUpToCaseOneWay(t, s);
    }
  }

  /** Round trip: the field `format(n, '08X')` writes parses back to n,
      with or without the line terminator after it. */
  lemma ParseFormatRoundTrip(n: nat)
    ensures ParseHex(FormatHex08(n)) == Some(n)
    ensures ParseHex(FormatHex08(n) + "\n") == Some(n)
  {
    var s := FormatHex08(n);
    ParseHexIgnoresNewline(s);
  }
}

/** Java string operations as the core uses them, over `seq<char>`.
    `trim` strips characters up to U+0020, `isBlank` uses Character.isWhitespace,
    and case mapping is restricted to ASCII letters. */
module Text {

  /** A character that Java's String.trim removes from either end. */
  predicate IsTrimmed(c: char) { c <= ' ' }

  function TrimLeft(s: string): (r: string)
    ensures |r| <= |s| && r == s[|s| - |r|..]
    ensures r == [] || !IsTrimmed(r[0])
    ensures forall k :: 0 <= k < |s| - |r| ==> IsTrimmed(s[k])
  {
    if s != [] && IsTrimmed(s[0]) then TrimLeft(s[1..]) else s
  }

  function TrimRight(s: string): (r: string)
    ensures |r| <= |s| && r == s[..|r|]
    ensures r == [] || !IsTrimmed(r[|r| - 1])
    ensures forall k :: |r| <= k < |s| ==> IsTrimmed(s[k])
  {
    if s != [] && IsTrimmed(s[|s| - 1]) then TrimRight(s[..|s| - 1]) else s
  }

  /** String.trim(). */
  function Trim(s: string): (r: string)
  {
    TrimRight(TrimLeft(s))
  }

  /** Trimming an empty string or one already trimmed changes nothing. */
  lemma TrimIdempotent(s: string)
    ensures Trim(Trim(s)) == Trim(s)
  {
    var r := Trim(s);
    if r != [] {
      assert !IsTrimmed(r[0]);
      assert TrimLeft(r) == r;
      assert !IsTrimmed(r[|r| - 1]);
    }
  }

  /** trim() yields the empty string exactly when every character is trimmable. */
  lemma TrimEmptyIff(s: string)
    ensures Trim(s) == [] <==> forall k :: 0 <= k < |s| ==> IsTrimmed(s[k])
  {
    var l := TrimLeft(s);
    if l != [] {
      assert l[0] == s[|s| - |l|];
    }
  }

  /** Hibernate Validator's @NotBlank: non-null and non-empty after trim(). */
  predicate NotBlank(s: string) { Trim(s) != [] }

  /** Character.isWhitespace (Java 17 and later). */
  predicate IsJavaWhitespace(c: char)
  {
    ('\U{0009}' <= c <= '\U{000D}') || ('\U{001C}' <= c <= ' ')
    || c == '\U{1680}' || ('\U{2000}' <= c <= '\U{2006}') || ('\U{2008}' <= c <= '\U{200A}')
    || c == '\U{2028}' || c == '\U{2029}' || c == '\U{205F}' || c == '\U{3000}'
  }

  /** String.isBlank(): empty or made only of Character.isWhitespace characters. */
  predicate IsBlank(s: string) { forall k :: 0 <= k < |s| ==> IsJavaWhitespace(s[k]) }

  predicate IsAsciiUpper(c: char) { 'A' <= c <= 'Z' }
  predicate IsAsciiLower(c: char) { 'a' <= c <= 'z' }
  predicate IsAsciiDigit(c: char) { '0' <= c <= '9' }

  function LowerChar(c: char): char
  {
    if IsAsciiUpper(c) then (c as int + 32) as char else c
  }

  function UpperChar(c: char): char
  {
    if IsAsciiLower(c) then (c as int - 32) as char else c
  }

  /** String.toLowerCase(), restricted to ASCII letters. */
  function ToLower(s: string): (r: string)
    ensures |r| == |s| && forall k :: 0 <= k < |s| ==> r[k] == LowerChar(s[k])
  {
    seq(|s|, k requires 0 <= k < |s| => LowerChar(s[k]))
  }

  /** String.toUpperCase(), restricted to ASCII letters. */
  function ToUpper(s: string): (r: string)
    ensures |r| == |s| && forall k :: 0 <= k < |s| ==> r[k] == UpperChar(s[k])
  {
    seq(|s|, k requires 0 <= k < |s| => UpperChar(s[k]))
  }

  /** String.equalsIgnoreCase(), restricted to ASCII letters. */
  predicate EqualsIgnoreCase(a: string, b: string) { ToLower(a) == ToLower(b) }

  lemma ToLowerIdempotent(s: string)
    ensures ToLower(ToLower(s)) == ToLower(s)
  {
    assert forall k :: 0 <= k < |s| ==> LowerChar(LowerChar(s[k])) == LowerChar(s[k]);
  }

  lemma ToUpperIdempotent(s: string)
    ensures ToUpper(ToUpper(s)) == ToUpper(s)
  {
    assert forall k :: 0 <= k < |s| ==> UpperChar(UpperChar(s[k])) == UpperChar(s[k]);
  }

  /** Case mapping never turns a trimmable character into a kept one or back. */
  lemma CaseKeepsTrimmed(c: char)
    ensures IsTrimmed(LowerChar(c)) <==> IsTrimmed(c)
    ensures IsTrimmed(UpperChar(c)) <==> IsTrimmed(c)
  {
  }

  lemma {:induction false} TrimLeftCommutesWithLower(s: string)
    ensures TrimLeft(ToLower(s)) == ToLower(TrimLeft(s))
    decreases |s|
  {
    if s != [] {
      CaseKeepsTrimmed(s[0]);
      if IsTrimmed(s[0]) {
        assert ToLower(s)[1..] == ToLower(s[1..]);
        TrimLeftCommutesWithLower(s[1..]);
      }
    }
  }

  lemma {:induction false} TrimLeftCommutesWithUpper(s: string)
    ensures TrimLeft(ToUpper(s)) == ToUpper(TrimLeft(s))
    decreases |s|
  {
    if s != [] {
      CaseKeepsTrimmed(s[0]);
      if IsTrimmed(s[0]) {
        assert ToUpper(s)[1..] == ToUpper(s[1..]);
        TrimLeftCommutesWithUpper(s[1..]);
      }
    }
  }

  lemma {:induction false} TrimRightCommutesWithLower(s: string)
    ensures TrimRight(ToLower(s)) == ToLower(TrimRight(s))
    decreases |s|
  {
    if s != [] {
      CaseKeepsTrimmed(s[|s| - 1]);
      if IsTrimmed(s[|s| - 1]) {
        assert ToLower(s)[..|s| - 1] == ToLower(s[..|s| - 1]);
        TrimRightCommutesWithLower(s[..|s| - 1]);
      }
    }
  }

  lemma {:induction false} TrimRightCommutesWithUpper(s: string)
    ensures TrimRight(ToUpper(s)) == ToUpper(TrimRight(s))
    decreases |s|
  {
    if s != [] {
      CaseKeepsTrimmed(s[|s| - 1]);
      if IsTrimmed(s[|s| - 1]) {
        assert ToUpper(s)[..|s| - 1] == ToUpper(s[..|s| - 1]);
        TrimRightCommutesWithUpper(s[..|s| - 1]);
      }
    }
  }

  lemma TrimCommutesWithCase(s: string)
    ensures Trim(ToLower(s)) == ToLower(Trim(s))
    ensures Trim(ToUpper(s)) == ToUpper(Trim(s))
  {
    TrimLeftCommutesWithLower(s);
    TrimLeftCommutesWithUpper(s);
    TrimRightCommutesWithLower(TrimLeft(s));
    TrimRightCommutesWithUpper(TrimLeft(s));
  }

  /** email.trim().toLowerCase(), shared by every e-mail normalisation in the core. */
  function NormalizeEmail(email: string): string
  {
    ToLower(Trim(email))
  }

  /** Normalising an already normalised e-mail is the identity. */
  lemma NormalizeEmailIdempotent(email: string)
    ensures NormalizeEmail(NormalizeEmail(email)) == NormalizeEmail(email)
  {
    var t := Trim(email);
    TrimCommutesWithCase(t);
    TrimIdempotent(email);
    ToLowerIdempotent(t);
  }

  /** Two e-mails that differ only in letter case and surrounding blanks normalise alike. */
  lemma NormalizeEmailIgnoresCase(a: string, b: string)
    requires EqualsIgnoreCase(Trim(a), Trim(b))
    ensures NormalizeEmail(a) == NormalizeEmail(b)
  {
  }

  /** `needle` occurs as a contiguous substring of `hay` (SQL LIKE '%needle%'). */
  predicate Contains(hay: string, needle: string)
    decreases |hay|
  {
    StartsWith(hay, needle) || (hay != [] && Contains(hay[1..], needle))
  }

  /** String.startsWith. */
  predicate StartsWith(s: string, prefix: string)
  {
    |prefix| <= |s| && s[..|prefix|] == prefix
  }

  /** String.length(): the number of UTF-16 code units. */
  function JavaLength(s: string): (n: nat)
    ensures |s| <= n <= 2 * |s|
  {
    if s == [] then 0 else (if s[0] as int > 0xFFFF then 2 else 1) + JavaLength(s[1..])
  }

  /** The number of bytes of the UTF-8 encoding (String.getBytes(UTF_8)). */
  function Utf8Length(s: string): (n: nat)
    ensures |s| <= n <= 4 * |s|
  {
    if s == [] then 0
    else (if s[0] as int < 0x80 then 1 else if s[0] as int < 0x800 then 2
          else if s[0] as int < 0x10000 then 3 else 4) + Utf8Length(s[1..])
  }

  predicate IsAscii(s: string) { forall k :: 0 <= k < |s| ==> s[k] as int < 0x80 }

  /** For ASCII text the UTF-8 byte count is the character count. */
  lemma {:induction false} Utf8LengthAscii(s: string)
    requires IsAscii(s)
    ensures Utf8Length(s) == |s|
    decreases |s|
  {
    if s != [] {
      Utf8LengthAscii(s[1..]);
    }
  }

  lemma {:induction false} JavaLengthBmp(s: string)
    requires forall k :: 0 <= k < |s| ==> s[k] as int <= 0xFFFF
    ensures JavaLength(s) == |s|
    decreases |s|
  {
    if s != [] {
      JavaLengthBmp(s[1..]);
    }
  }

  // ---- decimal digits (Long.toString / Long.parseLong) ----

  function DigitChar(d: nat): char
    requires d < 10
  {
    ('0' as int + d) as char
  }

  function DigitValue(c: char): nat
    requires IsAsciiDigit(c)
  {
    c as int - '0' as int
  }

  predicate AllDigits(s: string) { forall k :: 0 <= k < |s| ==> IsAsciiDigit(s[k]) }

  /** The value of a string of ASCII digits, most significant first. */
  function DigitsValue(s: string): nat
    requires AllDigits(s)
  {
    if s == [] then 0 else 10 * DigitsValue(s[..|s| - 1]) + DigitValue(s[|s| - 1])
  }

  /** The decimal rendering of a natural number, without leading zeros. */
  function NatToDigits(n: nat): (s: string)
    ensures s != [] && AllDigits(s)
    ensures |s| > 1 ==> s[0] != '0'
  {
    if n < 10 then [DigitChar(n)] else NatToDigits(n / 10) + [DigitChar(n % 10)]
  }

  /** Reading back a rendered number gives the number. */
  lemma {:induction false} DigitsValueOfNatToDigits(n: nat)
    ensures DigitsValue(NatToDigits(n)) == n
    decreases n
  {
    if n >= 10 {
      var s := NatToDigits(n);
      assert s[..|s| - 1] == NatToDigits(n / 10);
      DigitsValueOfNatToDigits(n / 10);
    }
  }

  /** Long.toString / String.valueOf(long). */
  function IntToString(n: int): (s: string)
    ensures s != []
  {
    if n < 0 then "-" + NatToDigits(-n) else NatToDigits(n)
  }

  /** Different numbers render differently. */
  lemma IntToStringInjective(a: int, b: int)
    requires IntToString(a) == IntToString(b)
    ensures a == b
  {
    if a < 0 && b < 0 {
      assert IntToString(a)[1..] == NatToDigits(-a);
      assert IntToString(b)[1..] == NatToDigits(-b);
      NatToDigitsInjective(-a, -b);
    } else if a >= 0 && b >= 0 {
      NatToDigitsInjective(a, b);
    }
  }

  lemma NatToDigitsInjective(x: nat, y: nat)
    requires NatToDigits(x) == NatToDigits(y)
    ensures x == y
  {
    DigitsValueOfNatToDigits(x);
    DigitsValueOfNatToDigits(y);
  }
}

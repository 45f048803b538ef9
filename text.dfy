/** Character classes and string helpers shared by the library: the
    ECMAScript white-space set (what `trim()` strips and `\s` matches),
    lower-casing, trimming, substring search and decimal rendering. */
module Text {

  /** ECMAScript WhiteSpace and LineTerminator code points: exactly what
      `String.prototype.trim` removes and what the regex class `\s` matches. */
  predicate IsSpace(c: char)
  {
    var k := c as int;
    (9 <= k <= 13) || k == 32 || k == 0xA0 || k == 0x1680 || (0x2000 <= k <= 0x200A) ||
    k == 0x2028 || k == 0x2029 || k == 0x202F || k == 0x205F || k == 0x3000 || k == 0xFEFF
  }

  /** The code points at which the regex `.` stops. */
  predicate IsLineTerminator(c: char)
  {
    var k := c as int;
    k == 10 || k == 13 || k == 0x2028 || k == 0x2029
  }

  predicate IsUpper(c: char)
  {
    ('A' <= c <= 'Z') || (0xC0 <= c as int <= 0xDE && c as int != 0xD7)
  }

  /** `toLowerCase` on one code point, for ASCII and Latin-1. */
  function LowerChar(c: char): (r: char)
    ensures IsUpper(c) ==> r as int == c as int + 32
    ensures !IsUpper(c) ==> r == c
    ensures !IsUpper(r)
  {
    if IsUpper(c) then (c as int + 32) as char else c
  }

  function ToLower(s: string): (r: string)
    ensures |r| == |s|
    ensures forall i :: 0 <= i < |s| ==> r[i] == LowerChar(s[i])
  {
    if s == [] then [] else [LowerChar(s[0])] + ToLower(s[1..])
  }

  predicate IsLowerCase(s: string)
  {
    forall i :: 0 <= i < |s| ==> !IsUpper(s[i])
  }

  lemma ToLowerIsLowerCase(s: string)
    ensures IsLowerCase(ToLower(s))
  {
  }

  /** Lower-casing neither creates nor destroys white space. */
  lemma LowerCharKeepsSpace(c: char)
    ensures IsSpace(LowerChar(c)) <==> IsSpace(c)
  {
  }

  lemma ToLowerIdempotent(s: string)
    ensures ToLower(ToLower(s)) == ToLower(s)
  {
  }

  /** Number of leading white-space characters. */
  function LeadingSpaces(s: string): (n: nat)
    ensures n <= |s|
    ensures forall i :: 0 <= i < n ==> IsSpace(s[i])
    ensures n < |s| ==> !IsSpace(s[n])
  {
    if s != [] && IsSpace(s[0]) then 1 + LeadingSpaces(s[1..]) else 0
  }

  /** Number of trailing white-space characters. */
  function TrailingSpaces(s: string): (n: nat)
    ensures n <= |s|
    ensures forall i :: |s| - n <= i < |s| ==> IsSpace(s[i])
    ensures n < |s| ==> !IsSpace(s[|s| - 1 - n])
  {
    if s != [] && IsSpace(s[|s| - 1]) then 1 + TrailingSpaces(s[..|s| - 1]) else 0
  }

  /** `String.prototype.trim`. */
  function Trim(s: string): (r: string)
  {
    var a := LeadingSpaces(s);
    var rest := s[a..];
    rest[..|rest| - TrailingSpaces(rest)]
  }

  predicate IsTrimmed(s: string)
  {
    s == [] || (!IsSpace(s[0]) && !IsSpace(s[|s| - 1]))
  }

  /** Trimming yields a contiguous piece of the input that has no white space
      at either end and is empty only for an all-white-space input. */
  lemma TrimSpec(s: string)
    ensures |Trim(s)| <= |s|
    ensures IsTrimmed(Trim(s))
    ensures LeadingSpaces(s) + |Trim(s)| <= |s| && Trim(s) == s[LeadingSpaces(s)..LeadingSpaces(s) + |Trim(s)|]
    ensures Trim(s) == [] <==> forall i :: 0 <= i < |s| ==> IsSpace(s[i])
  {
    var a := LeadingSpaces(s);
    var rest := s[a..];
    var b := TrailingSpaces(rest);
    assert Trim(s) == s[a..a + (|rest| - b)];
    if rest != [] {
      assert !IsSpace(rest[0]);
    }
  }

  /** A string that is already trimmed is left alone. */
  lemma TrimOfTrimmed(s: string)
    requires IsTrimmed(s)
    ensures Trim(s) == s
  {
  }

  /** The text with all white space removed. */
  function WithoutSpaces(s: string): (r: string)
    ensures |r| <= |s|
    ensures forall i :: 0 <= i < |r| ==> !IsSpace(r[i])
  {
    if s == [] then [] else if IsSpace(s[0]) then WithoutSpaces(s[1..]) else [s[0]] + WithoutSpaces(s[1..])
  }

  /** Leading white space does not count. */
  lemma {:induction false} WithoutLeadingSpaces(s: string)
    ensures WithoutSpaces(s[LeadingSpaces(s)..]) == WithoutSpaces(s)
  {
    if s != [] && IsSpace(s[0]) {
      WithoutLeadingSpaces(s[1..]);
      assert s[LeadingSpaces(s)..] == s[1..][LeadingSpaces(s[1..])..];
    }
  }

  /** Trimming keeps the characters of the input other than the white
      space at its ends. */
  lemma TrimKeepsText(input: string)
    ensures forall c :: c in Trim(input) ==> c in input
    ensures WithoutSpaces(Trim(input)) == WithoutSpaces(input)
  {
    TrimSpec(input);
    var a := LeadingSpaces(input);
    var t := Trim(input);
    assert t == input[a..a + |t|];
    WithoutLeadingSpaces(input);
    var rest := input[a..];
    DropSpaceSuffix(rest, TrailingSpaces(rest));
  }

  /** Dropping a suffix made of white space keeps the text. */
  lemma DropSpaceSuffix(s: string, n: nat)
    requires n <= |s|
    requires forall i :: |s| - n <= i < |s| ==> IsSpace(s[i])
    ensures WithoutSpaces(s[..|s| - n]) == WithoutSpaces(s)
  {
    var head, tail := s[..|s| - n], s[|s| - n..];
    assert head + tail == s;
    forall i | 0 <= i < |tail|
      ensures IsSpace(tail[i])
    {
      assert tail[i] == s[|s| - n + i];
    }
    WithoutSpacesOfSpaces(tail);
    WithoutSpacesConcat(head, tail);
  }

  lemma {:induction false} WithoutSpacesOfSpaces(s: string)
    requires forall i :: 0 <= i < |s| ==> IsSpace(s[i])
    ensures WithoutSpaces(s) == []
  {
    if s != [] {
      WithoutSpacesOfSpaces(s[1..]);
    }
  }

  lemma {:induction false} WithoutSpacesConcat(a: string, b: string)
    ensures WithoutSpaces(a + b) == WithoutSpaces(a) + WithoutSpaces(b)
  {
    if a != [] {
      WithoutSpacesConcat(a[1..], b);
      assert (a + b)[1..] == a[1..] + b;
    } else {
      assert a + b == b;
    }
  }

  /** `sub` occurs in `s` at position `k`. */
  predicate OccursAt(sub: string, s: string, k: nat)
  {
    k + |sub| <= |s| && s[k..k + |sub|] == sub
  }

  /** `s.includes(sub)`. */
  ghost predicate Contains(s: string, sub: string)
  {
    exists k: nat :: OccursAt(sub, s, k)
  }

  /** A computable substring search, equivalent to `Contains`. */
  function Includes(s: string, sub: string): (b: bool)
    ensures b <==> Contains(s, sub)
    decreases |s|
  {
    if |sub| > |s| then
      assert forall k: nat :: !OccursAt(sub, s, k);
      false
    else if s[..|sub|] == sub then
      assert OccursAt(sub, s, 0);
      true
    else
      var rest := Includes(s[1..], sub);
      if rest then
        var k: nat :| OccursAt(sub, s[1..], k);
        assert OccursAt(sub, s, k + 1) by { assert s[k + 1..k + 1 + |sub|] == s[1..][k..k + |sub|]; }
        true
      else
        forall k: nat | OccursAt(sub, s, k) ensures false {
          if k > 0 { assert OccursAt(sub, s[1..], k - 1) by { assert s[1..][k - 1..k - 1 + |sub|] == s[k..k + |sub|]; } }
        }
        false
  }

  /** Position of the first occurrence of `c` in `s`, -1 when absent. */
  function IndexOf(s: string, c: char): (i: int)
    ensures -1 <= i < |s|
    ensures 0 <= i ==> s[i] == c && forall k :: 0 <= k < i ==> s[k] != c
    ensures i == -1 ==> forall k :: 0 <= k < |s| ==> s[k] != c
  {
    if s == [] then -1
    else if s[0] == c then 0
    else
      var j := IndexOf(s[1..], c);
      if j < 0 then -1 else j + 1
  }

  /** `String.prototype.length`: UTF-16 code units, two for a code point
      above U+FFFF. */
  function JsLength(s: string): (n: nat)
    ensures |s| <= n <= 2 * |s|
  {
    if s == [] then 0 else (if s[0] as int > 0xFFFF then 2 else 1) + JsLength(s[1..])
  }

  lemma {:induction false} JsLengthConcat(a: string, b: string)
    ensures JsLength(a + b) == JsLength(a) + JsLength(b)
  {
    if a == [] {
      assert a + b == b;
    } else {
      JsLengthConcat(a[1..], b);
      assert (a + b)[1..] == a[1..] + b;
    }
  }

  /** Below U+10000 the length is the number of characters. */
  lemma {:induction false} JsLengthBmp(s: string)
    requires forall i :: 0 <= i < |s| ==> s[i] as int <= 0xFFFF
    ensures JsLength(s) == |s|
  {
    if s != [] {
      JsLengthBmp(s[1..]);
    }
  }

  // ---- decimal numerals (template-literal interpolation of an integer) ----

  predicate IsDigit(c: char) { '0' <= c <= '9' }

  predicate AllDigits(s: string) { forall i :: 0 <= i < |s| ==> IsDigit(s[i]) }

  function DigitChar(d: int): (c: char)
    requires 0 <= d < 10
    ensures IsDigit(c) && c as int - '0' as int == d
  {
    ('0' as int + d) as char
  }

  /** Decimal digits of a natural number, most significant first, no leading zeros. */
  function NatToString(n: nat): (s: string)
    ensures |s| >= 1 && AllDigits(s)
    ensures |s| > 1 ==> s[0] != '0'
    decreases n
  {
    if n < 10 then [DigitChar(n)] else NatToString(n / 10) + [DigitChar(n % 10)]
  }

  /** `${n}` for an integer. */
  function IntToString(n: int): (s: string)
    ensures |s| >= 1
  {
    if n < 0 then "-" + NatToString(-n) else NatToString(n)
  }

  /** Reads back a digit string. */
  function ParseNat(s: string): (n: nat)
    requires AllDigits(s)
    decreases |s|
  {
    if s == [] then 0 else 10 * ParseNat(s[..|s| - 1]) + (s[|s| - 1] as int - '0' as int)
  }

  lemma {:induction false} ParseNatToString(n: nat)
    ensures ParseNat(NatToString(n)) == n
    decreases n
  {
    if n >= 10 {
      var s := NatToString(n);
      assert s[..|s| - 1] == NatToString(n / 10);
      ParseNatToString(n / 10);
    }
  }

  /** Reads back the rendering of an integer. */
  function ParseInt(s: string): (n: int)
    requires IsIntString(s)
  {
    if s[0] == '-' then -(ParseNat(s[1..]) as int) else ParseNat(s)
  }

  predicate IsIntString(s: string)
  {
    s != [] && (s[0] == '-' ==> AllDigits(s[1..])) && (s[0] != '-' ==> AllDigits(s))
  }

  lemma ParseIntToString(n: int)
    ensures IsIntString(IntToString(n)) && ParseInt(IntToString(n)) == n
  {
    var s := IntToString(n);
    if n < 0 {
      assert s[1..] == NatToString(-n);
      ParseNatToString(-n);
    } else {
      ParseNatToString(n);
    }
  }
}

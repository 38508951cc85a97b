/**
 * The few pieces of java.lang.String and java.lang.Integer behaviour the
 * framework relies on: decimal rendering, Integer.parseInt, String.trim,
 * String.contains and ASCII lower-casing.
 */
module Text {
  import opened Wrappers

  predicate IsDigit(c: char) {
    '0' <= c <= '9'
  }

  predicate AllDigits(s: string) {
    forall i :: 0 <= i < |s| ==> IsDigit(s[i])
  }

  function DigitChar(d: nat): (c: char)
    requires d < 10
    ensures IsDigit(c)
  {
    (('0' as int) + d) as char
  }

  function DigitValue(c: char): nat
    requires IsDigit(c)
  {
    (c as int) - ('0' as int)
  }

  /** Decimal rendering of `n` without leading zeros, as `%d` and `String.valueOf` print it. */
  function NatToString(n: nat): (s: string)
    ensures |s| > 0 && AllDigits(s)
  {
    if n < 10 then [DigitChar(n)] else NatToString(n / 10) + [DigitChar(n % 10)]
  }

  /** Decimal rendering of a signed integer: a minus sign before the magnitude when negative. */
  function IntToString(i: int): string {
    if i < 0 then "-" + NatToString(-i) else NatToString(i)
  }

  /** The value of a run of decimal digits, most significant first. */
  function DigitsValue(s: string): nat
    requires AllDigits(s)
  {
    if s == [] then 0 else DigitsValue(s[..|s| - 1]) * 10 + DigitValue(s[|s| - 1])
  }

  lemma {:induction false} DigitsValueOfNatToString(n: nat)
    ensures DigitsValue(NatToString(n)) == n
  {
    if n >= 10 {
      var s := NatToString(n);
      assert s[..|s| - 1] == NatToString(n / 10);
      DigitsValueOfNatToString(n / 10);
    }
  }

  const MinInt32: int := -0x8000_0000
  const MaxInt32: int := 0x7fff_ffff

  /**
   * Integer.parseInt(s) in radix 10 over ASCII digits: an optional leading
   * '-' or '+', at least one digit, and a value within 32 bits. `None` stands
   * for NumberFormatException.
   */
  function ParseInt(s: string): (r: Option<int>)
    ensures r.Some? ==> MinInt32 <= r.value <= MaxInt32
  {
    var signed := |s| > 0 && (s[0] == '-' || s[0] == '+');
    var digits := if signed then s[1..] else s;
    if |digits| == 0 || !AllDigits(digits) then None
    else
      var v: int := if |s| > 0 && s[0] == '-' then -(DigitsValue(digits) as int) else DigitsValue(digits);
      if MinInt32 <= v <= MaxInt32 then Some(v) else None
  }

  /** Rendering a 32-bit integer and parsing it back gives the same integer. */
  lemma ParseIntOfIntToString(i: int)
    requires MinInt32 <= i <= MaxInt32
    ensures ParseInt(IntToString(i)) == Some(i)
  {
    var s := IntToString(i);
    if i < 0 {
      DigitsValueOfNatToString(-i);
      assert s[1..] == NatToString(-i);
    } else {
      DigitsValueOfNatToString(i);
      assert IsDigit(s[0]);
    }
  }

  /** String.trim(): drops every leading and trailing character at or below U+0020. */
  function Trim(s: string): string {
    TrimEnd(TrimStart(s))
  }

  function TrimStart(s: string): string {
    if |s| > 0 && s[0] <= ' ' then TrimStart(s[1..]) else s
  }

  function TrimEnd(s: string): string {
    if |s| > 0 && s[|s| - 1] <= ' ' then TrimEnd(s[..|s| - 1]) else s
  }

  /** Every character is at or below U+0020, the characters String.trim() removes. */
  predicate IsBlank(s: string) {
    forall i :: 0 <= i < |s| ==> s[i] <= ' '
  }

  lemma {:induction false} TrimStartEmpty(s: string)
    ensures TrimStart(s) == [] <==> IsBlank(s)
    ensures TrimStart(s) != [] ==> TrimStart(s)[0] > ' '
  {
    if |s| > 0 && s[0] <= ' ' {
      TrimStartEmpty(s[1..]);
      assert IsBlank(s) <==> IsBlank(s[1..]) by {
        if IsBlank(s[1..]) {
          forall i | 0 <= i < |s| ensures s[i] <= ' ' {
            if i > 0 { assert s[i] == s[1..][i - 1]; }
          }
        }
      }
    }
  }

  lemma {:induction false} TrimEndKeepsFirst(s: string)
    requires |s| > 0 && s[0] > ' '
    ensures |TrimEnd(s)| > 0
  {
    if s[|s| - 1] <= ' ' {
      TrimEndKeepsFirst(s[..|s| - 1]);
    }
  }

  /** `s.trim().length() == 0` exactly when every character of `s` is at or below U+0020. */
  lemma TrimEmptyIffBlank(s: string)
    ensures |Trim(s)| == 0 <==> IsBlank(s)
  {
    TrimStartEmpty(s);
    if TrimStart(s) != [] {
      TrimEndKeepsFirst(TrimStart(s));
    }
  }

  /** `word` occurs in `text` starting at index `i`. */
  predicate OccursAt(text: string, word: string, i: nat) {
    i + |word| <= |text| && text[i..i + |word|] == word
  }

  /** The position of the first `c` in `s`, or |s| when `c` does not occur (String.indexOf, with |s| for -1). */
  function IndexOf(s: string, c: char): (i: nat)
    ensures i <= |s| && (i < |s| ==> s[i] == c)
    ensures forall j :: 0 <= j < i ==> s[j] != c
  {
    if |s| == 0 || s[0] == c then 0 else 1 + IndexOf(s[1..], c)
  }

  /** String.contains(word): case-sensitive search for a contiguous occurrence. */
  function Contains(text: string, word: string): bool
    decreases |text|
  {
    if word <= text then true
    else if |text| == 0 then false
    else Contains(text[1..], word)
  }

  lemma {:induction false} ContainsIffOccurs(text: string, word: string)
    ensures Contains(text, word) <==> exists i: nat :: OccursAt(text, word, i)
    decreases |text|
  {
    if word <= text {
      assert OccursAt(text, word, 0);
    } else if |text| == 0 {
    } else {
      ContainsIffOccurs(text[1..], word);
      if Contains(text[1..], word) {
        var i: nat :| OccursAt(text[1..], word, i);
        assert text[i + 1..i + 1 + |word|] == text[1..][i..i + |word|];
        assert OccursAt(text, word, i + 1);
      }
      if exists i: nat :: OccursAt(text, word, i) {
        var i: nat :| OccursAt(text, word, i);
        if i != 0 {
          assert text[1..][i - 1..i - 1 + |word|] == text[i..i + |word|];
          assert OccursAt(text[1..], word, i - 1);
        }
      }
    }
  }

  function LowerChar(c: char): char {
    if 'A' <= c <= 'Z' then ((c as int) + 32) as char else c
  }

  /** String.toLowerCase() restricted to ASCII letters. */
  function ToLower(s: string): (r: string)
    ensures |r| == |s|
  {
    seq(|s|, i requires 0 <= i < |s| => LowerChar(s[i]))
  }
}

/** Decimal text of unsigned integers: the standard library's `Display` for integers
    and `str::parse::<u64>`. */
module Decimal {
  import opened Ints
  import opened Wrappers

  predicate IsDigit(c: char)
  {
    '0' <= c <= '9'
  }

  predicate AllDigits(s: string)
  {
    forall i :: 0 <= i < |s| ==> IsDigit(s[i])
  }

  function DigitChar(v: nat): (c: char)
    requires v < 10
    ensures IsDigit(c) && c as int - '0' as int == v
  {
    ('0' as int + v) as char
  }

  /** The number a string of decimal digits denotes (most significant first). */
  function Value(s: string): nat
    requires AllDigits(s)
  {
    if s == [] then 0 else Value(s[..|s| - 1]) * 10 + (s[|s| - 1] as int - '0' as int)
  }

  /** Canonical decimal text: non-empty, digits only, no leading zero unless it is "0". */
  predicate IsCanonical(s: string)
  {
    |s| >= 1 && AllDigits(s) && (s[0] == '0' ==> |s| == 1)
  }

  /** `Display` for an unsigned integer. */
  function ToDecimal(n: nat): (s: string)
    ensures IsCanonical(s) && Value(s) == n
    decreases n
  {
    if n < 10 then [DigitChar(n)]
    else
      var prefix := ToDecimal(n / 10);
      var s := prefix + [DigitChar(n % 10)];
      assert s[..|s| - 1] == prefix;
      s
  }

  /** Digit text that starts with a non-zero digit denotes a positive number. */
  lemma {:induction false} LeadingNonZeroPositive(s: string)
    requires |s| >= 1 && AllDigits(s) && s[0] != '0'
    ensures Value(s) >= 1
  {
    if |s| > 1 {
      var prefix := s[..|s| - 1];
      assert prefix[0] == s[0];
      LeadingNonZeroPositive(prefix);
    }
  }

  /** Canonical decimal text is exactly the `Display` of the number it denotes, so
      `ToDecimal` is a bijection between numbers and canonical strings. */
  lemma {:induction false} CanonicalIsToDecimal(s: string)
    requires IsCanonical(s)
    ensures ToDecimal(Value(s)) == s
  {
    var last := s[|s| - 1];
    var prefix := s[..|s| - 1];
    if |s| == 1 {
      assert prefix == [] && IsDigit(last);
      assert Value(s) == last as int - '0' as int;
      assert DigitChar(Value(s)) == last;
    } else {
      assert prefix[0] == s[0];
      LeadingNonZeroPositive(prefix);
      CanonicalIsToDecimal(prefix);
      var v := Value(s);
      assert v / 10 == Value(prefix) && v % 10 == last as int - '0' as int;
      assert DigitChar(v % 10) == last;
      assert s == prefix + [last];
    }
  }

  /** A string of zeros denotes zero. */
  lemma {:induction false} ZerosValue(zeros: string)
    requires forall i :: 0 <= i < |zeros| ==> zeros[i] == '0'
    ensures AllDigits(zeros) && Value(zeros) == 0
  {
    if zeros != [] {
      ZerosValue(zeros[..|zeros| - 1]);
    }
  }

  /** Leading zeros do not change the number a digit string denotes. */
  lemma {:induction false} ValueLeadingZeros(zeros: string, s: string)
    requires forall i :: 0 <= i < |zeros| ==> zeros[i] == '0'
    requires AllDigits(s)
    ensures AllDigits(zeros + s) && Value(zeros + s) == Value(s)
    decreases |s|
  {
    ZerosValue(zeros);
    if s != [] {
      var prefix := s[..|s| - 1];
      ValueLeadingZeros(zeros, prefix);
      assert (zeros + s)[..|zeros + s| - 1] == zeros + prefix;
    } else {
      assert zeros + s == zeros;
    }
  }

  /** `str::parse::<u64>`: an optional single leading '+', then one or more ASCII digits
      whose value fits in a u64. Leading zeros are accepted; '-' is not. */
  function ParseU64(s: string): (r: Option<u64>)
    ensures r.Some? ==> (s != [] && AllDigits(s)) || (|s| >= 2 && s[0] == '+' && AllDigits(s[1..]))
    ensures r.Some? ==> s != [] && s[0] != '-'
    ensures s != [] && AllDigits(s) ==> (r.Some? <==> Value(s) <= U64_MAX)
    ensures s != [] && AllDigits(s) && r.Some? ==> r.value == Value(s)
  {
    assert s != [] && AllDigits(s) ==> IsDigit(s[0]);
    var digits := if |s| > 0 && s[0] == '+' then s[1..] else s;
    if digits == [] || !AllDigits(digits) then None
    else if Value(digits) > U64_MAX then None
    else Some(Value(digits))
  }

  /** The decimal text of every u64 parses back to it. */
  lemma ParseToDecimal(n: nat)
    requires n <= U64_MAX
    ensures ParseU64(ToDecimal(n)) == Some(n)
  {
    var s := ToDecimal(n);
    assert IsDigit(s[0]);
  }

  /** `parse::<u64>` accepts leading zeros in front of the decimal text of a u64. */
  lemma ParseLeadingZeros(zeros: string, n: nat)
    requires n <= U64_MAX
    requires forall i :: 0 <= i < |zeros| ==> zeros[i] == '0'
    ensures ParseU64(zeros + ToDecimal(n)) == Some(n)
  {
    var text := ToDecimal(n);
    var full := zeros + text;
    ValueLeadingZeros(zeros, text);
    assert full[0] != '+' by {
      if zeros == [] { assert full[0] == text[0] && IsDigit(text[0]); } else { assert full[0] == zeros[0]; }
    }
  }

  /** A leading '+' does not change what a digit string parses to. */
  lemma ParseU64Plus(s: string)
    requires s != [] && AllDigits(s)
    ensures ParseU64(['+'] + s) == ParseU64(s)
  {
    assert (['+'] + s)[1..] == s;
    assert IsDigit(s[0]);
  }

  /** A leading '-' is never accepted for an unsigned parse. */
  lemma ParseU64RejectsMinus(s: string)
    ensures ParseU64(['-'] + s) == None
  {
    assert !IsDigit((['-'] + s)[0]);
  }
}

/**
 * The console's string and number helpers (`cli_strings_match`, `cli_strlen`,
 * `cli_is_number`, `cli_string_to_number`, `cli_pow`). Each C loop that reads a
 * NUL-terminated string is a method whose loop walks the string with `At`, so
 * the terminator is read exactly where C reads it; results are 32-bit unsigned
 * values and wrap modulo 2^32 as C's `uint32_t` does.
 */
module CliText {
  import opened Machine

  /** `cli_strings_match`: true exactly when both strings have the same length and the same characters. */
  method StringsMatch(a: string, b: string) returns (r: bool)
    requires IsCString(a) && IsCString(b)
    ensures r <==> a == b
  {
    var i: nat := 0;
    while At(a, i) != '\0'
      invariant i <= |a| && i <= |b|
      invariant a[..i] == b[..i]
      decreases |a| - i
    {
      if At(a, i) != At(b, i) {
        return false;
      }
      i := i + 1;
    }
    if At(b, i) != '\0' {
      return false;
    }
    assert a == a[..i] && b == b[..i];
    return true;
  }

  /** `cli_strlen`: the number of characters in front of the terminator. */
  method Strlen(s: string) returns (n: nat)
    requires IsCString(s)
    ensures n == |s|
  {
    n := 0;
    while At(s, n) != '\0'
      invariant n <= |s|
      decreases |s| - n
    {
      n := n + 1;
    }
  }

  predicate IsDigit(c: char)
  {
    '0' <= c <= '9'
  }

  predicate AllDigits(s: string)
  {
    forall i :: 0 <= i < |s| ==> IsDigit(s[i])
  }

  /** `cli_is_number`: true exactly when every character is a decimal digit (so also for ""). */
  method IsNumber(s: string) returns (r: bool)
    requires IsCString(s)
    ensures r <==> AllDigits(s)
  {
    var i: nat := 0;
    while At(s, i) != '\0'
      invariant i <= |s|
      invariant AllDigits(s[..i])
      decreases |s| - i
    {
      if s[i] < '0' || s[i] > '9' {
        return false;
      }
      i := i + 1;
    }
    assert s == s[..i];
    return true;
  }

  /**
   * The number `cli_string_to_number` accumulates before wrap-around: every
   * character contributes its code minus 48, digit or not.
   */
  function DecimalValue(s: string): int
  {
    if s == [] then 0 else DecimalValue(s[..|s| - 1]) * 10 + (s[|s| - 1] as int - 48)
  }

  /** A string of decimal digits denotes a value below 10^|s|. */
  lemma {:induction false} DecimalValueBound(s: string)
    requires AllDigits(s)
    ensures 0 <= DecimalValue(s) < Power(10, |s|)
  {
    if s != [] {
      var init := s[..|s| - 1];
      assert AllDigits(init) by {
        forall i | 0 <= i < |init| ensures IsDigit(init[i]) {
          assert init[i] == s[i];
        }
      }
      DecimalValueBound(init);
      assert IsDigit(s[|s| - 1]);
    }
  }

  /**
   * `cli_string_to_number`: the decimal value modulo 2^32. The C loop counter is
   * a `uint8_t`, so a string of 256 or more characters would never terminate;
   * the requires clause rules that out.
   */
  method StringToNumber(s: string) returns (r: uint32)
    requires IsCString(s) && |s| < 256
    ensures r == DecimalValue(s) % U32
  {
    r := 0;
    var i: nat := 0;
    while At(s, i) != '\0'
      invariant i <= |s|
      invariant r == DecimalValue(s[..i]) % U32
      decreases |s| - i
    {
      assert s[..i + 1][..i] == s[..i];
      MulMod(DecimalValue(s[..i]), 10);
      AddMod(DecimalValue(s[..i]) * 10, s[i] as int - 48);
      AddMod((DecimalValue(s[..i]) % U32) * 10, s[i] as int - 48);
      r := (r * 10 + (s[i] as int - 48)) % U32;
      i := i + 1;
    }
    assert s == s[..i];
  }

  /** A number of at most nine digits is parsed without wrap-around. */
  lemma ShortNumberExact(s: string)
    requires AllDigits(s) && |s| <= 9
    ensures DecimalValue(s) % U32 == DecimalValue(s)
  {
    DecimalValueBound(s);
    PowerMonotone(10, |s|, 9);
    assert Power(10, 9) == 1_000_000_000;
  }

  lemma {:induction false} PowerMonotone(a: int, m: nat, n: nat)
    requires a >= 1 && m <= n
    ensures Power(a, m) <= Power(a, n)
    decreases n
  {
    if m < n {
      PowerMonotone(a, m, n - 1);
      assert Power(a, n) == Power(a, n - 1) * a;
      assert Power(a, n - 1) * a >= Power(a, n - 1) * 1;
    }
  }

  /** `cli_pow`: a^b modulo 2^32, computed by the same recursion on b. */
  function Pow(a: uint32, b: uint32): (r: uint32)
    ensures r == Power(a, b) % U32
    decreases b
  {
    if b == 0 then 1
    else
      MulMod(Power(a, b - 1), a);
      (Pow(a, b - 1) * a) % U32
  }
}

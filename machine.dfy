/**
 * Machine-level vocabulary shared by every component of the firmware model:
 * C integer widths, an optional value (a nullable pointer), NUL-terminated
 * strings, and the modular-arithmetic facts that 32-bit wrap-around needs.
 */
module Machine {

  datatype Option<+T> = None | Some(value: T)

  const U8: int := 0x100
  const U16: int := 0x1_0000
  const U32: int := 0x1_0000_0000

  type uint8 = x: int | 0 <= x < 0x100
  type uint16 = x: int | 0 <= x < 0x1_0000
  type uint32 = x: int | 0 <= x < 0x1_0000_0000

  /** A C string is modelled by the characters in front of its terminating NUL. */
  predicate IsCString(s: seq<char>)
  {
    forall i :: 0 <= i < |s| ==> s[i] != '\0'
  }

  /** Reading `s[i]` of a NUL-terminated string: the terminator sits at index |s|. */
  function At(s: seq<char>, i: nat): (c: char)
    requires i <= |s|
    ensures c == '\0' <==> (i == |s| || s[i] == '\0')
  {
    if i < |s| then s[i] else '\0'
  }

  /** Mathematical power, the reference for the firmware's wrapping `cli_pow`. */
  function Power(a: int, b: nat): (r: int)
    ensures a > 0 ==> r > 0
  {
    if b == 0 then 1 else Power(a, b - 1) * a
  }

  /** A positive multiple of a positive number is at least that number. */
  lemma {:induction false} MulAtLeast(m: int, d: int)
    requires 0 < m && 1 <= d
    ensures m * d >= m
    decreases d
  {
    if d > 1 {
      MulAtLeast(m, d - 1);
      assert m * d == m * (d - 1) + m;
    }
  }

  /** Euclidean division is unique: the quotient and remainder are determined. */
  lemma DivModUnique(a: int, m: int, q: int, r: int)
    requires 0 < m && 0 <= r < m && a == m * q + r
    ensures a / m == q && a % m == r
  {
    var q', r' := a / m, a % m;
    assert m * (q - q') == r' - r;
    assert m * (q' - q) == r - r';
    if q > q' {
      MulAtLeast(m, q - q');
    } else if q < q' {
      MulAtLeast(m, q' - q);
    }
  }

  /** Adding a multiple of 2^32 does not change a value modulo 2^32. */
  lemma ModShift(k: int, y: int)
    ensures (U32 * k + y) % U32 == y % U32
  {
    DivModUnique(U32 * k + y, U32, k + y / U32, y % U32);
  }

  /** Reducing a factor modulo 2^32 before a multiplication does not change the product modulo 2^32. */
  lemma MulMod(x: int, a: int)
    ensures ((x % U32) * a) % U32 == (x * a) % U32
  {
    var q, r := x / U32, x % U32;
    assert x * a == U32 * (q * a) + r * a;
    ModShift(q * a, r * a);
  }

  /** Reducing a summand modulo 2^32 does not change a sum modulo 2^32. */
  lemma AddMod(x: int, y: int)
    ensures (x % U32 + y) % U32 == (x + y) % U32
  {
    var q, r := x / U32, x % U32;
    assert x + y == U32 * q + (r + y);
    ModShift(q, r + y);
  }

  /** Both factors of a scaled addend may be reduced modulo 2^32 without changing the sum modulo 2^32. */
  lemma AddMulMod(a: int, d: int, p: int)
    ensures (a % U32 + d * (p % U32)) % U32 == (a + d * p) % U32
  {
    var qa, ra := a / U32, a % U32;
    var qp, rp := p / U32, p % U32;
    assert a + d * p == U32 * (qa + d * qp) + (ra + d * rp);
    ModShift(qa + d * qp, ra + d * rp);
  }

  /** Multiplication by a non-negative factor is monotone. */
  lemma MulLe(a: int, b: int, c: int)
    requires 0 <= c && a <= b
    ensures c * a <= c * b
  {
    if c > 0 && a < b {
      MulAtLeast(c, b - a);
      assert c * (b - a) == c * b - c * a;
    }
  }
}

/**
 * The console's number formatting and memory-dump argument handling
 * (`cli_dec_to_hexstring`, `cli_hexstring_to_dec`, `reverse_string`,
 * `cli_dec_to_binarystring`, and the prefix check and conversion of
 * `cli_memdump_hex` / `cli_memdump_bin`). The loops that fill caller arrays
 * stay imperative; `Digits` and `Value` are the reference definitions they
 * are proved against.
 */
module CliFormat {
  import opened Machine
  import CliText

  /** The character the firmware writes for a digit: '0'-'9', then upper-case 'A'-'F'. */
  function DigitChar(d: nat): (c: char)
    requires d < 16
    ensures IsHexChar(c) && HexCharValue(c) == d
    ensures d <= 9 ==> '0' <= c <= '9'
    ensures d > 9 ==> 'A' <= c <= 'F'
  {
    if d > 9 then (d + 55) as char else (d + 48) as char
  }

  /** The `n` low-order digits of `v` in `base`, most significant first. */
  function Digits(v: nat, n: nat, base: nat): (s: string)
    requires 2 <= base <= 16
    ensures |s| == n
  {
    if n == 0 then [] else Digits(v / base, n - 1, base) + [DigitChar(v % base)]
  }

  predicate IsHexChar(c: char)
  {
    '0' <= c <= '9' || 'a' <= c <= 'f' || 'A' <= c <= 'F'
  }

  predicate AllHex(s: string)
  {
    forall i :: 0 <= i < |s| ==> IsHexChar(s[i])
  }

  function HexCharValue(c: char): nat
    requires IsHexChar(c)
  {
    if '0' <= c <= '9' then c as int - 48
    else if 'a' <= c <= 'f' then c as int - 87
    else c as int - 55
  }

  /** The number a digit string denotes in `base`, most significant digit first. */
  function Value(s: string, base: nat): nat
    requires AllHex(s)
  {
    if s == [] then 0 else Value(s[..|s| - 1], base) * base + HexCharValue(s[|s| - 1])
  }

  /** Splitting off the last digit in base `base` commutes with reduction modulo p * base. */
  lemma LastDigitStep(v: nat, base: nat, p: nat)
    requires 2 <= base && 1 <= p
    ensures ((v / base) % p) * base + v % base == v % (p * base)
  {
    var q, r := v / base, v % base;
    var k, t := q / p, q % p;
    assert v == base * q + r;
    assert q == p * k + t;
    assert v == (p * base) * k + (base * t + r);
    MulLe(t, p - 1, base);
    DivModUnique(v, p * base, k, base * t + r);
  }

  lemma QuotientNat(v: nat, base: nat)
    requires base > 0
    ensures v / base >= 0
  {
  }

  /** `Digits` writes only valid digits of `base`. */
  lemma {:induction false} DigitsValid(v: nat, n: nat, base: nat)
    requires 2 <= base <= 16
    ensures AllHex(Digits(v, n, base))
    ensures forall i :: 0 <= i < n ==> HexCharValue(Digits(v, n, base)[i]) < base
    decreases n
  {
    if n > 0 {
      QuotientNat(v, base);
      DigitsValid(v / base, n - 1, base);
      var s := Digits(v, n, base);
      assert s == Digits(v / base, n - 1, base) + [DigitChar(v % base)];
      forall i | 0 <= i < n
        ensures IsHexChar(s[i]) && HexCharValue(s[i]) < base
      {
        if i < n - 1 {
          assert s[i] == Digits(v / base, n - 1, base)[i];
        }
      }
    }
  }

  /** `Digits` spells the residue of `v` modulo base^n. */
  lemma {:induction false} DigitsValue(v: nat, n: nat, base: nat)
    requires 2 <= base <= 16
    ensures AllHex(Digits(v, n, base))
    ensures Value(Digits(v, n, base), base) == v % Power(base, n)
    decreases n
  {
    DigitsValid(v, n, base);
    if n > 0 {
      QuotientNat(v, base);
      var init, p := Digits(v / base, n - 1, base), Power(base, n - 1);
      DigitsValue(v / base, n - 1, base);
      assert Digits(v, n, base) == init + [DigitChar(v % base)];
      LowDigit(v, base, p, init);
    }
  }

  /** Appending the last digit of `v` to the digits of `v / base` modulo p gives `v` modulo p * base. */
  lemma LowDigit(v: nat, base: nat, p: nat, init: string)
    requires 2 <= base <= 16 && 1 <= p
    requires AllHex(init) && Value(init, base) == (v / base) % p
    ensures AllHex(init + [DigitChar(v % base)])
    ensures Value(init + [DigitChar(v % base)], base) == v % (p * base)
  {
    ValueSnoc(init, DigitChar(v % base), base);
    LastDigitStep(v, base, p);
  }

  /** Appending a digit scales the value by the base and adds the digit. */
  lemma ValueSnoc(t: string, c: char, base: nat)
    requires AllHex(t) && IsHexChar(c)
    ensures AllHex(t + [c])
    ensures Value(t + [c], base) == Value(t, base) * base + HexCharValue(c)
  {
    assert (t + [c])[..|t|] == t;
  }

  /** The hexadecimal value `cli_hexstring_to_dec` gives a string of hex digits. */
  function HexValue(s: string): nat
    requires AllHex(s)
  {
    Value(s, 16)
  }

  /**
   * `cli_dec_to_hexstring`: writes exactly eight upper-case hex digits of `dec`,
   * most significant first, then a NUL. The loop runs while digits remain or
   * positions remain; for a 32-bit value the two end together, so nothing is
   * written in front of the array.
   */
  method DecToHexString(dec: uint32, arr: array<char>) returns (ok: bool)
    requires arr.Length >= 9
    modifies arr
    ensures ok
    ensures arr[..9] == Digits(dec, 8, 16) + ['\0']
    ensures arr[9..] == old(arr[9..])
  {
    var index: int := 7;
    arr[index + 1] := '\0';
    var cur: nat := dec;
    assert Power(16, 8) == U32;
    while cur > 0 || index >= 0
      invariant -1 <= index <= 7
      invariant cur < Power(16, index + 1)
      invariant arr[8] == '\0'
      invariant Digits(cur, index + 1, 16) + arr[index + 1..8] == Digits(dec, 8, 16)
      invariant arr[9..] == old(arr[9..])
      decreases index + 1
    {
      var remainder := cur % 16;
      QuotientNat(cur, 16);
      cur := cur / 16;
      if remainder > 9 {
        arr[index] := (remainder + 55) as char;
      } else {
        arr[index] := (remainder + 48) as char;
      }
      index := index - 1;
    }
    assert arr[..9] == arr[0..8] + [arr[8]];
    ok := true;
  }

  /** One iteration of the `cli_hexstring_to_dec` loop: the new digit, weighted by 16^k, joins the sum modulo 2^32. */
  lemma HexAccumulateStep(s: string, k: nat)
    requires AllHex(s) && s != []
    ensures (((HexValue(s[..|s| - 1]) * Power(16, k + 1)) % U32 + HexCharValue(s[|s| - 1]) * (Power(16, k) % U32)) % U32)
            == (HexValue(s) * Power(16, k)) % U32
  {
    var a, d, p := HexValue(s[..|s| - 1]), HexCharValue(s[|s| - 1]), Power(16, k);
    assert HexValue(s) == a * 16 + d;
    assert Power(16, k + 1) == p * 16;
    Regroup(a, d, p);
    AddMulMod(a * (p * 16), d, p);
  }

  lemma Regroup(a: int, d: int, p: int)
    ensures (a * 16 + d) * p == a * (p * 16) + d * p
  {
  }

  /**
   * `cli_hexstring_to_dec`: the value of a string of hex digits (either case)
   * modulo 2^32, so digits beyond the last eight drop out; any other character
   * makes it report an error and return 0. Its loop counter is a `uint8_t`,
   * hence the bound on the length.
   */
  method HexStringToDec(s: string) returns (r: uint32, failed: bool)
    requires IsCString(s) && |s| < 256
    ensures failed <==> !AllHex(s)
    ensures r == if failed then 0 else HexValue(s) % U32
  {
    var i: nat := 0;
    r := 0;
    var n := CliText.Strlen(s);
    // `hexlen` is a uint32 in C; it wraps below zero only when the string is
    // empty or after the last character, when it is no longer used.
    var hexlen: int := n - 1;
    while At(s, i) != '\0'
      invariant i <= n == |s|
      invariant hexlen == n - 1 - i
      invariant AllHex(s[..i])
      invariant r == (HexValue(s[..i]) * Power(16, n - i)) % U32
      decreases n - i
    {
      var d: int;
      if s[i] >= '0' && s[i] <= '9' {
        d := s[i] as int - 48;
      } else if s[i] >= 'a' && s[i] <= 'f' {
        d := s[i] as int - 87;
      } else if s[i] >= 'A' && s[i] <= 'F' {
        d := s[i] as int - 55;
      } else {
        return 0, true;
      }
      assert s[..i + 1][..i] == s[..i];
      HexAccumulateStep(s[..i + 1], n - i - 1);
      r := (r + d * CliText.Pow(16, hexlen)) % U32;
      i := i + 1;
      hexlen := hexlen - 1;
    }
    assert s == s[..i];
    return r, false;
  }

  /** `cli_hexstring_to_dec` inverts `cli_dec_to_hexstring` for every 32-bit value. */
  lemma HexRoundTrip(v: uint32)
    ensures AllHex(Digits(v, 8, 16))
    ensures HexValue(Digits(v, 8, 16)) % U32 == v
  {
    var s := Digits(v, 8, 16);
    DigitsValue(v, 8, 16);
    EightHexDigits();
    assert v % U32 == v;
    assert HexValue(s) == v;
  }

  /** Eight hexadecimal digits span exactly the 32-bit range. */
  lemma EightHexDigits()
    ensures Power(16, 8) == U32
  {
  }

  function Reversed(s: string): (r: string)
    ensures |r| == |s|
  {
    seq(|s|, i requires 0 <= i < |s| => s[|s| - 1 - i])
  }

  /**
   * `reverse_string`: reverses the first `length` characters in place. Its
   * indices are `uint8_t` and `right` starts at `length - 1`, so a length of 0
   * would wrap to 255 and swap outside the string: the requires clause
   * excludes it.
   */
  method ReverseString(str: array<char>, length: uint8)
    requires 1 <= length <= str.Length
    modifies str
    ensures str[..length] == Reversed(old(str[..length]))
    ensures str[length..] == old(str[length..])
  {
    var left: int := 0;
    var right: int := length - 1;
    while left < right
      invariant 0 <= left && right < length && left + right == length - 1
      invariant left <= right + 1
      invariant forall k :: 0 <= k < left ==> str[k] == old(str[length - 1 - k]) && str[length - 1 - k] == old(str[k])
      invariant forall k :: left <= k <= right ==> str[k] == old(str[k])
      invariant str[length..] == old(str[length..])
    {
      var temp := str[left];
      str[left] := str[right];
      str[right] := temp;
      left := left + 1;
      right := right - 1;
    }
  }

  /** The binary digits `cli_dec_to_binarystring` produces, least significant first. */
  function LsbBinary(v: nat, n: nat): (s: string)
    ensures |s| == n
  {
    if n == 0 then [] else [DigitChar(v % 2)] + LsbBinary(v / 2, n - 1)
  }

  /** One more binary digit moves from the value to the written prefix. */
  lemma LsbSnoc(prefix: string, c: nat, k: nat)
    requires k > 0
    ensures prefix + [DigitChar(c % 2)] + LsbBinary(c / 2, k - 1) == prefix + LsbBinary(c, k)
  {
  }

  lemma {:induction false} ReversedLsbBinary(v: nat, n: nat)
    ensures Reversed(LsbBinary(v, n)) == Digits(v, n, 2)
  {
    if n > 0 {
      ReversedLsbBinary(v / 2, n - 1);
      var tail := LsbBinary(v / 2, n - 1);
      assert LsbBinary(v, n) == [DigitChar(v % 2)] + tail;
      assert Reversed([DigitChar(v % 2)] + tail) == Reversed(tail) + [DigitChar(v % 2)];
    }
  }

  /**
   * `cli_dec_to_binarystring`: writes the `length` low-order binary digits of
   * `dec`, most significant first, then a NUL.
   */
  method DecToBinaryString(dec: uint32, arr: array<char>, length: uint8) returns (ok: bool)
    requires 1 <= length && length + 1 <= arr.Length
    modifies arr
    ensures ok
    ensures arr[..length] == Digits(dec, length, 2) && arr[length] == '\0'
    ensures arr[length + 1..] == old(arr[length + 1..])
  {
    var index := WriteLsbFirst(dec, arr, length);
    arr[index] := '\0';
    assert arr[..length] == LsbBinary(dec, length);
    ReverseString(arr, index);
    ReversedLsbBinary(dec, length);
    ok := true;
  }

  /** The digit loop of `cli_dec_to_binarystring`: `length` binary digits of `dec`, least significant first. */
  method WriteLsbFirst(dec: uint32, arr: array<char>, length: uint8) returns (index: uint8)
    requires length + 1 <= arr.Length
    modifies arr
    ensures index == length
    ensures arr[..length] == LsbBinary(dec, length)
    ensures arr[length + 1..] == old(arr[length + 1..])
  {
    index := 0;
    var cur: nat := dec;
    for i := 0 to length
      invariant index == i
      invariant arr[..i] + LsbBinary(cur, length - i) == LsbBinary(dec, length)
      invariant arr[length + 1..] == old(arr[length + 1..])
    {
      ghost var before, c := arr[..i], cur;
      if cur > 0 {
        QuotientNat(cur, 2);
        arr[index] := ((cur % 2) + 48) as char;
        index := index + 1;
        cur := cur / 2;
      } else {
        arr[index] := 48 as char;
        index := index + 1;
      }
      assert arr[..i + 1] == before + [DigitChar(c % 2)];
      LsbSnoc(before, c, length - i);
    }
  }

  /** `cli_memdump_hex` / `cli_memdump_bin` accept an argument only when it starts with "0x". */
  predicate HasAddressPrefix(args: string)
  {
    |args| >= 2 && args[0] == '0' && args[1] == 'x'
  }

  /** What a memory-dump command shows: a format hint, or the word read at the parsed address. */
  datatype Dump =
    | BadFormat
    | HexDump(address: uint32, parseError: bool, hex: string)
    | BinDump(address: uint32, parseError: bool, bits: string)

  /** The address a dump argument selects: its hex digits after "0x" modulo 2^32, or 0 when they do not parse. */
  function DumpAddress(args: string): (a: uint32)
    requires HasAddressPrefix(args)
    ensures !AllHex(args[2..]) ==> a == 0
    ensures AllHex(args[2..]) ==> a == HexValue(args[2..]) % U32
  {
    if AllHex(args[2..]) then HexValue(args[2..]) % U32 else 0
  }

  /**
   * `cli_memdump_hex`: rejects an argument without the "0x" prefix before any
   * memory read (the number of digits is not checked); otherwise reads the word
   * at the parsed address (`mem` stands for the memory bus) and shows its eight
   * upper-case hex digits after "0x".
   */
  method MemdumpHex(args: string, mem: uint32 -> uint32) returns (d: Dump)
    requires IsCString(args) && |args| < 258
    ensures d.BadFormat? <==> !HasAddressPrefix(args)
    ensures d.HexDump? ==>
              d.parseError == !AllHex(args[2..]) && d.address == DumpAddress(args) &&
              d.hex == "0x" + Digits(mem(d.address), 8, 16)
    ensures !d.BinDump?
  {
    if At(args, 0) != '0' || At(args, 1) != 'x' {
      return BadFormat;
    }
    var dec, failed := HexStringToDec(args[2..]);
    var hex := new char[9];
    var ok := DecToHexString(mem(dec), hex);
    d := HexDump(dec, failed, "0x" + hex[..8]);
  }

  /**
   * `cli_memdump_bin`: the same prefix check and address parsing; shows the 32
   * binary digits of the word, most significant first (the framed two-row
   * table built from them is display only).
   */
  method MemdumpBin(args: string, mem: uint32 -> uint32) returns (d: Dump)
    requires IsCString(args) && |args| < 258
    ensures d.BadFormat? <==> !HasAddressPrefix(args)
    ensures d.BinDump? ==>
              d.parseError == !AllHex(args[2..]) && d.address == DumpAddress(args) &&
              d.bits == Digits(mem(d.address), 32, 2)
    ensures !d.HexDump?
  {
    if At(args, 0) != '0' || At(args, 1) != 'x' {
      return BadFormat;
    }
    var dec, failed := HexStringToDec(args[2..]);
    var bin := new char[33];
    var ok := DecToBinaryString(mem(dec), bin, 32);
    d := BinDump(dec, failed, bin[..32]);
  }

  /** A dump of 0xDEADBEEF reads "DEADBEEF". */
  lemma DeadBeef()
    ensures Digits(0xDEADBEEF, 8, 16) == "DEADBEEF"
  {
  }

  lemma {:induction false} DigitsOfZero(n: nat, base: nat)
    requires 2 <= base <= 16
    ensures Digits(0, n, base) == seq(n, _ => '0')
  {
    if n > 0 {
      DigitsOfZero(n - 1, base);
    }
  }

  /** The low row of the binary table for 0x0000000F reads 0000000000001111. */
  lemma LowRowOfFifteen()
    ensures Digits(0xF, 32, 2)[16..] == "0000000000001111"
  {
    DigitsOfZero(28, 2);
    assert Digits(1, 29, 2) == Digits(0, 28, 2) + "1";
    assert Digits(3, 30, 2) == Digits(1, 29, 2) + "1";
    assert Digits(7, 31, 2) == Digits(3, 30, 2) + "1";
    assert Digits(0xF, 32, 2) == Digits(7, 31, 2) + "1";
  }
}

/**
 * Byte-level encodings shared by the off-chain builder and the on-chain verifier:
 * Rust's `u64::to_le_bytes`, `str::as_bytes` (UTF-8), `u64::from_str` and `u64::to_string`.
 */
module Encoding {
  import opened Wrappers

  type Byte = b: int | 0 <= b < 256

  const U64_LIMIT: nat := 0x1_0000_0000_0000_0000
  const U32_LIMIT: nat := 0x1_0000_0000

  type U64 = n: nat | n < U64_LIMIT
  type U32 = n: nat | n < U32_LIMIT

  /** `n as u32` keeps every value that fits. */
  lemma CastU32OfSmall(n: nat)
    requires n < U32_LIMIT
    ensures n % U32_LIMIT == n
  {
  }

  function Pow256(k: nat): (r: nat)
    ensures r > 0
  {
    if k == 0 then 1 else 256 * Pow256(k - 1)
  }

  /** Little-endian encoding of `n` in `width` bytes (bytes above the width are dropped). */
  function LittleEndian(n: nat, width: nat): (r: seq<Byte>)
    ensures |r| == width
  {
    if width == 0 then [] else [n % 256] + LittleEndian(n / 256, width - 1)
  }

  function FromLittleEndian(s: seq<Byte>): nat
  {
    if s == [] then 0 else s[0] + 256 * FromLittleEndian(s[1..])
  }

  lemma {:induction false} LittleEndianRoundTrip(n: nat, width: nat)
    requires n < Pow256(width)
    ensures FromLittleEndian(LittleEndian(n, width)) == n
  {
    if width > 0 {
      LittleEndianRoundTrip(n / 256, width - 1);
      assert LittleEndian(n, width)[1..] == LittleEndian(n / 256, width - 1);
    }
  }

  /** `amount.to_le_bytes()` for a `u64`: eight bytes, least significant first. */
  function U64Le(n: U64): (r: seq<Byte>)
    ensures |r| == 8
  {
    LittleEndian(n, 8)
  }

  /** Distinct amounts have distinct encodings. */
  lemma U64LeInjective(x: U64, y: U64)
    requires U64Le(x) == U64Le(y)
    ensures x == y
  {
    assert Pow256(8) == U64_LIMIT;
    LittleEndianRoundTrip(x, 8);
    LittleEndianRoundTrip(y, 8);
  }

  /** The UTF-8 bytes of one Unicode scalar value. */
  function Utf8Char(c: char): (r: seq<Byte>)
    ensures 1 <= |r| <= 4
    ensures (c as int < 0x80) <==> |r| == 1
  {
    var v := c as int;
    if v < 0x80 then [v]
    else if v < 0x800 then [0xC0 + v / 0x40, 0x80 + v % 0x40]
    else if v < 0x1_0000 then [0xE0 + v / 0x1000, 0x80 + (v / 0x40) % 0x40, 0x80 + v % 0x40]
    else [0xF0 + v / 0x4_0000, 0x80 + (v / 0x1000) % 0x40, 0x80 + (v / 0x40) % 0x40, 0x80 + v % 0x40]
  }

  /** `s.as_bytes()`: the UTF-8 encoding of a Rust string. */
  function Utf8(s: string): (r: seq<Byte>)
    ensures |r| >= |s|
  {
    if s == [] then [] else Utf8Char(s[0]) + Utf8(s[1..])
  }

  predicate IsAscii(s: string)
  {
    forall i :: 0 <= i < |s| ==> s[i] as int < 0x80
  }

  /** An ASCII string (a base58 address, for one) is encoded one byte per character. */
  lemma {:induction false} Utf8OfAscii(s: string)
    requires IsAscii(s)
    ensures |Utf8(s)| == |s|
    ensures forall i :: 0 <= i < |s| ==> Utf8(s)[i] == s[i] as int
  {
    if s != [] {
      Utf8OfAscii(s[1..]);
    }
  }

  predicate IsDigit(c: char)
  {
    '0' <= c <= '9'
  }

  /** The value of a run of decimal digits, most significant first. */
  function DecimalValue(s: string): nat
    requires forall i :: 0 <= i < |s| ==> IsDigit(s[i])
  {
    if s == [] then 0
    else
      assert IsDigit(s[|s| - 1]);
      10 * DecimalValue(s[..|s| - 1]) + (s[|s| - 1] as int - '0' as int)
  }

  /**
   * `s.parse::<u64>()`: one optional leading `+`, then at least one ASCII digit and nothing
   * else; a value of 2^64 or more overflows.  A leading `-` is an invalid digit for an unsigned type.
   */
  function ParseU64(s: string): (r: Option<U64>)
    ensures r.Some? ==> |s| > 0 && (s[0] == '+' || IsDigit(s[0]))
  {
    var digits := if |s| > 0 && s[0] == '+' then s[1..] else s;
    if digits == [] || exists i :: 0 <= i < |digits| && !IsDigit(digits[i]) then None
    else if DecimalValue(digits) < U64_LIMIT then Some(DecimalValue(digits))
    else None
  }

  /** `n.to_string()` for an unsigned integer: its decimal digits with no leading zero. */
  function DecimalString(n: nat): (r: string)
    ensures |r| > 0
    ensures forall i :: 0 <= i < |r| ==> IsDigit(r[i])
  {
    if n < 10 then ['0' + n as char] else DecimalString(n / 10) + ['0' + (n % 10) as char]
  }

  lemma {:induction false} DecimalStringValue(n: nat)
    ensures DecimalValue(DecimalString(n)) == n
  {
    if n >= 10 {
      DecimalStringValue(n / 10);
      var s := DecimalString(n);
      assert s[..|s| - 1] == DecimalString(n / 10);
    }
  }

  /** Parsing an amount printed by `to_string` gives the amount back. */
  lemma ParseDecimalString(n: U64)
    ensures ParseU64(DecimalString(n)) == Some(n)
  {
    DecimalStringValue(n);
  }
}

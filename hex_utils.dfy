/**
 * The SDK's hex helpers (`sdk/src/core/utils.ts`): `numberArrayToHex` prints bytes as
 * lower-case hex, two digits each, and `hexToBytes` reads two-character chunks back with
 * JavaScript's `parseInt(chunk, 16)`, which yields NaN for a chunk it cannot read.
 */
module HexUtils {
  import opened Encoding

  // ---------------------------------------------------------------------------
  // Printing

  /** The lower-case hexadecimal digit of a value below 16. */
  function HexDigit(v: nat): char
    requires v < 16
  {
    if v < 10 then ('0' as int + v) as char else ('a' as int + v - 10) as char
  }

  /** `byte.toString(16).padStart(2, "0")`: the high digit, then the low digit. */
  function ByteToHex(b: Byte): string
  {
    [HexDigit(b / 16), HexDigit(b % 16)]
  }

  /** `numberArrayToHex`: two lower-case digits per byte, high digit first, bytes in order. */
  function NumberArrayToHex(arr: seq<Byte>): (r: string)
    ensures |r| == 2 * |arr|
  {
    if arr == [] then [] else ByteToHex(arr[0]) + NumberArrayToHex(arr[1..])
  }

  /** Characters 2k and 2k+1 of the output are the high and the low digit of byte k. */
  lemma {:induction false} PrintedDigits(arr: seq<Byte>, k: nat)
    requires k < |arr|
    ensures NumberArrayToHex(arr)[2 * k] == HexDigit(arr[k] / 16)
    ensures NumberArrayToHex(arr)[2 * k + 1] == HexDigit(arr[k] % 16)
  {
    if k > 0 {
      PrintedDigits(arr[1..], k - 1);
      assert NumberArrayToHex(arr) == ByteToHex(arr[0]) + NumberArrayToHex(arr[1..]);
    }
  }

  // ---------------------------------------------------------------------------
  // parseInt(s, 16)

  /** A JavaScript number that `parseInt` returns: NaN or an integer (`-0` is taken as 0). */
  datatype JsNumber = NaN | Int(value: int)

  /** White space and line terminators, which `parseInt` skips before the number. */
  predicate IsJsWhitespace(c: char)
  {
    var v := c as int;
    || 0x09 <= v <= 0x0D || v == 0x20 || v == 0xA0 || v == 0x1680 || 0x2000 <= v <= 0x200A
    || v == 0x2028 || v == 0x2029 || v == 0x202F || v == 0x205F || v == 0x3000 || v == 0xFEFF
  }

  predicate IsHexDigit(c: char)
  {
    ('0' <= c <= '9') || ('a' <= c <= 'f') || ('A' <= c <= 'F')
  }

  /** The value of a hex digit; upper- and lower-case letters have the same value. */
  function HexValue(c: char): (v: nat)
    requires IsHexDigit(c)
    ensures v < 16
  {
    if '0' <= c <= '9' then c as int - '0' as int
    else if 'a' <= c <= 'f' then c as int - 'a' as int + 10
    else c as int - 'A' as int + 10
  }

  /** The length of the longest prefix of hex digits. */
  function HexPrefixLength(s: string): (n: nat)
    ensures n <= |s|
    ensures forall i :: 0 <= i < n ==> IsHexDigit(s[i])
    ensures n < |s| ==> !IsHexDigit(s[n])
  {
    if s != [] && IsHexDigit(s[0]) then 1 + HexPrefixLength(s[1..]) else 0
  }

  /** The value of a run of hex digits, most significant first. */
  function HexDigitsValue(s: string): nat
    requires forall i :: 0 <= i < |s| ==> IsHexDigit(s[i])
  {
    if s == [] then 0 else 16 * HexDigitsValue(s[..|s| - 1]) + HexValue(s[|s| - 1])
  }

  /**
   * `parseInt(s, 16)`: skip leading white space, take one optional sign, drop a `0x`/`0X`
   * prefix, then read the longest run of hex digits; no digits at all is NaN, and whatever
   * follows the run is ignored.
   */
  function ParseInt16(s: string): JsNumber
    decreases |s|
  {
    if s != [] && IsJsWhitespace(s[0]) then ParseInt16(s[1..]) else ParseSigned(s)
  }

  /** `parseInt(t, 16)` once the white space is skipped. */
  function ParseSigned(t: string): JsNumber
  {
    var negative := t != [] && t[0] == '-';
    var unsigned := if t != [] && (t[0] == '-' || t[0] == '+') then t[1..] else t;
    var digits := if |unsigned| >= 2 && unsigned[0] == '0' && (unsigned[1] == 'x' || unsigned[1] == 'X') then unsigned[2..] else unsigned;
    var n := HexPrefixLength(digits);
    if n == 0 then NaN
    else if negative then Int(0 - HexDigitsValue(digits[..n]))
    else Int(HexDigitsValue(digits[..n]))
  }

  // ---------------------------------------------------------------------------
  // Reading

  /** `hex.substring(i, i + 2)` for i = 2k: two characters, or the last one of an odd-length string. */
  function Chunk(hex: string, k: nat): string
    requires 2 * k < |hex|
  {
    hex[2 * k .. if 2 * k + 2 <= |hex| then 2 * k + 2 else |hex|]
  }

  /** What `hexToBytes` returns: one parsed chunk per pair of characters, the last chunk possibly single. */
  function HexDecode(hex: string): (r: seq<JsNumber>)
    ensures |r| == (|hex| + 1) / 2
    decreases |hex|
  {
    if hex == [] then []
    else if |hex| <= 2 then [ParseInt16(hex)]
    else [ParseInt16(hex[..2])] + HexDecode(hex[2..])
  }

  /** Entry k of `HexDecode` is chunk k parsed. */
  lemma {:induction false} HexDecodeAt(hex: string, k: nat)
    requires k < (|hex| + 1) / 2
    ensures HexDecode(hex)[k] == ParseInt16(Chunk(hex, k))
    decreases k
  {
    if k > 0 {
      assert |hex| > 2 && HexDecode(hex) == [ParseInt16(hex[..2])] + HexDecode(hex[2..]);
      HexDecodeAt(hex[2..], k - 1);
      assert Chunk(hex[2..], k - 1) == Chunk(hex, k);
    } else {
      assert Chunk(hex, 0) == if |hex| <= 2 then hex else hex[..2];
    }
  }

  /** `hexToBytes`. */
  method HexToBytes(hex: string) returns (bytes: seq<JsNumber>)
    ensures bytes == HexDecode(hex)
  {
    bytes := [];
    var i := 0;
    ghost var k := 0;
    while i < |hex|
      invariant i == 2 * k && k <= (|hex| + 1) / 2
      invariant |bytes| == k
      invariant forall m :: 0 <= m < k ==> bytes[m] == ParseInt16(Chunk(hex, m))
    {
      bytes := bytes + [ParseInt16(hex[i .. if i + 2 <= |hex| then i + 2 else |hex|])];
      i := i + 2;
      k := k + 1;
    }
    forall m | 0 <= m < k
      ensures bytes[m] == HexDecode(hex)[m]
    {
      HexDecodeAt(hex, m);
    }
  }

  // ---------------------------------------------------------------------------
  // Properties

  /** Two hex digits, in either case, parse to 16 times the first plus the second. */
  lemma ParseTwoDigits(s: string)
    requires |s| == 2 && IsHexDigit(s[0]) && IsHexDigit(s[1])
    ensures ParseInt16(s) == Int(16 * HexValue(s[0]) + HexValue(s[1]))
  {
    assert s[1..][1..] == [];
    assert HexPrefixLength(s) == 2;
    assert s[..2] == s && s[..1] == [s[0]] && [s[0]][..0] == [];
    assert HexDigitsValue([s[0]]) == HexValue(s[0]);
  }

  /** One hex digit parses to its value. */
  lemma ParseOneDigit(s: string)
    requires |s| == 1 && IsHexDigit(s[0])
    ensures ParseInt16(s) == Int(HexValue(s[0]))
  {
    assert s[1..] == [];
    assert HexPrefixLength(s) == 1;
    assert s[..1] == s && s[..0] == [];
    assert HexDigitsValue(s) == HexValue(s[0]);
  }

  predicate IsHexString(h: string)
  {
    forall i :: 0 <= i < |h| ==> IsHexDigit(h[i])
  }

  /**
   * On a string of hex digits in any case, chunk k reads digits 2k and 2k+1 (or the last
   * digit alone), with 'A'..'F' worth the same as 'a'..'f'.
   */
  lemma HexDecodeDigits(h: string, k: nat)
    requires IsHexString(h) && k < (|h| + 1) / 2
    ensures 2 * k + 1 < |h| ==> HexDecode(h)[k] == Int(16 * HexValue(h[2 * k]) + HexValue(h[2 * k + 1]))
    ensures 2 * k + 1 == |h| ==> HexDecode(h)[k] == Int(HexValue(h[2 * k]))
  {
    var c := Chunk(h, k);
    HexDecodeAt(h, k);
    if 2 * k + 1 < |h| {
      assert |c| == 2 && c[0] == h[2 * k] && c[1] == h[2 * k + 1];
      ParseTwoDigits(c);
    } else {
      assert |c| == 1 && c[0] == h[2 * k];
      ParseOneDigit(c);
    }
  }

  function ToNumbers(arr: seq<Byte>): (r: seq<JsNumber>)
    ensures |r| == |arr| && forall k :: 0 <= k < |arr| ==> r[k] == Int(arr[k])
  {
    seq(|arr|, k requires 0 <= k < |arr| => Int(arr[k]))
  }

  /** A printed digit is a hex digit worth what was printed. */
  lemma HexDigitValue(v: nat)
    requires v < 16
    ensures IsHexDigit(HexDigit(v)) && HexValue(HexDigit(v)) == v
  {
  }

  /** A chunk holding the two printed digits of a byte decodes to that byte. */
  lemma DecodeChunk(h: string, k: nat, b: Byte)
    requires 2 * k + 1 < |h|
    requires h[2 * k] == HexDigit(b / 16) && h[2 * k + 1] == HexDigit(b % 16)
    ensures HexDecode(h)[k] == Int(b)
  {
    var c := Chunk(h, k);
    HexDecodeAt(h, k);
    assert |c| == 2 && c[0] == HexDigit(b / 16) && c[1] == HexDigit(b % 16);
    HexDigitValue(b / 16);
    HexDigitValue(b % 16);
    ParseTwoDigits(c);
  }

  /** Chunk k of a printed byte string reads back as byte k. */
  lemma PrintedChunk(arr: seq<Byte>, k: nat)
    requires k < |arr|
    ensures HexDecode(NumberArrayToHex(arr))[k] == Int(arr[k])
  {
    PrintedDigits(arr, k);
    DecodeChunk(NumberArrayToHex(arr), k, arr[k]);
  }

  /** Reading printed bytes gives the bytes back. */
  lemma BytesRoundTrip(arr: seq<Byte>)
    ensures HexDecode(NumberArrayToHex(arr)) == ToNumbers(arr)
  {
    forall k | 0 <= k < |arr|
      ensures HexDecode(NumberArrayToHex(arr))[k] == Int(arr[k])
    {
      PrintedChunk(arr, k);
    }
  }

  predicate IsLowerHexDigit(c: char)
  {
    ('0' <= c <= '9') || ('a' <= c <= 'f')
  }

  /** An even-length string of lower-case hex digits, as `numberArrayToHex` prints. */
  predicate IsPrintedHex(h: string)
  {
    |h| % 2 == 0 && forall i :: 0 <= i < |h| ==> IsLowerHexDigit(h[i])
  }

  /** The bytes a printed hex string stands for, two digits each. */
  function ReadBytes(h: string): (r: seq<Byte>)
    requires IsPrintedHex(h)
    ensures |r| == |h| / 2
  {
    if h == [] then [] else [16 * HexValue(h[0]) + HexValue(h[1])] + ReadBytes(h[2..])
  }

  /** Byte k of `ReadBytes` is read from digits 2k and 2k+1. */
  lemma {:induction false} ReadBytesAt(h: string, k: nat)
    requires IsPrintedHex(h) && k < |h| / 2
    ensures ReadBytes(h)[k] == 16 * HexValue(h[2 * k]) + HexValue(h[2 * k + 1])
  {
    if k > 0 {
      ReadBytesAt(h[2..], k - 1);
    }
  }

  /** A lower-case hex digit is the digit `HexDigit` prints for its value. */
  lemma PrintLowerDigit(c: char)
    requires IsLowerHexDigit(c)
    ensures HexDigit(HexValue(c)) == c
  {
  }

  /** Printing the bytes of two lower-case digits gives the two digits back. */
  lemma PrintTwoDigits(a: char, b: char)
    requires IsLowerHexDigit(a) && IsLowerHexDigit(b)
    ensures 16 * HexValue(a) + HexValue(b) < 256
    ensures ByteToHex(16 * HexValue(a) + HexValue(b)) == [a, b]
  {
    var x, y := HexValue(a), HexValue(b);
    assert (16 * x + y) / 16 == x && (16 * x + y) % 16 == y;
    PrintLowerDigit(a);
    PrintLowerDigit(b);
  }

  /** Printing what a printed hex string reads as gives the string back. */
  lemma {:induction false} PrintReadBytes(h: string)
    requires IsPrintedHex(h)
    ensures NumberArrayToHex(ReadBytes(h)) == h
  {
    if h != [] {
      PrintReadBytes(h[2..]);
      PrintTwoDigits(h[0], h[1]);
      assert ReadBytes(h)[1..] == ReadBytes(h[2..]);
      assert h == [h[0], h[1]] + h[2..];
    }
  }

  /**
   * The other round trip: `hexToBytes` reads an even-length lower-case hex string as the
   * bytes `ReadBytes` gives, and `numberArrayToHex` prints those bytes as the same string.
   */
  lemma HexRoundTrip(h: string)
    requires IsPrintedHex(h)
    ensures HexDecode(h) == ToNumbers(ReadBytes(h))
    ensures NumberArrayToHex(ReadBytes(h)) == h
  {
    forall k | 0 <= k < |h| / 2
      ensures HexDecode(h)[k] == Int(ReadBytes(h)[k])
    {
      ReadBytesAt(h, k);
      HexDecodeDigits(h, k);
    }
    PrintReadBytes(h);
  }

  /** Lower case for the hex letters 'A'..'F'; every other character is kept. */
  function LowerHex(h: string): (r: string)
    ensures |r| == |h|
    ensures forall i :: 0 <= i < |h| ==> r[i] == if 'A' <= h[i] <= 'F' then (h[i] as int + 32) as char else h[i]
  {
    seq(|h|, i requires 0 <= i < |h| => if 'A' <= h[i] <= 'F' then (h[i] as int + 32) as char else h[i])
  }

  /** On hex digits, `hexToBytes` does not depend on case. */
  lemma HexDecodeIgnoresCase(h: string)
    requires IsHexString(h)
    ensures HexDecode(LowerHex(h)) == HexDecode(h)
  {
    var l := LowerHex(h);
    assert IsHexString(l);
    forall k | 0 <= k < (|h| + 1) / 2
      ensures HexDecode(l)[k] == HexDecode(h)[k]
    {
      HexDecodeDigits(h, k);
      HexDecodeDigits(l, k);
    }
  }

  /** The printing examples of the SDK's unit tests: padding to two digits, lower case, empty input. */
  lemma PrintExamples()
    ensures NumberArrayToHex([1, 2, 3]) == "010203"
    ensures NumberArrayToHex([0, 255, 128]) == "00ff80"
    ensures NumberArrayToHex([]) == ""
  {
    assert IsPrintedHex("010203") && IsPrintedHex("00ff80");
    PrintReadBytes("010203");
    PrintReadBytes("00ff80");
    assert ReadBytes("010203") == [1, 2, 3];
    assert ReadBytes("00ff80") == [0, 255, 128];
  }

  /** The reading examples of the SDK's unit tests: upper case and lower case alike, empty input. */
  lemma ReadExamples()
    ensures HexDecode("ABCDEF") == [Int(171), Int(205), Int(239)]
    ensures HexDecode("abcdef") == [Int(171), Int(205), Int(239)]
    ensures HexDecode("") == []
  {
    UpperExample();
    DecodeThreeBytes('a', 'b', 'c', 'd', 'e', 'f');
  }

  lemma UpperExample()
    ensures HexDecode("ABCDEF") == [Int(171), Int(205), Int(239)]
  {
    DecodeThreeBytes('A', 'B', 'C', 'D', 'E', 'F');
  }

  /** Six hex digits decode to the three bytes they spell. */
  lemma DecodeThreeBytes(a: char, b: char, c: char, d: char, e: char, f: char)
    requires IsHexDigit(a) && IsHexDigit(b) && IsHexDigit(c) && IsHexDigit(d) && IsHexDigit(e) && IsHexDigit(f)
    ensures HexDecode([a, b, c, d, e, f]) ==
      [Int(16 * HexValue(a) + HexValue(b)), Int(16 * HexValue(c) + HexValue(d)), Int(16 * HexValue(e) + HexValue(f))]
  {
    var h := [a, b, c, d, e, f];
    assert IsHexString(h);
    HexDecodeDigits(h, 0);
    HexDecodeDigits(h, 1);
    HexDecodeDigits(h, 2);
  }
}

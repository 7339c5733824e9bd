/**
 * `u32::from_str_radix(text, 16)`, which the escape decoder calls on the text
 * between `\u{` and `}`: an optional `+`, then hexadecimal digits, scanned
 * left to right with an overflow check after every digit.
 */
module Radix {
  import opened Wrappers
  import opened ParseErrors

  const U32_MAX: nat := 0xFFFF_FFFF

  predicate IsHexDigit(c: char)
  {
    '0' <= c <= '9' || 'a' <= c <= 'f' || 'A' <= c <= 'F'
  }

  /** `char::to_digit(16)` on a hexadecimal digit. */
  function DigitValue(c: char): (v: nat)
    requires IsHexDigit(c)
    ensures v < 16
  {
    if '0' <= c <= '9' then c as int - '0' as int
    else if 'a' <= c <= 'f' then c as int - 'a' as int + 10
    else c as int - 'A' as int + 10
  }

  /** The length of the longest prefix of `w` made of hexadecimal digits. */
  function HexRunEnd(w: seq<char>): (i: nat)
    ensures i <= |w|
    ensures forall k :: 0 <= k < i ==> IsHexDigit(w[k])
    ensures i < |w| ==> !IsHexDigit(w[i])
  {
    if w == [] || !IsHexDigit(w[0]) then 0 else 1 + HexRunEnd(w[1..])
  }

  /** The number a string of hexadecimal digits denotes. */
  function HexValue(w: seq<char>): nat
    requires forall k :: 0 <= k < |w| ==> IsHexDigit(w[k])
  {
    if w == [] then 0 else HexValue(w[..|w| - 1]) * 16 + DigitValue(w[|w| - 1])
  }

  /** What the digit scan gives, stated without the scan: overflow of the hex prefix first, then a bad digit. */
  function Expected(w: seq<char>): Result<nat, IntErrorKind>
  {
    var i := HexRunEnd(w);
    if HexValue(w[..i]) > U32_MAX then Err(PosOverflow)
    else if i < |w| then Err(InvalidDigit)
    else Ok(HexValue(w))
  }

  /** The text after the optional leading `+`: one `+` is dropped, and nothing else changes. */
  function Digits(src: string): (r: string)
    ensures src != [] && src[0] == '+' ==> src == ['+'] + r
    ensures r != src ==> src != [] && src[0] == '+'
  {
    if src != [] && src[0] == '+' then src[1..] else src
  }

  /**
   * The digit loop: multiply, add the digit, refuse a result above
   * `u32::MAX`.  A success means every character was a digit, and the value
   * only grows; it fits in 32 bits once a digit has been added.
   */
  function Accumulate(d: seq<char>, acc: nat): (r: Result<nat, IntErrorKind>)
    ensures r.Ok? ==> forall k :: 0 <= k < |d| ==> IsHexDigit(d[k])
    ensures r.Ok? ==> acc <= r.value && (d != [] ==> r.value <= U32_MAX)
    ensures r.Err? ==> r.error != Empty
  {
    if d == [] then Ok(acc)
    else if !IsHexDigit(d[0]) then Err(InvalidDigit)
    else if acc * 16 + DigitValue(d[0]) > U32_MAX then Err(PosOverflow)
    else Accumulate(d[1..], acc * 16 + DigitValue(d[0]))
  }

  /**
   * `u32::from_str_radix(src, 16)`: empty text is `Empty`; a lone sign is
   * `InvalidDigit`; otherwise the digits after an optional `+` give their
   * value when they are all hexadecimal and it fits in 32 bits, and
   * `PosOverflow` or `InvalidDigit` by which of the two the scan meets first.
   */
  function FromStrRadix16(src: string): (r: Result<nat, IntErrorKind>)
    ensures src == [] ==> r == Err(Empty)
    ensures src != [] && Digits(src) == [] ==> r == Err(InvalidDigit)
    ensures src != [] && Digits(src) != [] ==> r == Expected(Digits(src))
    ensures r.Ok? ==> r.value <= U32_MAX
  {
    if src == [] then Err(Empty)
    else if (src[0] == '+' || src[0] == '-') && |src| == 1 then Err(InvalidDigit)
    else
      var d := Digits(src);
      AccumulateMeetsExpected(d, 0);
      assert d[0..] == d && d[..|d|] == d;
      Accumulate(d, 0)
  }

  lemma HexValueStep(w: seq<char>, j: nat)
    requires j < |w| && forall k :: 0 <= k <= j ==> IsHexDigit(w[k])
    ensures HexValue(w[..j + 1]) == HexValue(w[..j]) * 16 + DigitValue(w[j])
  {
    assert w[..j + 1][..j] == w[..j];
  }

  lemma {:induction false} HexValuePrefixMonotonic(w: seq<char>, a: nat, b: nat)
    requires a <= b <= |w| && forall k :: 0 <= k < b ==> IsHexDigit(w[k])
    ensures HexValue(w[..a]) <= HexValue(w[..b])
    decreases b - a
  {
    if a < b {
      HexValuePrefixMonotonic(w, a, b - 1);
      HexValueStep(w, b - 1);
    }
  }

  /** The scan, resumed after the hexadecimal prefix `w[..j]`, ends as `Expected` says. */
  lemma {:induction false} AccumulateMeetsExpected(w: seq<char>, j: nat)
    requires j <= |w| && forall k :: 0 <= k < j ==> IsHexDigit(w[k])
    requires HexValue(w[..j]) <= U32_MAX
    ensures Accumulate(w[j..], HexValue(w[..j])) == Expected(w)
    decreases |w| - j
  {
    var i := HexRunEnd(w);
    assert j <= i;
    if j == |w| {
      assert w[..j] == w;
    } else if !IsHexDigit(w[j]) {
      assert i == j;
    } else {
      var n := HexValue(w[..j]) * 16 + DigitValue(w[j]);
      assert HexValue(w[..j + 1]) == n by { HexValueStep(w, j); }
      if n > U32_MAX {
        assert HexValue(w[..i]) > U32_MAX by { HexValuePrefixMonotonic(w, j + 1, i); }
      } else {
        assert w[j..][1..] == w[j + 1..];
        AccumulateMeetsExpected(w, j + 1);
      }
    }
  }

  function HexChar(d: nat): (c: char)
    requires d < 16
    ensures IsHexDigit(c) && DigitValue(c) == d
  {
    if d < 10 then ('0' as int + d) as char else ('A' as int + d - 10) as char
  }

  /** Upper-case hexadecimal digits of `n`, without leading zeros. */
  function ToHex(n: nat): (w: string)
    ensures w != [] && forall k :: 0 <= k < |w| ==> IsHexDigit(w[k])
  {
    if n < 16 then [HexChar(n)] else ToHex(n / 16) + [HexChar(n % 16)]
  }

  lemma {:induction false} ToHexValue(n: nat)
    ensures HexValue(ToHex(n)) == n
  {
    if n >= 16 {
      ToHexValue(n / 16);
      var w := ToHex(n);
      assert w[..|w| - 1] == ToHex(n / 16);
    }
  }

  /** Printing a 32-bit value in hexadecimal and scanning it back gives the value. */
  lemma ToHexRoundTrip(n: nat)
    requires n <= U32_MAX
    ensures FromStrRadix16(ToHex(n)) == Ok(n)
  {
    var w := ToHex(n);
    ToHexValue(n);
    assert HexRunEnd(w) == |w|;
    assert w[..|w|] == w;
  }
}

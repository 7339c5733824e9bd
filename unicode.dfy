/**
 * Character classes and byte offsets the parser relies on.
 *
 * `IsWhitespace` is Rust's `char::is_whitespace` written out (the Unicode
 * White_Space property is a fixed list of 25 code points).  The identifier
 * classes XID_Start and XID_Continue come from the `unicode_ident` tables,
 * which are not part of this model: they are a parameter, `Xid`.
 *
 * The parser's cursor is a character index; winnow's `LocatingSlice` reports
 * byte offsets into the UTF-8 text, which `ByteOffset` computes.
 */
module Unicode {

  /** Rust's `char::is_whitespace`; on ASCII it is the space and `\t \n \x0B \x0C \r`. */
  function IsWhitespace(c: char): (b: bool)
    ensures c as int < 0x80 ==> (b <==> c == ' ' || '\t' <= c <= '\r')
    ensures b ==> c == ' ' || '\t' <= c <= '\r' || 0x85 <= c as int <= 0x3000
  {
    var n := c as int;
    || n == 0x20 || 0x09 <= n <= 0x0D
    || n == 0x85 || n == 0xA0 || n == 0x1680
    || 0x2000 <= n <= 0x200A
    || n == 0x2028 || n == 0x2029 || n == 0x202F || n == 0x205F
    || n == 0x3000
  }

  /** The identifier classes of Unicode Standard Annex #31, as `unicode_ident` provides them. */
  datatype Xid = Xid(isStart: char -> bool, isContinue: char -> bool)

  /** Number of bytes of `c` in UTF-8. */
  function Utf8Len(c: char): (n: nat)
    ensures 1 <= n <= 4
    ensures n == 1 <==> c as int < 0x80
  {
    if c as int < 0x80 then 1
    else if c as int < 0x800 then 2
    else if c as int < 0x10000 then 3
    else 4
  }

  /** Number of bytes of `s` in UTF-8. */
  function Utf8Size(s: seq<char>): (n: nat)
    ensures |s| <= n <= 4 * |s|
  {
    if s == [] then 0 else Utf8Size(s[..|s| - 1]) + Utf8Len(s[|s| - 1])
  }

  /** The byte offset of character index `i` of `s`, what `current_token_start` reports. */
  function ByteOffset(s: seq<char>, i: nat): (n: nat)
    requires i <= |s|
    ensures i <= n <= 4 * i
    ensures i == |s| ==> n == Utf8Size(s)
  {
    assert i == |s| ==> s[..i] == s;
    Utf8Size(s[..i])
  }

  lemma {:induction false} Utf8SizeAppend(a: seq<char>, b: seq<char>)
    ensures Utf8Size(a + b) == Utf8Size(a) + Utf8Size(b)
    decreases |b|
  {
    if b == [] {
      assert a + b == a;
    } else {
      var b' := b[..|b| - 1];
      assert (a + b)[..|a + b| - 1] == a + b';
      Utf8SizeAppend(a, b');
    }
  }

  /** Each character adds between one and four bytes, so offsets strictly increase. */
  lemma ByteOffsetStep(s: seq<char>, i: nat)
    requires i < |s|
    ensures ByteOffset(s, i + 1) == ByteOffset(s, i) + Utf8Len(s[i])
    ensures ByteOffset(s, i) < ByteOffset(s, i + 1)
  {
    assert s[..i + 1][..i] == s[..i];
  }

  lemma {:induction false} ByteOffsetMonotonic(s: seq<char>, i: nat, j: nat)
    requires i <= j <= |s|
    ensures ByteOffset(s, i) + (j - i) <= ByteOffset(s, j)
    ensures i < j ==> ByteOffset(s, i) < ByteOffset(s, j)
    decreases j - i
  {
    if i < j {
      ByteOffsetMonotonic(s, i, j - 1);
      ByteOffsetStep(s, j - 1);
    }
  }

  /** Offsets into `s` do not depend on what follows the prefix they measure. */
  lemma ByteOffsetPrefix(s: seq<char>, t: seq<char>, i: nat)
    requires i <= |s|
    ensures ByteOffset(s + t, i) == ByteOffset(s, i)
  {
    assert (s + t)[..i] == s[..i];
  }

  /** On ASCII text byte offsets and character indices coincide. */
  lemma {:induction false} AsciiOffset(s: seq<char>, i: nat)
    requires i <= |s|
    requires forall k :: 0 <= k < i ==> s[k] as int < 0x80
    ensures ByteOffset(s, i) == i
  {
    if i > 0 {
      AsciiOffset(s, i - 1);
      ByteOffsetStep(s, i - 1);
    }
  }
}

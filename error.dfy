/**
 * The parser's error value and its rendering as two lines of text: the input,
 * then a line padded by the failing byte offset, with a caret per byte of the span.
 */
module ParseErrors {
  import opened Unicode
  import opened ShellTypes

  /** Why `u32::from_str_radix` refused its text (Rust's `IntErrorKind`, as far as `u32` can fail). */
  datatype IntErrorKind = Empty | InvalidDigit | PosOverflow

  datatype UnicodeEscapeError = NoBeginBrace | NoEndBrace | InvalidUnicode

  /** The reasons the grammar reports; `Other` is the default that winnow's own failures carry. */
  datatype ParseErrorKind =
    | NoIdent
    | InvalidIdent
    | UnrecognizedEscape(escaped: char)
    | InvalidUnicodeEscape(cause: UnicodeEscapeError)
    | ParseHexError(hex: IntErrorKind)
    | NoEndQuotation
    | NoEndDoubleQuotation
    | Other

  /** A failure: its reason and the byte range it is reported at. */
  datatype ParseError = ParseError(kind: ParseErrorKind, span: Span)

  /** A grammar error reported at the single byte offset `offset`. */
  function At(kind: ParseErrorKind, offset: nat): (e: ParseError)
    ensures e.kind == kind && e.span.start == offset && e.span.Len() == 0
  {
    ParseError(kind, Span(offset, offset))
  }

  /** `from_input`: the default kind with the empty range at the cursor. */
  function FromInput(s: seq<char>, pos: nat): (e: ParseError)
    requires pos <= |s|
    ensures e.kind == Other
    ensures e.span.start == e.span.end == ByteOffset(s, pos)
  {
    At(Other, ByteOffset(s, pos))
  }

  /** `from_external_error`: the error of the failed mapping is kept as it is; the input is ignored. */
  function FromExternalError(s: seq<char>, e: ParseError): (r: ParseError)
    ensures r == e
  {
    e
  }

  /** `str::replace(['\n', '\r'], " ")`. */
  function ReplaceNewlines(s: string): (r: string)
    ensures |r| == |s|
    ensures forall i :: 0 <= i < |s| ==> r[i] == (if s[i] == '\n' || s[i] == '\r' then ' ' else s[i])
  {
    if s == [] then []
    else [if s[0] == '\n' || s[0] == '\r' then ' ' else s[0]] + ReplaceNewlines(s[1..])
  }

  /** `str::repeat` on a one-character string. */
  function Repeat(c: char, n: nat): (r: string)
    ensures |r| == n
    ensures forall i :: 0 <= i < n ==> r[i] == c
  {
    if n == 0 then [] else [c] + Repeat(c, n - 1)
  }

  /**
   * `ParseError::display`: the input line with line breaks blanked out, then
   * as many spaces as the span's start, as many carets as its length, a space
   * and the text of the kind.  The kind's text is a parameter here.
   */
  function Display(e: ParseError, input: string, kindText: string): (d: string)
    ensures |d| == |input| + 1 + e.span.start + e.span.Len() + 1 + |kindText| + 1
    ensures d[..|input|] == ReplaceNewlines(input) && d[|input|] == '\n' && d[|d| - 1] == '\n'
  {
    ReplaceNewlines(input) + "\n"
      + Repeat(' ', e.span.start) + Repeat('^', e.span.Len()) + " " + kindText + "\n"
  }

  /** The first line of the rendering is the input with `\n` and `\r` turned into spaces; it ends at the first newline. */
  lemma DisplayFirstLine(e: ParseError, input: string, kindText: string)
    ensures var d := Display(e, input, kindText);
      && |input| < |d| && d[|input|] == '\n'
      && (forall i :: 0 <= i < |input| ==> d[i] != '\n' && d[i] != '\r')
      && (forall i :: 0 <= i < |input| ==>
            d[i] == (if input[i] == '\n' || input[i] == '\r' then ' ' else input[i]))
  {
    var d := Display(e, input, kindText);
    var r := ReplaceNewlines(input);
    assert d == r + ("\n" + Repeat(' ', e.span.start) + Repeat('^', e.span.Len()) + " " + kindText + "\n");
  }

  /**
   * The second line is `start` spaces, `Len()` carets, a space and the kind
   * text, then a newline.  `start` is a byte offset while the first line is
   * laid out in characters, so on a line with non-ASCII text before the
   * error the padding reaches past the error's column.
   */
  lemma DisplaySecondLine(e: ParseError, input: string, kindText: string)
    ensures var d, b, st, n := Display(e, input, kindText), |input| + 1, e.span.start, e.span.Len();
      && |d| == b + st + n + 1 + |kindText| + 1
      && (forall i :: b <= i < b + st ==> d[i] == ' ')
      && (forall i :: b + st <= i < b + st + n ==> d[i] == '^')
      && d[b + st + n] == ' '
      && d[b + st + n + 1..|d| - 1] == kindText
      && d[|d| - 1] == '\n'
  {
    var b, st, n := |input| + 1, e.span.start, e.span.Len();
    var d := Display(e, input, kindText);
    var head := ReplaceNewlines(input) + "\n";
    var sp, car := Repeat(' ', st), Repeat('^', n);
    assert d == head + sp + car + " " + kindText + "\n";
    assert |head| == b;
    forall i | b <= i < b + st ensures d[i] == ' ' {
      assert d[i] == sp[i - b];
    }
    forall i | b + st <= i < b + st + n ensures d[i] == '^' {
      assert d[i] == car[i - b - st];
    }
    assert d[b + st + n + 1..|d| - 1] == kindText;
  }

  /**
   * Every error the grammar builds is `At(kind, offset)`, whose span is
   * empty: its second line is `offset` spaces, a space and the kind text,
   * with no caret drawn.
   */
  lemma DisplayOfPointError(kind: ParseErrorKind, offset: nat, input: string, kindText: string)
    ensures var d, b := Display(At(kind, offset), input, kindText), |input| + 1;
      && |d| == b + offset + 1 + |kindText| + 1
      && (forall i :: b <= i <= b + offset ==> d[i] == ' ')
      && d[b + offset + 1..|d| - 1] == kindText
  {
    DisplaySecondLine(At(kind, offset), input, kindText);
  }
}

/**
 * The four parser wrappers the grammar adds on top of winnow: `cut` (make a
 * failure fatal), `spanned` (tag a value with the byte range it came from),
 * `map_err_with_span` and `try_map_with_span` (report a failure at the offset
 * where the wrapped parser began).  Each takes the cursor the wrapped parser
 * started from and that parser's outcome.
 */
module Impls {
  import opened Wrappers
  import opened Unicode
  import opened ShellTypes
  import opened ParseErrors
  import opened Winnow

  /** `Cut`: a backtrack becomes fatal; successes and fatal failures pass through. */
  function WithCut<T>(o: Outcome<T>): (r: Outcome<T>)
    ensures !r.Backtrack?
    ensures o.Parsed? ==> r == o
    ensures !o.Parsed? ==> r == Cut(o.err)
  {
    match o
    case Backtrack(e) => Cut(e)
    case _ => o
  }

  /** `Spanned`: on success, the value with the byte range from the starting cursor to the cursor after it. */
  function WithSpan<T>(s: seq<char>, pos: nat, o: Outcome<T>): (r: Outcome<Spanned<T>>)
    requires pos <= |s| && Within(o, pos, |s|)
    ensures r.Parsed? <==> o.Parsed?
    ensures r.Parsed? ==> r.pos == o.pos && r.value.inner == o.value
    ensures r.Parsed? ==> r.value.span == Span(ByteOffset(s, pos), ByteOffset(s, o.pos))
    ensures r.Parsed? ==> r.value.span.start <= r.value.span.end
    ensures !o.Parsed? ==> r.Backtrack? == o.Backtrack? && r.err == o.err
  {
    match o
    case Parsed(v, p) =>
      ByteOffsetMonotonic(s, pos, p);
      Parsed(Spanned(v, Span(ByteOffset(s, pos), ByteOffset(s, p))), p)
    case Backtrack(e) => Backtrack(e)
    case Cut(e) => Cut(e)
  }

  /** `MapErrWithSpan`: a failure keeps its severity and is reported as `kind` at the starting offset. */
  function MapErrWithSpan<T>(s: seq<char>, pos: nat, o: Outcome<T>, kind: ParseErrorKind): (r: Outcome<T>)
    requires pos <= |s|
    ensures o.Parsed? ==> r == o
    ensures !o.Parsed? ==> r.Backtrack? == o.Backtrack? && !r.Parsed?
    ensures !o.Parsed? ==> r.err == At(kind, ByteOffset(s, pos))
  {
    match o
    case Parsed(_, _) => o
    case Backtrack(_) => Backtrack(At(kind, ByteOffset(s, pos)))
    case Cut(_) => Cut(At(kind, ByteOffset(s, pos)))
  }

  /**
   * `TryMapWithSpan`: a failure of the wrapped parser passes through; a
   * refusal of `f` is a backtrack (never fatal) at the starting offset,
   * carrying the kind `f` gave through `from_external_error`.  The cursor is
   * not put back in that case, but nothing after a failure reads it.
   */
  function TryMapWithSpan<T, U>(s: seq<char>, pos: nat, o: Outcome<T>, f: T -> Result<U, ParseErrorKind>): (r: Outcome<U>)
    requires pos <= |s|
    ensures !o.Parsed? ==> r.Backtrack? == o.Backtrack? && !r.Parsed? && r.err == o.err
    ensures o.Parsed? && f(o.value).Ok? ==> r == Parsed(f(o.value).value, o.pos)
    ensures o.Parsed? && f(o.value).Err? ==> r == Backtrack(At(f(o.value).error, ByteOffset(s, pos)))
  {
    match o
    case Parsed(v, p) =>
      (match f(v)
       case Ok(u) => Parsed(u, p)
       case Err(k) => Backtrack(FromExternalError(s, At(k, ByteOffset(s, pos)))))
    case Backtrack(e) => Backtrack(e)
    case Cut(e) => Cut(e)
  }
}

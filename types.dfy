/**
 * The values a parsed line is made of: words tagged with the byte range they
 * came from, commands and the whole shell command, and the orderings Rust
 * derives or defines for them.
 */
module ShellTypes {
  import opened Wrappers

  /** Rust's `Range<usize>`: the half-open byte range `start..end`. */
  datatype Span = Span(start: nat, end: nat) {
    /** `Range::len`, which is zero for a range whose end lies before its start. */
    function Len(): nat
    {
      if start <= end then end - start else 0
    }
  }

  /** A value with the span of input it was parsed from. */
  datatype Spanned<T> = Spanned(inner: T, span: Span)

  datatype SpecialVar = ExitStatus | Pid | BackgroundPid | ShellName

  datatype Word =
    | Literal(text: string)
    | PathLiteral(path: string)
    | SpecialVar(kind: SpecialVar)
    | EnvVar(name: string)
    | ShellVar(name: string)

  /** The pipe operators reserved for later; the grammar never produces one. */
  datatype Pipe = Split | Pipe | In | Out

  datatype Command = Command(name: Spanned<Word>, args: seq<Spanned<Word>>)

  datatype ShellCommand = ShellCommand(commands: seq<(Command, Option<Pipe>)>, comment: Option<string>)

  datatype Ordering = Less | Equal | Greater {
    function Reverse(): Ordering
    {
      match this
      case Less => Greater
      case Equal => Equal
      case Greater => Less
    }
  }

  /**
   * Rust's `Ord` on `str`: lexicographic on UTF-8 bytes, which orders like
   * code points.  A prefix never comes after the text it begins, and only
   * strings of the same length compare `Equal`.
   */
  function CmpString(a: string, b: string): (r: Ordering)
    ensures a <= b ==> r != Greater
    ensures b < a ==> r == Greater
    ensures r == Equal ==> |a| == |b|
  {
    if a == [] && b == [] then Equal
    else if a == [] then Less
    else if b == [] then Greater
    else if a[0] < b[0] then Less
    else if b[0] < a[0] then Greater
    else CmpString(a[1..], b[1..])
  }

  function SpecialVarIndex(v: SpecialVar): nat
  {
    match v
    case ExitStatus => 0
    case Pid => 1
    case BackgroundPid => 2
    case ShellName => 3
  }

  function WordIndex(w: Word): nat
  {
    match w
    case Literal(_) => 0
    case PathLiteral(_) => 1
    case SpecialVar(_) => 2
    case EnvVar(_) => 3
    case ShellVar(_) => 4
  }

  function CmpNat(i: nat, j: nat): Ordering
  {
    if i < j then Less else if j < i then Greater else Equal
  }

  function WordPayload(w: Word): string
  {
    match w
    case Literal(t) => t
    case PathLiteral(t) => t
    case SpecialVar(_) => []
    case EnvVar(n) => n
    case ShellVar(n) => n
  }

  /** The derived `Ord` of `Word`: variant order first, then the payload. */
  function CmpWord(a: Word, b: Word): (r: Ordering)
    ensures WordIndex(a) < WordIndex(b) ==> r == Less
    ensures r == Equal ==> WordIndex(a) == WordIndex(b) && |WordPayload(a)| == |WordPayload(b)|
  {
    if WordIndex(a) != WordIndex(b) then CmpNat(WordIndex(a), WordIndex(b))
    else if a.SpecialVar? then CmpNat(SpecialVarIndex(a.kind), SpecialVarIndex(b.kind))
    else CmpString(WordPayload(a), WordPayload(b))
  }

  /** `Ord for Spanned<T>`: compares only the inner values; the span plays no part. */
  function SpannedCmp<T>(cmp: (T, T) -> Ordering, a: Spanned<T>, b: Spanned<T>): Ordering
  {
    cmp(a.inner, b.inner)
  }

  lemma {:induction false} CmpStringEqual(a: string, b: string)
    ensures CmpString(a, b) == Equal <==> a == b
  {
    if a != [] && b != [] && a[0] == b[0] {
      CmpStringEqual(a[1..], b[1..]);
      assert a == [a[0]] + a[1..];
      assert b == [b[0]] + b[1..];
    }
  }

  lemma {:induction false} CmpStringReverse(a: string, b: string)
    ensures CmpString(b, a) == CmpString(a, b).Reverse()
  {
    if a != [] && b != [] && a[0] == b[0] {
      CmpStringReverse(a[1..], b[1..]);
    }
  }

  lemma {:induction false} CmpStringTransitive(a: string, b: string, c: string)
    requires CmpString(a, b) == Less && CmpString(b, c) == Less
    ensures CmpString(a, c) == Less
  {
    if a != [] && b != [] && c != [] && a[0] == b[0] && b[0] == c[0] {
      CmpStringTransitive(a[1..], b[1..], c[1..]);
    }
  }

  /** The derived order on words is a total order: equal exactly on equal words, ... */
  lemma CmpWordEqual(a: Word, b: Word)
    ensures CmpWord(a, b) == Equal <==> a == b
  {
    CmpStringEqual(WordPayload(a), WordPayload(b));
  }

  /** ... antisymmetric, ... */
  lemma CmpWordReverse(a: Word, b: Word)
    ensures CmpWord(b, a) == CmpWord(a, b).Reverse()
  {
    CmpStringReverse(WordPayload(a), WordPayload(b));
  }

  /** ... and transitive. */
  lemma CmpWordTransitive(a: Word, b: Word, c: Word)
    requires CmpWord(a, b) == Less && CmpWord(b, c) == Less
    ensures CmpWord(a, c) == Less
  {
    if WordIndex(a) == WordIndex(b) == WordIndex(c) && !a.SpecialVar? {
      CmpStringTransitive(WordPayload(a), WordPayload(b), WordPayload(c));
    }
  }

  /**
   * Equality on spanned words (derived `PartialEq`) compares value and span,
   * while the ordering compares only the value: two spanned words are
   * ordered `Equal` exactly when their values are equal, whatever their spans.
   */
  lemma SpannedEqualityVersusOrder(a: Spanned<Word>, b: Spanned<Word>)
    ensures SpannedCmp(CmpWord, a, b) == Equal <==> a.inner == b.inner
    ensures a == b <==> a.inner == b.inner && a.span == b.span
    ensures a.span != b.span ==> a != b
  {
    CmpWordEqual(a.inner, b.inner);
  }

  /** The ordering and the equality of `Spanned` disagree: the same word at two places. */
  lemma SpannedOrderIgnoresSpan()
    ensures var a, b := Spanned(Literal("ls"), Span(0, 2)), Spanned(Literal("ls"), Span(3, 5));
            SpannedCmp(CmpWord, a, b) == Equal && a != b
  {
    var a, b := Spanned(Literal("ls"), Span(0, 2)), Spanned(Literal("ls"), Span(3, 5));
    SpannedEqualityVersusOrder(a, b);
  }
}

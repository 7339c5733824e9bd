/**
 * The line grammar of the Asari shell: one line becomes at most one command
 * (a name word and whitespace-separated argument words) and an optional
 * `#` comment.  Each function takes the whole line `s` and a character-index
 * cursor `pos`, and returns an `Outcome` whose spans and error offsets are
 * byte offsets into `s`.
 */
module Parse {
  import opened Wrappers
  import opened Unicode
  import opened ShellTypes
  import opened ParseErrors
  import opened Winnow
  import opened Impls
  import opened Radix

  // ---------------------------------------------------------------- lexer primitives

  /** `space0`: any run of whitespace, possibly empty. */
  function Space0(s: seq<char>, pos: nat): (r: Outcome<seq<char>>)
    requires pos <= |s|
    ensures r.Parsed? && pos <= r.pos <= |s|
    ensures forall k :: pos <= k < r.pos ==> IsWhitespace(s[k])
    ensures r.pos == |s| || !IsWhitespace(s[r.pos])
  {
    TakeWhile0(s, pos, IsWhitespace)
  }

  /** `space1`: a non-empty run of whitespace. */
  function Space1(s: seq<char>, pos: nat): (r: Outcome<seq<char>>)
    requires pos <= |s|
    ensures r.Parsed? <==> pos < |s| && IsWhitespace(s[pos])
    ensures r.Parsed? ==> pos < r.pos <= |s| && (r.pos == |s| || !IsWhitespace(s[r.pos]))
    ensures r.Parsed? ==> forall k :: pos <= k < r.pos ==> IsWhitespace(s[k])
    ensures !r.Parsed? ==> r == Backtrack(FromInput(s, pos))
  {
    TakeWhile1(s, pos, IsWhitespace)
  }

  // ---------------------------------------------------------------- escapes

  /** `char::from_u32` succeeds exactly on Unicode scalar values: at most U+10FFFF and no surrogate. */
  function IsScalarValue(v: nat): (b: bool)
    ensures b ==> v <= 0x10_FFFF
    ensures 0xD800 <= v <= 0xDFFF ==> !b
    ensures v < 0x80 ==> b
  {
    v < 0xD800 || 0xE000 <= v < 0x11_0000
  }

  /** The mapping of `unicode_number`: hexadecimal text to a character. */
  function DecodeCodePoint(digits: string): (r: Result<char, ParseErrorKind>)
    ensures FromStrRadix16(digits).Err? ==> r == Err(ParseHexError(FromStrRadix16(digits).error))
    ensures FromStrRadix16(digits).Ok? && IsScalarValue(FromStrRadix16(digits).value) ==>
              r.Ok? && r.value as int == FromStrRadix16(digits).value
    ensures FromStrRadix16(digits).Ok? && !IsScalarValue(FromStrRadix16(digits).value) ==>
              r == Err(InvalidUnicodeEscape(InvalidUnicode))
  {
    match FromStrRadix16(digits)
    case Err(k) => Err(ParseHexError(k))
    case Ok(v) => if IsScalarValue(v) then Ok(v as char) else Err(InvalidUnicodeEscape(InvalidUnicode))
  }

  /**
   * `unicode_number`: the text from the cursor up to the first `}` anywhere
   * in the rest of the line, decoded; the `}` itself is left for the caller.
   */
  function UnicodeNumber(s: seq<char>, pos: nat): (r: Outcome<char>)
    requires pos <= |s|
    ensures !r.Cut? && Within(r, pos, |s|)
    ensures r.Parsed? ==> r.pos < |s| && s[r.pos] == '}'
    ensures r.Backtrack? ==> IsEscapeKind(r.err.kind)
  {
    TryMapWithSpan(s, pos,
      MapErrWithSpan(s, pos, TakeUntil0(s, pos, "}"), InvalidUnicodeEscape(NoEndBrace)),
      DecodeCodePoint)
  }

  /**
   * `unicode_escape_char`, from the `u` of `\u{...}`: once the `u` is read
   * every failure is fatal.  A missing `{` is reported just after the `u`;
   * a missing `}`, bad hexadecimal and a value that is no character are
   * reported just after the `{`.
   */
  function UnicodeEscapeChar(s: seq<char>, pos: nat): (r: Outcome<char>)
    requires pos <= |s|
    ensures Consumes(r, pos, |s|)
    ensures r.Backtrack? <==> !(pos < |s| && s[pos] == 'u')
    ensures r.Cut? ==> IsEscapeKind(r.err.kind)
  {
    var (_, p1) :- Char(s, pos, 'u');
    var (_, p2) :- WithCut(MapErrWithSpan(s, p1, Char(s, p1, '{'), InvalidUnicodeEscape(NoBeginBrace)));
    var (c, p3) :- WithCut(UnicodeNumber(s, p2));
    match WithCut(MapErrWithSpan(s, p3, Char(s, p3, '}'), InvalidUnicodeEscape(NoEndBrace)))
    case Parsed(_, p4) => Parsed(c, p4)
    case Backtrack(e) => Backtrack(e)
    case Cut(e) => Cut(e)
  }

  /** The kinds an escape can fail with. */
  predicate IsEscapeKind(k: ParseErrorKind)
  {
    k.UnrecognizedEscape? || k.InvalidUnicodeEscape? || k.ParseHexError?
  }

  /** The one-character escapes of the dispatch table in `escape_char`. */
  function SimpleEscape(c: char): Option<char>
  {
    match c
    case 'n' => Some('\n')
    case 'r' => Some('\r')
    case 't' => Some('\t')
    case '\\' => Some('\\')
    case '"' => Some('"')
    case '\'' => Some('\'')
    case '0' => Some('\0')
    case _ => None
  }

  /**
   * `escape_char`: a backslash and the escape after it.  Without a backslash,
   * or with nothing after it, the escape backtracks; a character the table
   * does not know is a fatal `UnrecognizedEscape` at that character.
   */
  function EscapeChar(s: seq<char>, pos: nat): (r: Outcome<char>)
    requires pos <= |s|
    ensures Consumes(r, pos, |s|)
    ensures r.Backtrack? <==> !(pos + 1 < |s| && s[pos] == '\\')
    ensures r.Cut? ==> IsEscapeKind(r.err.kind)
  {
    var (_, p1) :- Char(s, pos, '\\');
    var (c, _) :- Peek(Any(s, p1), p1);
    if c == 'u' then UnicodeEscapeChar(s, p1)
    else match SimpleEscape(c)
      case Some(d) => Any(s, p1).Map(_ => d)
      case None => WithCut(TryMapWithSpan(s, p1, Any(s, p1), _ => Err(UnrecognizedEscape(c))))
  }

  // ---------------------------------------------------------------- quoted literals

  /** One element of a quoted body: an escape, or any character but the closing quote. */
  function QuoteItem(s: seq<char>, pos: nat, delim: char): (r: Outcome<char>)
    requires pos <= |s| && delim != '\\'
    ensures Consumes(r, pos, |s|)
    ensures r.Backtrack? <==> pos == |s| || s[pos] == delim
    ensures r.Cut? ==> IsEscapeKind(r.err.kind)
  {
    Alt(EscapeChar(s, pos), Verify(s, pos, Any(s, pos), c => c != delim))
  }

  /** `repeat(0.., alt((escape_char, any.verify(..))))`: the decoded body up to the closing quote or the end of the line. */
  function QuotedChars(s: seq<char>, pos: nat, delim: char): (r: Outcome<string>)
    requires pos <= |s| && delim != '\\'
    ensures !r.Backtrack? && Within(r, pos, |s|)
    ensures r.Parsed? ==> r.pos == |s| || s[r.pos] == delim
    ensures r.Cut? ==> IsEscapeKind(r.err.kind)
    decreases |s| - pos
  {
    match QuoteItem(s, pos, delim)
    case Backtrack(_) => Parsed([], pos)
    case Cut(e) => Cut(e)
    case Parsed(c, p) =>
      match QuotedChars(s, p, delim)
      case Parsed(cs, q) => Parsed([c] + cs, q)
      case Backtrack(e) => Backtrack(e)
      case Cut(e) => Cut(e)
  }

  /**
   * `quoted_string` / `double_quoted_string`: an opening quote commits; the
   * body is decoded; a missing closing quote is fatal, reported as `missing`
   * at the end of the line.
   */
  function QuotedString(s: seq<char>, pos: nat, delim: char, missing: ParseErrorKind): (r: Outcome<string>)
    requires pos <= |s| && (delim == '\'' || delim == '"')
    ensures Consumes(r, pos, |s|)
    ensures r.Backtrack? <==> !(pos < |s| && s[pos] == delim)
    ensures r.Backtrack? ==> r == Backtrack(FromInput(s, pos))
    ensures r.Parsed? ==> pos + 2 <= r.pos && s[r.pos - 1] == delim
    ensures r.Cut? ==> IsEscapeKind(r.err.kind) || r.err == At(missing, ByteOffset(s, |s|))
  {
    var (_, p1) :- Char(s, pos, delim);
    var (cs, p2) :- QuotedChars(s, p1, delim);
    var (_, p3) :- WithCut(MapErrWithSpan(s, p2, Char(s, p2, delim), missing));
    Parsed(cs, p3)
  }

  function SingleQuoted(s: seq<char>, pos: nat): (r: Outcome<string>)
    requires pos <= |s|
    ensures r == QuotedString(s, pos, '\'', NoEndQuotation)
  {
    QuotedString(s, pos, '\'', NoEndQuotation)
  }

  function DoubleQuoted(s: seq<char>, pos: nat): (r: Outcome<string>)
    requires pos <= |s|
    ensures r == QuotedString(s, pos, '"', NoEndDoubleQuotation)
  {
    QuotedString(s, pos, '"', NoEndDoubleQuotation)
  }

  // ---------------------------------------------------------------- raw and path literals

  /** The closing delimiter of a raw or path literal opened with `n` `#`s. */
  function Delimiter(n: nat): (d: string)
    ensures |d| == n + 1 && d[0] == '"' && forall k :: 1 <= k <= n ==> d[k] == '#'
  {
    ['"'] + Repeat('#', n)
  }

  predicate IsSharp(c: char)
  {
    c == '#'
  }

  /** Does a complete raw (`lead == 'r'`) or path (`lead == 'p'`) literal start at `pos`? */
  predicate OpensDelimited(s: seq<char>, pos: nat, lead: char)
    requires pos <= |s|
  {
    && pos < |s| && s[pos] == lead
    && var q := RunEnd(s, pos + 1, IsSharp);
       q < |s| && s[q] == '"' && Find(s, q + 1, Delimiter(q - pos - 1)).Some?
  }

  /**
   * The opening of a raw (`lead == 'r'`) or path (`lead == 'p'`) literal:
   * `lead`, a run of `#`s and `"`, giving the closing delimiter the run calls for.
   */
  function DelimitedOpening(s: seq<char>, pos: nat, lead: char): (r: Outcome<string>)
    requires pos <= |s|
    ensures r.Parsed? <==> pos < |s| && s[pos] == lead && RunEnd(s, pos + 1, IsSharp) < |s| && s[RunEnd(s, pos + 1, IsSharp)] == '"'
    ensures r.Parsed? ==> r.pos == RunEnd(s, pos + 1, IsSharp) + 1 && r.value == Delimiter(r.pos - pos - 2)
    ensures !r.Parsed? ==>
      r == Backtrack(FromInput(s, if pos < |s| && s[pos] == lead then RunEnd(s, pos + 1, IsSharp) else pos))
  {
    var (_, p1) :- Char(s, pos, lead);
    var sharp := TakeWhile0(s, p1, IsSharp);
    var p2 := sharp.pos;
    var (_, p3) :- Char(s, p2, '"');
    assert sharp.value == Repeat('#', p2 - p1) by { SharpRunIsRepeat(s, p1, p2); }
    Parsed(['"'] + sharp.value, p3)
  }

  /** A run of `#`s is the `Repeat` of `#` of its length. */
  lemma SharpRunIsRepeat(s: seq<char>, a: nat, b: nat)
    requires a <= b <= |s|
    requires forall k :: a <= k < b ==> IsSharp(s[k])
    ensures s[a..b] == Repeat('#', b - a)
  {
  }

  /** The rest of the literal: the text up to the first `delim`, then `delim` itself. */
  function DelimitedBody(s: seq<char>, pos: nat, delim: string): (r: Outcome<string>)
    requires pos <= |s|
    ensures r.Parsed? <==> Find(s, pos, delim).Some?
    ensures r.Parsed? ==> var e := Find(s, pos, delim).value; r == Parsed(s[pos..e], e + |delim|)
    ensures !r.Parsed? ==> r == Backtrack(FromInput(s, pos))
  {
    var (raw, p4) :- TakeUntil0(s, pos, delim);
    match Tag(s, p4, delim)
    case Parsed(_, p5) => Parsed(raw, p5)
    case Backtrack(e) => Backtrack(e)
    case Cut(e) => Cut(e)
  }

  /**
   * `raw_string` / `path_string`: `lead`, `n` `#`s, `"`, the text verbatim up
   * to the first `"` followed by `n` `#`s, then that delimiter.  It never
   * fails fatally, so the word falls back to other forms.
   */
  function DelimitedLiteral(s: seq<char>, pos: nat, lead: char): (r: Outcome<string>)
    requires pos <= |s|
    ensures !r.Cut? && Consumes(r, pos, |s|)
  {
    var (delim, p3) :- DelimitedOpening(s, pos, lead);
    DelimitedBody(s, p3, delim)
  }

  function RawString(s: seq<char>, pos: nat): (r: Outcome<string>)
    requires pos <= |s|
    ensures r == DelimitedLiteral(s, pos, 'r')
  {
    DelimitedLiteral(s, pos, 'r')
  }

  function PathString(s: seq<char>, pos: nat): (r: Outcome<string>)
    requires pos <= |s|
    ensures r == DelimitedLiteral(s, pos, 'p')
  {
    DelimitedLiteral(s, pos, 'p')
  }

  // ---------------------------------------------------------------- unquoted words

  /** The characters that end an unquoted word; quotes and the `# $ %` marks are not among them. */
  function IsUnquotedStop(c: char): (b: bool)
    ensures c in "#$%\"'rp" ==> !b
    ensures c in "(){}|<>;&" ==> b
  {
    IsWhitespace(c) || c in "(){}|<>;&"
  }

  /** `unquoted_string`: the longest non-empty run of characters that are not stops. */
  function UnquotedString(s: seq<char>, pos: nat): (r: Outcome<string>)
    requires pos <= |s|
    ensures r.Parsed? <==> pos < |s| && !IsUnquotedStop(s[pos])
    ensures r.Parsed? ==> pos < r.pos <= |s| && r.value == s[pos..r.pos]
    ensures r.Parsed? ==> (forall k :: pos <= k < r.pos ==> !IsUnquotedStop(s[k]))
                          && (r.pos == |s| || IsUnquotedStop(s[r.pos]))
    ensures !r.Parsed? ==> r == Backtrack(FromInput(s, pos))
  {
    TakeTill1(s, pos, IsUnquotedStop)
  }

  // ---------------------------------------------------------------- variables

  /** The character after `$` that names each special variable. */
  function SpecialVarOf(c: char): (r: Option<SpecialVar>)
    ensures r.Some? <==> c in "?$!@"
  {
    match c
    case '?' => Some(ExitStatus)
    case '$' => Some(Pid)
    case '!' => Some(BackgroundPid)
    case '@' => Some(ShellName)
    case _ => None
  }

  /** The character that names `v` after `$`. */
  function Sigil(v: SpecialVar): (c: char)
    ensures SpecialVarOf(c) == Some(v)
  {
    match v
    case ExitStatus => '?'
    case Pid => '$'
    case BackgroundPid => '!'
    case ShellName => '@'
  }

  /** Each special variable has one sigil: `SpecialVarOf` and `Sigil` are inverse. */
  lemma SpecialVarOfSigil(c: char)
    ensures SpecialVarOf(c).Some? ==> Sigil(SpecialVarOf(c).value) == c
  {
  }

  /** `special_var`: one of `? $ ! @`; anything else backtracks. */
  function SpecialVariable(s: seq<char>, pos: nat): (r: Outcome<SpecialVar>)
    requires pos <= |s|
    ensures !r.Cut? && Consumes(r, pos, |s|)
    ensures r.Parsed? <==> pos < |s| && SpecialVarOf(s[pos]).Some?
    ensures r.Parsed? ==> r.value == SpecialVarOf(s[pos]).value && r.pos == pos + 1
  {
    var (c, p1) :- Any(s, pos);
    match SpecialVarOf(c)
    case Some(v) => Parsed(v, p1)
    case None => Fail(s, p1)
  }

  /** Can `c` begin an identifier? */
  function IsIdentStart(x: Xid, c: char): (b: bool)
    ensures c == '_' ==> b
    ensures b && c != '_' ==> x.isStart(c)
  {
    c == '_' || x.isStart(c)
  }

  /** The first character of an identifier, checked. */
  function IdentStart(s: seq<char>, pos: nat, x: Xid): (r: Outcome<char>)
    requires pos <= |s|
    ensures r.Parsed? <==> pos < |s| && IsIdentStart(x, s[pos])
    ensures r.Parsed? ==> r.value == s[pos] && r.pos == pos + 1
    ensures !r.Parsed? ==> r == Backtrack(At(NoIdent, ByteOffset(s, pos)))
  {
    TryMapWithSpan(s, pos, MapErrWithSpan(s, pos, Any(s, pos), NoIdent),
      c => if IsIdentStart(x, c) then Ok(c) else Err(NoIdent))
  }

  /** The identifier's first character and the continuation characters after it. */
  function IdentParts(s: seq<char>, pos: nat, x: Xid): (r: Outcome<(char, string)>)
    requires pos <= |s|
    ensures r.Parsed? <==> pos < |s| && IsIdentStart(x, s[pos])
    ensures r.Parsed? ==> r.value.0 == s[pos] && r.pos == RunEnd(s, pos + 1, x.isContinue)
                          && r.value.1 == s[pos + 1..r.pos]
    ensures !r.Parsed? ==> r == Backtrack(At(NoIdent, ByteOffset(s, pos)))
  {
    var (c, p1) :- IdentStart(s, pos, x);
    var cont := TakeWhile0(s, p1, x.isContinue);
    Parsed((c, cont.value), cont.pos)
  }

  /** The final check of `ident`: a lone `_` is not an identifier; anything else is the first character and the rest, joined. */
  function JoinIdent(start: char, cont: string): (r: Result<string, ParseErrorKind>)
    ensures r.Err? <==> start == '_' && cont == []
    ensures r.Err? ==> r.error == InvalidIdent
    ensures r.Ok? ==> r.value != [] && r.value[0] == start && r.value[1..] == cont
  {
    if start == '_' && cont == [] then Err(InvalidIdent) else Ok([start] + cont)
  }

  /**
   * `ident`: `_` or an XID_Start character, then XID_Continue characters.
   * Every failure is fatal and reported at the cursor: a missing or
   * non-starting first character is `NoIdent`, a lone `_` is `InvalidIdent`.
   */
  function Ident(s: seq<char>, pos: nat, x: Xid): (r: Outcome<string>)
    requires pos <= |s|
    ensures !r.Backtrack? && Consumes(r, pos, |s|)
  {
    WithCut(TryMapWithSpan(s, pos, IdentParts(s, pos, x), (parts: (char, string)) => JoinIdent(parts.0, parts.1)))
  }

  // ---------------------------------------------------------------- words

  /** The word forms, chosen by the first character; the cursor is at that character. */
  function WordBody(s: seq<char>, pos: nat, x: Xid): (r: Outcome<Word>)
    requires pos <= |s|
    ensures Consumes(r, pos, |s|)
    ensures pos == |s| ==> r == Backtrack(FromInput(s, pos))
  {
    var (c, _) :- Peek(Any(s, pos), pos);
    if c == '\'' then SingleQuoted(s, pos).Map(t => Literal(t))
    else if c == '"' then DoubleQuoted(s, pos).Map(t => Literal(t))
    else if c == '$' then
      var p1 := Char(s, pos, '$').pos;
      Alt(SpecialVariable(s, p1).Map(v => SpecialVar(v)), Ident(s, p1, x).Map(n => EnvVar(n)))
    else if c == '%' then
      var p1 := Char(s, pos, '%').pos;
      Ident(s, p1, x).Map(n => ShellVar(n))
    else
      Alt(RawString(s, pos).Map(t => Literal(t)),
        Alt(PathString(s, pos).Map(t => PathLiteral(t)),
          UnquotedString(s, pos).Map(t => Literal(t))))
  }

  /** `word`: a word with the byte span of everything it consumed, delimiters included. */
  function Word(s: seq<char>, pos: nat, x: Xid): (r: Outcome<Spanned<Word>>)
    requires pos <= |s|
    ensures Consumes(r, pos, |s|)
    ensures r.Parsed? ==> r.value.span == Span(ByteOffset(s, pos), ByteOffset(s, r.pos))
    ensures r.Parsed? ==> r.value.span.start < r.value.span.end
    ensures r.Backtrack? <==> WordBody(s, pos, x).Backtrack?
    ensures !r.Parsed? ==> !WordBody(s, pos, x).Parsed? && r.err == WordBody(s, pos, x).err
  {
    var o := WordBody(s, pos, x);
    if o.Parsed? then ByteOffsetMonotonic(s, pos, o.pos); WithSpan(s, pos, o)
    else WithSpan(s, pos, o)
  }

  // ---------------------------------------------------------------- commands and lines

  /** One argument: whitespace, a word that does not begin with `#`. */
  function ArgItem(s: seq<char>, pos: nat, x: Xid): (r: Outcome<Spanned<Word>>)
    requires pos <= |s|
    ensures Consumes(r, pos, |s|)
    ensures r.Parsed? ==>
      var q := RunEnd(s, pos, IsWhitespace);
      && pos < q < |s| && s[q] != '#'
      && r == Word(s, q, x)
  {
    var (_, p1) :- Space1(s, pos);
    var (_, _) :- Peek(Not(s, p1, Char(s, p1, '#')), p1);
    Word(s, p1, x)
  }

  /** `repeat(0.., preceded((space1, peek(not('#'))), word))`: the arguments after the name. */
  function Args(s: seq<char>, pos: nat, x: Xid): (r: Outcome<seq<Spanned<Word>>>)
    requires pos <= |s|
    ensures !r.Backtrack? && Within(r, pos, |s|)
    decreases |s| - pos
  {
    match ArgItem(s, pos, x)
    case Backtrack(_) => Parsed([], pos)
    case Cut(e) => Cut(e)
    case Parsed(a, p) =>
      match Args(s, p, x)
      case Parsed(rest, q) => Parsed([a] + rest, q)
      case Backtrack(e) => Backtrack(e)
      case Cut(e) => Cut(e)
  }

  /** `command`: the name word, then the arguments. */
  function CommandP(s: seq<char>, pos: nat, x: Xid): (r: Outcome<Command>)
    requires pos <= |s|
    ensures Consumes(r, pos, |s|)
  {
    var (name, p1) :- Word(s, pos, x);
    var (args, p2) :- Args(s, p1, x);
    Parsed(Command(name, args), p2)
  }

  /** The element of `shell_command`'s repeat: a command that does not begin with `#`, and no pipe. */
  function CommandItem(s: seq<char>, pos: nat, x: Xid): (r: Outcome<(Command, Option<Pipe>)>)
    requires pos <= |s|
    ensures Consumes(r, pos, |s|)
    ensures r.Parsed? ==> pos < |s| && s[pos] != '#' && r.value.1 == None
  {
    var (_, _) :- Peek(Not(s, pos, Char(s, pos, '#')), pos);
    var (c, p) :- CommandP(s, pos, x);
    Parsed((c, None), p)
  }

  /** `repeat(0..=1, ..)`: at most one command. */
  function Commands(s: seq<char>, pos: nat, x: Xid): (r: Outcome<seq<(Command, Option<Pipe>)>>)
    requires pos <= |s|
    ensures !r.Backtrack? && Within(r, pos, |s|)
    ensures r.Parsed? ==> |r.value| <= 1
  {
    match CommandItem(s, pos, x)
    case Parsed(c, p) => Parsed([c], p)
    case Backtrack(_) => Parsed([], pos)
    case Cut(e) => Cut(e)
  }

  /** `comment`: `#` and the rest of the line, verbatim. */
  function Comment(s: seq<char>, pos: nat): (r: Outcome<string>)
    requires pos <= |s|
    ensures r.Parsed? <==> pos < |s| && s[pos] == '#'
    ensures r.Parsed? ==> r.value == s[pos + 1..] && r.pos == |s|
    ensures !r.Parsed? ==> r == Backtrack(FromInput(s, pos))
  {
    var (_, p1) :- Char(s, pos, '#');
    Rest(s, p1)
  }

  /** `opt(preceded(space0, comment))`. */
  function TrailingComment(s: seq<char>, pos: nat): (r: Outcome<Option<string>>)
    requires pos <= |s|
    ensures r.Parsed? && Within(r, pos, |s|)
    ensures var q := RunEnd(s, pos, IsWhitespace);
      if q < |s| && s[q] == '#' then r == Parsed(Some(s[q + 1..]), |s|) else r == Parsed(None, pos)
  {
    var o := Space0(s, pos);
    Opt(Comment(s, o.pos), pos)
  }

  /** `shell_command`: whitespace, at most one command, an optional comment, whitespace. */
  function ShellCommandAt(s: seq<char>, pos: nat, x: Xid): (r: Outcome<ShellCommand>)
    requires pos <= |s|
    ensures !r.Backtrack? && Within(r, pos, |s|)
    ensures r.Parsed? ==> |r.value.commands| <= 1
  {
    var p1 := Space0(s, pos).pos;
    var (commands, p2) :- Commands(s, p1, x);
    var comment := TrailingComment(s, p2);
    var p4 := Space0(s, comment.pos).pos;
    Parsed(ShellCommand(commands, comment.value), p4)
  }

  /**
   * `parse_shell_command`: `shell_command` followed by the end of the line.
   * Text left over is an `Other` error at the first character not consumed.
   */
  function ParseShellCommand(s: seq<char>, x: Xid): (r: Result<ShellCommand, ParseError>)
    ensures r.Ok? ==> |r.value.commands| <= 1
  {
    match ShellCommandAt(s, 0, x)
    case Parsed(sc, p) =>
      (match Eof(s, p)
       case Parsed(_, _) => Ok(sc)
       case Backtrack(e) => Err(e)
       case Cut(e) => Err(e))
    case Backtrack(e) => Err(e)
    case Cut(e) => Err(e)
  }
}

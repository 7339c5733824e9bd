# Asari line parser, modelled in Dafny

Asari is an interactive shell. Its parser turns one input line into a
`ShellCommand`: at most one command and an optional `#` comment. A command is
a name word followed by whitespace-separated argument words. A word is one
of these forms, chosen by its first character:

- a single- or double-quoted literal, with backslash escapes and `\u{HEX}`;
- a raw literal `r#"…"#` or a path literal `p#"…"#`, whose closing delimiter
  repeats the number of `#`s and whose text is taken verbatim;
- a special variable `$?`, `$$`, `$!` or `$@`;
- an environment variable `$name` or a shell variable `%name`;
- an unquoted run.

A sub-parser either succeeds with a value and a new cursor, fails
recoverably (*backtrack*, so an enclosing `alt`, `opt` or `repeat` may try
something else from the saved cursor), or fails fatally (*cut*). Every
successful word carries the byte range it was read from. Every error carries
the byte offset where the failing sub-parser began.

The project has two layers.

- **The grammar as functions** (`Parse`, built on `Winnow`, `Impls`, `Radix`,
  `ParseErrors`). Each rule is a function of the whole line `s` and a
  character-index cursor `pos` that returns an `Outcome`: `Parsed(value, pos)`,
  `Backtrack(err)` or `Cut(err)`. Spans and error offsets are byte offsets,
  computed by `Unicode.ByteOffset` (the UTF-8 size of `s[..pos]`).
- **The grammar as the source runs it** (`Cursor`). The class `Cursor.Input`
  holds the line and one mutable cursor, like `&mut Input`. Its methods
  advance that cursor step by step. Each `repeat` is a `while` loop, and
  every `alt` resets the cursor before trying its next branch. Each method is
  proved to return exactly the outcome of the grammar function its row
  names, and on success to leave the cursor where that outcome says. That is
  the function of the same name, except `Parse.CommandP` for `Command` and
  `Parse.ShellCommandAt` for `ShellCommand`. `SkipSpace` returns nothing and
  moves the cursor to the end of `Parse.Space0`.

The lemma modules state what the grammar does over the input text:

- `EscapeLemmas`: escapes, their errors, and quoted literals as the inverse of
  escaping.
- `WordLemmas`: each word form, raw and path literals, and which forms commit.
- `LineLemmas`: blank lines, comments, leftover text, and the layout of
  arguments.
- `Examples` and `LineExamples`: concrete inputs taken from the repository's
  tests, and from the code where the tests are stale.

The identifier classes XID_Start and XID_Continue are a parameter,
`Unicode.Xid`. The examples use `Examples.AsciiXid`, their restriction to
ASCII. Whitespace is Rust's `char::is_whitespace`, written out.

### Notes on the code's behaviour, its tests and its declared types

- A raw or path literal never fails fatally (`src/parse.rs:252-269` uses no
  `cut`). An unterminated `r"abc` therefore falls back to an unquoted word:
  neither the `#` count nor the opening `"` commits the word.
- Adjacent literals are not concatenated (`"a"b` is not one word). The word
  rule reads exactly one form.
- An error from decoding `\u{…}` (bad hexadecimal, or a value that is not a
  character) is reported at the byte just after the `{`. That is where
  `unicode_number` begins, and `try_map_with_span` reports the offset where
  the parser it wraps began. It is not reported at the `{` itself.
- `#`, `$` and `%` inside an unquoted run do not end it
  (`src/parse.rs:271`). The tests in `src/parse/test.rs:155-159` expect
  otherwise.
- `ParseErrorKind` in `src/parse/error.rs:11-16` lists only
  `InvalidUnicode | NotHex | Other`. The grammar uses `NoIdent`,
  `InvalidIdent`, `UnrecognizedEscape`, `InvalidUnicodeEscape`,
  `ParseHexError`, `NoEndQuotation` and `NoEndDoubleQuotation`. The model's
  `ParseErrorKind` is the set the grammar uses, plus `Other`.
- `ParseError.span` is declared as a range, but the wrappers store one offset
  (`src/parse/tools/impls.rs:87` and `:123`). The model stores the empty
  range at that offset, as `from_input` does.
- `u32::from_str_radix` accepts one leading `+`. So `\u{+41}` is `A`.
- Every error the grammar builds has an empty span, so `ParseError::display`
  never draws a caret: its second line is padding, a space and the kind's
  text (`ParseErrors.DisplayOfPointError`). The padding is `span.start`
  spaces, a byte offset, while the first line is laid out in characters. On a
  line with non-ASCII text before the error the padding runs past the error's
  column (`Examples.PaddingCountsBytes`: on `é x` an error at `x` is padded
  by three spaces, one more than the column of `x`).
- `try_map_with_span` converts the mapping's error with
  `ParseErrorKind::from_external_error` (`src/parse/tools/impls.rs:113` and
  `:124`). `src/parse/error.rs:59-63` implements that conversion only for
  `ParseError`, as the identity, and there is none for `ParseErrorKind`. The
  model reads it as the identity on the kind: the mapping's kind becomes the
  error's kind unchanged.

## Model

| member | source | states |
|---|---|---|
| ParseErrors.At | src/parse/tools/impls.rs:85-88 | a grammar error has the given kind and an empty span starting at the given offset |
| ParseErrors.FromInput | src/parse/error.rs:48-54 | `from_input` gives kind `Other` and the empty range `pos..pos` at the cursor's byte offset |
| ParseErrors.FromExternalError | src/parse/error.rs:59-63 | `from_external_error` returns its error unchanged and ignores the input |
| ParseErrors.ReplaceNewlines | src/parse/error.rs:36 | same length as the input; every `\n` and `\r` becomes a space and every other character is kept |
| ParseErrors.Repeat | src/parse/error.rs:39-40 | `str::repeat` of one character: exactly `n` copies of it |
| ParseErrors.DisplayFirstLine | src/parse/error.rs:36 | the rendering starts with the input, line breaks blanked, then a newline; no line break occurs before it |
| ParseErrors.Display | src/parse/error.rs:34-44 | the rendering has the input's length plus the padding, the carets, the kind text and three separators; it begins with the input with line breaks blanked, and each of its two lines ends in a newline |
| ParseErrors.DisplaySecondLine | src/parse/error.rs:37-42 | the second line is `span.start` spaces, `span.len()` carets, a space, the kind text and a newline; `span.start` counts bytes, so the padding is in bytes, not in the first line's characters |
| ParseErrors.DisplayOfPointError | src/parse/error.rs:37-42 | for an error built at one offset, as every grammar error is, the second line is that many spaces, a space and the kind text, with no caret |
| ShellTypes.CmpString | src/parse.rs:61-69 | the order on the `String` payloads: a prefix never comes after the text it begins, a longer text comes after its own prefix, and `Equal` needs equal lengths |
| ShellTypes.CmpWord | src/parse.rs:61-69 | the derived `Ord` of `Word` puts an earlier variant first, and `Equal` needs the same variant and payloads of equal length |
| ShellTypes.SpannedCmp | src/parse.rs:28-37 | `Ord for Spanned<T>` is the order of the inner values; its properties are stated by the two `Spanned` lemmas below |
| ShellTypes.CmpStringEqual | src/parse.rs:44-48 | the derived order on strings says `Equal` exactly on equal strings |
| ShellTypes.CmpStringReverse | src/parse.rs:44-48 | swapping the operands of the string order reverses the answer |
| ShellTypes.CmpStringTransitive | src/parse.rs:44-48 | the string order is transitive |
| ShellTypes.CmpWordEqual | src/parse.rs:61-69 | the derived `Ord` of `Word` says `Equal` exactly on equal words |
| ShellTypes.CmpWordReverse | src/parse.rs:61-69 | the derived `Ord` of `Word` is antisymmetric |
| ShellTypes.CmpWordTransitive | src/parse.rs:61-69 | the derived `Ord` of `Word` is transitive |
| ShellTypes.SpannedEqualityVersusOrder | src/parse.rs:23-37 | spanned words compare `Equal` exactly when their values are equal, while equality also demands equal spans |
| ShellTypes.SpannedOrderIgnoresSpan | src/parse.rs:23-37 | the same word at two places is ordered `Equal` yet is not equal |
| Impls.WithCut | src/parse/tools/impls.rs:20-29 | `cut` never backtracks: a backtrack becomes a cut with the same error; successes and cuts pass through unchanged |
| Impls.WithSpan | src/parse/tools/impls.rs:41-59 | on success, the value is tagged with the byte range from the start cursor to the end cursor, and start ≤ end; failures keep their severity and error |
| Impls.MapErrWithSpan | src/parse/tools/impls.rs:73-91 | success is unchanged; a failure keeps its severity and is replaced by the mapped kind at the start offset |
| Impls.TryMapWithSpan | src/parse/tools/impls.rs:107-128 | an inner failure passes through; a refused mapping is a backtrack, never a cut, at the start offset with the mapping's kind; an accepted mapping gives its value at the inner cursor |
| Winnow.Outcome.Map | src/parse.rs:214 | `map` changes the value only; the cursor and any failure stay as they are |
| Winnow.Char | src/parse.rs:111 | a character parser succeeds exactly on that character and consumes it; otherwise it backtracks at the cursor |
| Winnow.Tag | src/parse.rs:258 | a string parser succeeds exactly where the string occurs and consumes it; otherwise it backtracks at the cursor |
| Winnow.Any | src/parse.rs:132 | `any` gives the next character and fails only at the end of the line |
| Winnow.Rest | src/parse.rs:198 | `rest` gives the whole remainder and moves to the end |
| Winnow.Eof | src/parse.rs:180 | the end-of-input check that `parse` adds succeeds exactly at the end of the line |
| Winnow.RunEnd | src/parse.rs:91 | the end of the longest run of characters that satisfy the predicate |
| Winnow.TakeWhile0 | src/parse.rs:91 | `take_while(0..)` never fails and returns the longest satisfying run |
| Winnow.TakeWhile1 | src/parse.rs:94 | `take_while(1..)` returns the longest run, and backtracks exactly when that run is empty |
| Winnow.TakeTill1 | src/parse.rs:271 | `take_till(1..)` returns the longest run of non-stop characters, and backtracks exactly when it is empty |
| Winnow.Find | src/parse.rs:257 | the first index at or after the cursor where the text occurs, or none when it occurs nowhere after it |
| Winnow.TakeUntil0 | src/parse.rs:97 | `take_until(0..)` succeeds exactly when the text occurs later; it returns the text before the first occurrence and leaves the occurrence unconsumed |
| Winnow.Fail | src/parse.rs:281 | `fail` backtracks at the cursor |
| Winnow.Alt | src/parse.rs:221-225 | `alt` tries the second branch from the same cursor only when the first backtracks; a cut is final |
| Winnow.Opt | src/parse.rs:190 | `opt` turns a backtrack into `None` at the saved cursor and keeps a cut fatal |
| Winnow.Peek | src/parse.rs:186 | `peek` gives the parser's result with the cursor put back |
| Winnow.Not | src/parse.rs:186 | `not` succeeds without consuming exactly when its parser backtracks |
| Winnow.Verify | src/parse.rs:234 | `verify` keeps a success its predicate accepts and backtracks at the saved cursor on one it refuses |
| Unicode.Utf8Len | src/parse/tools/impls.rs:50-52 | a character takes one to four UTF-8 bytes, one exactly when it is ASCII |
| Unicode.Utf8Size | src/parse/tools/impls.rs:50-52 | a text takes between one and four bytes per character |
| Unicode.Utf8SizeAppend | src/parse/tools/impls.rs:50-52 | the byte size of a concatenation is the sum of the sizes |
| Unicode.ByteOffset | src/parse/tools/impls.rs:50-52 | `current_token_start` and `previous_token_end`: the byte offset of a character index is at least the index and at most four times it, and at the end it is the UTF-8 size of the line |
| Unicode.ByteOffsetStep | src/parse/tools/impls.rs:50-52 | each character moves the byte offset forward by its UTF-8 length |
| Unicode.ByteOffsetMonotonic | src/parse/tools/impls.rs:50-52 | byte offsets strictly increase with the character index, by at least one byte per character |
| Unicode.ByteOffsetPrefix | src/parse/tools/impls.rs:50-52 | a byte offset depends only on the text before it |
| Unicode.AsciiOffset | src/parse/tools/impls.rs:50-52 | on ASCII text, byte offsets equal character indices |
| Radix.DigitValue | src/parse.rs:102 | a hexadecimal digit's value is below 16 |
| Radix.Accumulate | src/parse.rs:102 | the checked digit loop of `from_str_radix`: a success means every character was a hexadecimal digit, the value never shrinks and, once a digit is added, fits in 32 bits; a failure is never `Empty` |
| Radix.Digits | src/parse.rs:102 | `from_str_radix` drops one leading `+`; any other text is scanned as it is |
| Radix.HexRunEnd | src/parse.rs:102 | the length of the longest prefix made of hexadecimal digits |
| Radix.FromStrRadix16 | src/parse.rs:102-103 | `u32::from_str_radix(_, 16)`: empty text is `Empty`, a lone sign is `InvalidDigit`, and otherwise the result is the value of the digits after an optional `+`, or `PosOverflow` / `InvalidDigit` as the left-to-right scan meets them; every value fits in 32 bits |
| Radix.AccumulateMeetsExpected | src/parse.rs:102 | the digit scan with its per-digit overflow check ends exactly as the closed-form description says: overflow of the hexadecimal prefix first, then a bad digit, else the value |
| Radix.HexValuePrefixMonotonic | src/parse.rs:102 | a longer prefix of hexadecimal digits never has a smaller value |
| Radix.HexChar | src/parse.rs:102 | a digit character whose value is the given number |
| Radix.ToHex | src/parse.rs:102 | the hexadecimal text of a number is non-empty and made of hexadecimal digits |
| Radix.ToHexValue | src/parse.rs:102 | the digits `ToHex` writes denote the number |
| Radix.ToHexRoundTrip | src/parse.rs:102-103 | scanning the hexadecimal text of a 32-bit value gives the value back |
| Unicode.IsWhitespace | src/parse.rs:90-95 | `char::is_whitespace`: on ASCII exactly the space and `\t` to `\r`; beyond ASCII only code points from U+0085 to U+3000 |
| Parse.Space0 | src/parse.rs:90-92 | `space0` never fails and consumes exactly the maximal run of whitespace |
| Parse.Space1 | src/parse.rs:93-95 | `space1` consumes the maximal run of whitespace, and backtracks exactly when none is at the cursor |
| Parse.IsScalarValue | src/parse.rs:104 | the test of `char::from_u32`: a scalar value is at most U+10FFFF and is no surrogate, and every ASCII code is one |
| Parse.SimpleEscape | src/parse.rs:132-140 | the one-character table of `escape_char`; `EscapeLemmas.SimpleEscapeTable` states its seven entries and that nothing else is in it |
| Parse.DecodeCodePoint | src/parse.rs:101-107 | a hexadecimal error becomes `ParseHexError` of it; a scalar value becomes that character; any other value is `InvalidUnicode` |
| Parse.UnicodeNumber | src/parse.rs:96-109 | `unicode_number` never cuts, stops just before a `}`, and fails only with an escape kind |
| Parse.UnicodeEscapeChar | src/parse.rs:110-128 | `unicode_escape_char` backtracks exactly when there is no `u`; after the `u` every failure is a cut with an escape kind; a success consumes |
| Parse.EscapeChar | src/parse.rs:129-147 | `escape_char` backtracks exactly when there is no backslash with a character after it; its cuts carry an escape kind |
| Parse.QuoteItem | src/parse.rs:234 | one body element backtracks exactly at the end of the line or at the closing quote |
| Parse.QuotedChars | src/parse.rs:234 | the body loop never backtracks and stops at the closing quote or the end of the line |
| Parse.QuotedString | src/parse.rs:230-251 | a quoted literal backtracks exactly when the opening quote is missing; a success ends with the closing quote; a cut is an escape error or the missing-quote kind at the end of the line |
| Parse.Delimiter | src/parse.rs:256 | the closing delimiter for `n` `#`s is `"` followed by `n` `#`s |
| Parse.DelimitedOpening | src/parse.rs:253-256 | the opening succeeds exactly on the lead, a run of `#`s and `"`, and gives the delimiter with as many `#`s as the run; otherwise it backtracks |
| Parse.SharpRunIsRepeat | src/parse.rs:254 | a run of `#`s is that many `#`s |
| Parse.DelimitedBody | src/parse.rs:257-259 | the body succeeds exactly when the delimiter occurs later; it gives the text before its first occurrence and consumes the delimiter |
| Parse.DelimitedLiteral | src/parse.rs:252-269 | a raw or path literal never cuts, and a success consumes at least one character |
| Parse.IsUnquotedStop | src/parse.rs:271 | the stop set: `(){}<>;&` and the vertical bar stop a word, while quotes, `#`, `$`, `%`, `r` and `p` do not |
| Parse.UnquotedString | src/parse.rs:270-274 | an unquoted word is the maximal non-empty run of characters that are neither whitespace nor a stop (`(`, `)`, `{`, `}`, `<`, `>`, `;`, `&` or the vertical bar), and it backtracks exactly when that run is empty |
| Parse.SpecialVarOf | src/parse.rs:276-282 | exactly `? $ ! @` name a special variable |
| Parse.Sigil | src/parse.rs:276-282 | each special variable has a sigil that names it |
| Parse.SpecialVarOfSigil | src/parse.rs:276-282 | the sigil of the variable a character names is that character, so `SpecialVarOf` and `Sigil` are inverse |
| Parse.SpecialVariable | src/parse.rs:275-284 | `special_var` succeeds exactly on `? $ ! @` with the variable each names, consumes one character, and otherwise backtracks |
| Parse.IsIdentStart | src/parse.rs:153 | `_` always starts an identifier, and any other starting character is XID_Start |
| Parse.IdentStart | src/parse.rs:151-159 | the first identifier character must be `_` or XID_Start, or the parser backtracks with `NoIdent` at the cursor |
| Parse.IdentParts | src/parse.rs:150-161 | the identifier's first character is followed by the maximal run of XID_Continue characters |
| Parse.JoinIdent | src/parse.rs:162-169 | the mapping refuses exactly a lone `_`, with `InvalidIdent`; otherwise the identifier is the first character followed by the rest |
| Parse.Ident | src/parse.rs:148-172 | `ident` never backtracks, and a success consumes at least one character |
| Parse.WordBody | src/parse.rs:212-226 | the dispatched word form consumes on success and backtracks at the end of the line |
| Parse.Word | src/parse.rs:212-229 | `word` gives a non-empty byte span from the start cursor to the end cursor, and fails exactly as its form does |
| Parse.ArgItem | src/parse.rs:203 | an argument is whitespace, then a word that does not start with `#` |
| Parse.Args | src/parse.rs:203-204 | the arguments loop never backtracks and stays within the line |
| Parse.CommandP | src/parse.rs:200-206 | a command consumes at least its name |
| Parse.CommandItem | src/parse.rs:186 | the command-list element does not start with `#` and never carries a pipe |
| Parse.Commands | src/parse.rs:184-188 | `repeat(0..=1, …)` never backtracks and yields at most one command |
| Parse.Comment | src/parse.rs:197-199 | `comment` succeeds exactly on `#` and gives the rest of the line verbatim |
| Parse.TrailingComment | src/parse.rs:190 | after whitespace, a `#` gives the rest of the line; otherwise there is no comment and the cursor stays put |
| Parse.ShellCommandAt | src/parse.rs:182-193 | `shell_command` never backtracks and yields at most one command |
| Parse.ParseShellCommand | src/parse.rs:174-181 | an accepted line has at most one command |
| EscapeLemmas.UnicodeNumberSpec | src/parse.rs:96-109 | without a `}` later in the line the result is `NoEndBrace` at the start; otherwise the text up to the first `}` is decoded, and an error is reported at the start |
| EscapeLemmas.UnicodeEscapeSpec | src/parse.rs:110-128 | a missing `{` is a cut just after the `u`; a missing `}` is a cut `NoEndBrace` just after the `{`; the number's own errors are cuts just after the `{`; otherwise the character, consumed through the `}` |
| EscapeLemmas.SimpleEscapeTable | src/parse.rs:132-140 | exactly `n r t \ " ' 0` are one-character escapes, each standing for its character |
| EscapeLemmas.EscapeCharSpec | src/parse.rs:129-147 | a backslash at the end backtracks; `\u` starts a Unicode escape; a table escape decodes to its character; anything else is a cut `UnrecognizedEscape(c)` at that character |
| EscapeLemmas.EscapeLetterInverts | src/parse.rs:132-140 | the escape letter of a character decodes back to it through the table |
| EscapeLemmas.QuotedCharsDecodes | src/parse.rs:234 | characters written one by one in escaped form, then the closing quote or the end of the line, decode to those characters and stop there |
| EscapeLemmas.QuotedCharsDecodesEscape | src/parse.rs:234 | the escaped text of `t`, then the closing quote or the end of the line, decodes to `t` |
| EscapeLemmas.QuoteItemOfEscape | src/parse.rs:234 | one escaped character is one body item that decodes to it |
| EscapeLemmas.QuotedCharsVerbatim | src/parse.rs:234 | text with no backslash and no closing quote decodes unchanged |
| EscapeLemmas.QuotedCharsToEnd | src/parse.rs:234 | without a closing quote or a backslash, the body runs to the end of the line |
| EscapeLemmas.QuotedRoundTrip | src/parse.rs:230-251 | quoting `t` with its escapes and parsing it back gives `t`, whatever follows |
| EscapeLemmas.MissingQuoteIffBodyToEnd | src/parse.rs:230-251 | for any body, escapes included, an opening quote gives the missing-quote cut at the end-of-line offset exactly when its decoded body runs to the end of the line |
| EscapeLemmas.UnterminatedEscapedQuote | src/parse.rs:230-251 | an opening quote followed by the escaped text of any `t` and nothing else is the missing-quote cut at the end-of-line offset |
| EscapeLemmas.UnterminatedQuote | src/parse.rs:235-237 | an opening quote with neither a closing quote nor a backslash after it is a cut with the missing-quote kind at the end-of-line offset |
| EscapeLemmas.FindCharFirst | src/parse.rs:97 | the first `}` after the cursor is where `take_until` stops |
| EscapeLemmas.FindCharNone | src/parse.rs:97 | a character absent from the rest of the line is not found |
| EscapeLemmas.UnicodeEscapeRoundTrip | src/parse.rs:110-128 | `u{` + the hexadecimal digits of any character + `}` decodes to that character |
| WordLemmas.DelimitedParsed | src/parse.rs:252-259 | with `n` `#`s and the first closing delimiter at `e`, the literal is the text before `e`, consumed through the delimiter |
| WordLemmas.DelimitedUnopened | src/parse.rs:252-259 | without a lead, a `"` after the `#`s and a closing delimiter later, the literal backtracks |
| WordLemmas.DelimitedOpened | src/parse.rs:252-259 | after a complete opening, the literal is its body up to the delimiter the `#` count calls for |
| WordLemmas.DelimitedSpec | src/parse.rs:252-269 | a raw or path literal parses exactly when a complete one opens at the cursor |
| WordLemmas.FirstDelimiterAfter | src/parse.rs:257 | in text free of the delimiter followed by the delimiter, the first delimiter is the one after the text |
| WordLemmas.LaidOutOpens | src/parse.rs:253-257 | a line laid out character by character as a written literal has its `#` run where the count says, and its first delimiter right after the text |
| WordLemmas.LaidOutParses | src/parse.rs:252-259 | such a line parses to the text, consumed through the closing delimiter |
| WordLemmas.DelimitedTextOpens | src/parse.rs:253-257 | a written literal opens with its `#` count, and its first delimiter follows its text |
| WordLemmas.DelimitedRoundTrip | src/parse.rs:252-269 | for any `n`, `lead #ⁿ " t " #ⁿ` parses to `t` verbatim when `t` does not contain the delimiter, whatever follows |
| WordLemmas.DelimitedTextParses | src/parse.rs:252-259 | the round trip, stated for a line equal to the written literal followed by anything |
| WordLemmas.RunEndAt | src/parse.rs:254 | where a run of `#`s ends |
| WordLemmas.IdentSpec | src/parse.rs:148-172 | a missing or non-starting first character is a cut `NoIdent`, a lone `_` a cut `InvalidIdent`, both at the cursor; otherwise the maximal identifier |
| WordLemmas.WordQuoted | src/parse.rs:213-215 | a word starting with a quote is that quoted literal, with its span |
| WordLemmas.WordSpecialVar | src/parse.rs:216-217 | `$` followed by `? $ ! @` is that special variable, two characters long |
| WordLemmas.WordEnvVar | src/parse.rs:216-219 | any other `$` is an environment variable named by an identifier, with the identifier's errors |
| WordLemmas.WordShellVar | src/parse.rs:220 | `%` is a shell variable named by an identifier, with the identifier's errors |
| WordLemmas.WordRaw | src/parse.rs:221-222 | a complete raw literal is read as a `Literal` and always succeeds |
| WordLemmas.WordPath | src/parse.rs:221-223 | a complete path literal is read as a `PathLiteral` and always succeeds |
| WordLemmas.WordRawRoundTrip | src/parse.rs:221-222 | `r`, `n` `#`s, `"`, a text `t` free of the delimiter, `"` and `n` `#`s, then anything, is the word `Literal(t)` spanning the literal's bytes |
| WordLemmas.WordPathRoundTrip | src/parse.rs:221-223 | the same with `p` gives the word `PathLiteral(t)` |
| WordLemmas.WordUnquoted | src/parse.rs:221-225 | everything else, including an `r` or `p` that opens no complete literal, is the unquoted run, and succeeds exactly when the first character is not a stop |
| WordLemmas.WordCommitment | src/parse.rs:212-229 | words starting with a quote or a sigil never backtrack, and no other word ever cuts |
| LineLemmas.BlankLine | src/parse.rs:182-193 | an empty or whitespace-only line gives no command and no comment |
| LineLemmas.CommentOnlyLine | src/parse.rs:182-199 | whitespace, `#` and anything after it give no command and that text as the comment |
| LineLemmas.RunEndOver | src/parse.rs:91 | where a run of whitespace ends |
| LineLemmas.CommentIsSuffix | src/parse.rs:190 | an accepted line's comment is exactly the rest of the line after a `#` |
| LineLemmas.CommentOfShellCommand | src/parse.rs:182-199 | whatever `shell_command` parses, its comment is the rest of the line after a `#` |
| LineLemmas.CommandsOfLine | src/parse.rs:184-188 | `shell_command` succeeds only when its command list does |
| LineLemmas.LeftoverRejected | src/parse.rs:174-181 | text left unconsumed rejects the line with `Other` at the first such character, which is neither whitespace nor `#` |
| LineLemmas.AcceptsWholeLine | src/parse.rs:174-181 | a line is accepted exactly when `shell_command` parses it to its end; a cut is the line's error |
| LineLemmas.ArgItemLayout | src/parse.rs:203 | an argument's span starts after the cursor, follows whitespace, is non-empty and ends at the new cursor |
| LineLemmas.ArgsStep | src/parse.rs:203 | one turn of the arguments loop: stop on a backtrack, or put the argument before the rest; a successful loop had no cut |
| LineLemmas.ArgsLayout | src/parse.rs:203-204 | the arguments are in order, non-overlapping, strictly after the cursor, and each starts after whitespace on a character other than `#` |
| LineLemmas.CommandParts | src/parse.rs:200-206 | a command is its name word followed by the arguments loop |
| LineLemmas.CommandLayout | src/parse.rs:200-206 | the name starts at the cursor, and the name and arguments are in order within the command's span |
| LineLemmas.CommandsOfCommand | src/parse.rs:184-187 | a command not starting with `#` is the one element of the command list |
| LineLemmas.ShellCommandSteps | src/parse.rs:182-193 | `shell_command` is whitespace, the command list, the optional comment and whitespace, in that order |
| LineLemmas.LineOfCommand | src/parse.rs:182-193 | a line starting with a command gives that command and the comment after it |
| LineLemmas.EndOfLine | src/parse.rs:180 | `parse` accepts what `shell_command` gives only at the end of the line, else refuses it at the cursor |
| LineLemmas.CommentAt | src/parse.rs:190 | a `#` after the whitespace gives the rest of the line as the comment |
| LineLemmas.NoCommentAt | src/parse.rs:190 | no `#` after the whitespace gives no comment and keeps the cursor |
| LineLemmas.WholeLine | src/parse.rs:180 | a `shell_command` that reaches the end is the accepted line |
| LineLemmas.PartLine | src/parse.rs:180 | a `shell_command` that stops early is refused at its cursor |
| LineLemmas.LineWithCommandAndComment | src/parse.rs:182-193 | a command, whitespace, then `#`: one command and the rest of the line as the comment |
| LineLemmas.LineWithCommandOnly | src/parse.rs:182-193 | a command with only whitespace after it: one command and no comment |
| LineLemmas.LineWithCommandAndLeftover | src/parse.rs:182-193 | a command followed by text that is neither whitespace nor a comment: refused where that text starts |
| LineLemmas.CommandOfOneArg | src/parse.rs:200-206 | a name and a single argument form that command |
| LineLemmas.ArgItemAt | src/parse.rs:203 | whitespace then a character other than `#` is the word at that character |
| LineLemmas.ArgsEnd | src/parse.rs:203 | without whitespace, or with whitespace followed by `#` or the end of the line, there are no more arguments |
| LineLemmas.ArgsCons | src/parse.rs:203 | one more argument goes in front of the rest |
| LineLemmas.ArgsLast | src/parse.rs:203 | the last argument alone |
| LineLemmas.CommandOf | src/parse.rs:200-206 | a command is its name and its arguments |
| Cursor.ArgItemSteps | src/parse.rs:203 | an argument step by step: whitespace, no `#`, then the word |
| Cursor.ArgsUnfold | src/parse.rs:203 | one turn of the arguments loop, as the imperative loop takes it |
| Cursor.QuotedCharsUnfold | src/parse.rs:234 | one turn of the quoted-body loop, as the imperative loop takes it |
| Cursor.Input.constructor | src/parse.rs:180 | `Input::new`: the line with the cursor at its start |
| Cursor.Input.UnicodeEscapeChar | src/parse.rs:110-128 | reading `u`, `{`, the number and `}` in turn gives the outcome of `Parse.UnicodeEscapeChar`, with the cursor after it on success |
| Cursor.Input.EscapeChar | src/parse.rs:129-147 | gives the outcome of `Parse.EscapeChar`, with the cursor after it on success |
| Cursor.Input.QuotedChars | src/parse.rs:234 | the `repeat` loop, resetting the cursor before `any.verify` and on stopping, gives the outcome of `Parse.QuotedChars` |
| Cursor.Input.QuotedString | src/parse.rs:230-251 | gives the outcome of `Parse.QuotedString`, with the cursor after the closing quote |
| Cursor.Input.DelimitedLiteral | src/parse.rs:252-269 | reading the lead, the `#`s, `"`, the text and the delimiter in turn gives the outcome of `Parse.DelimitedLiteral` |
| Cursor.Input.Ident | src/parse.rs:148-172 | gives the outcome of `Parse.Ident`, with the cursor after the identifier |
| Cursor.Input.WordBody | src/parse.rs:212-226 | the dispatch, resetting the cursor between the raw, path and unquoted alternatives, gives the outcome of `Parse.WordBody` |
| Cursor.Input.Word | src/parse.rs:212-229 | gives the outcome of `Parse.Word`, spanned from the start cursor |
| Cursor.Input.Args | src/parse.rs:203-204 | the `repeat` loop over arguments, resetting the cursor on stopping, gives the outcome of `Parse.Args` |
| Cursor.Input.Command | src/parse.rs:200-206 | gives the outcome of `Parse.CommandP` |
| Cursor.Input.SkipSpace | src/parse.rs:183 | moves the cursor past the run of whitespace |
| Cursor.Input.ShellCommand | src/parse.rs:182-193 | the steps of `shell_command` on the cursor give the outcome of `Parse.ShellCommandAt` |
| Cursor.ParseLine | src/parse.rs:174-181 | parsing from a fresh cursor and demanding the end of the line gives `Parse.ParseShellCommand` |
| Examples.HexExamples | src/parse.rs:102 | `41` and `+41` are 0x41; empty text, a lone `+`, a non-digit and a 33-bit value are the matching errors |
| Examples.UnicodeEscapeDecodes | src/parse/test.rs:42 | `\u{41}` decodes to `A` |
| Examples.UnicodeEscapeAboveRange | src/parse/test.rs:52 | `\u{110000}` is a cut `InvalidUnicode` at byte 3, just after the `{` |
| Examples.UnicodeEscapeSurrogate | src/parse.rs:104-106 | `\u{D800}` is a cut `InvalidUnicode` at byte 3 |
| Examples.UnicodeEscapeEmpty | src/parse/test.rs:53 | `\u{}` is a cut `ParseHexError(Empty)` at byte 3 |
| Examples.UnicodeEscapeNoBeginBrace | src/parse.rs:112-119 | `\u41}` is a cut `NoBeginBrace` at byte 2 |
| Examples.UnicodeEscapeNoEndBrace | src/parse.rs:97-100 | `\u{41` is a cut `NoEndBrace` at byte 3 |
| Examples.UnrecognizedEscapeExample | src/parse.rs:141-143 | `\q` is a cut `UnrecognizedEscape('q')` at byte 1 |
| Examples.UnterminatedQuoteExample | src/parse.rs:235-237 | `'abc` is a cut `NoEndQuotation` at byte 4, the end of the line |
| Examples.RawExample | src/parse/test.rs:107-110 | `r#"say "hello""#` is the word `Literal` of `say "hello"`, spanning bytes 0 to 16 |
| Examples.RawExampleText | src/parse/test.rs:112 | the raw literal of `r###"a"##b"###` is `a"##b`: two `#`s after a quote do not close a three-`#` literal |
| Examples.PaddingCountsBytes | src/parse/error.rs:39 | on `é x` an error at `x` starts at byte 3, so its second line is padded by three spaces although `x` is the third character |
| Examples.NoDelimitedWithoutQuote | src/parse.rs:253-255 | a lead followed by neither `#` nor `"` opens no literal |
| Examples.FallbackR | src/parse/test.rs:169 | `r` is the unquoted word `r` |
| Examples.FallbackP | src/parse/test.rs:170 | `p` is the unquoted word `p` |
| Examples.FallbackRust | src/parse/test.rs:171 | `rust` is the unquoted word `rust` |
| Examples.FallbackPath | src/parse/test.rs:172 | `path` is the unquoted word `path` |
| Examples.UnterminatedRawExample | src/parse.rs:221-225 | `r"abc` has no closing `"`, so it is the unquoted word `r"abc` |
| Examples.UnquotedKeepsMarks | src/parse.rs:271 | `#`, `$`, `%` and `"` inside an unquoted run do not end it |
| Examples.UnquotedWhole | src/parse/test.rs:146-152 | an ASCII word with no stop character that opens no literal is one unquoted word spanning the whole line |
| Examples.IdeographicSpaceEndsWord | src/parse/test.rs:154 | U+3000 ends a word |
| Examples.ExitStatusExample | src/parse.rs:277 | `$?` is `ExitStatus` |
| Examples.PidExample | src/parse.rs:278 | `$$` is `Pid` |
| Examples.EnvVarExample | src/parse.rs:218 | `$PATH` is `EnvVar("PATH")` |
| Examples.ShellVarExample | src/parse.rs:220 | `%HOME` is `ShellVar("HOME")` |
| Examples.UnderscoreIdentExample | src/parse.rs:153 | `$_x` is `EnvVar("_x")` |
| Examples.IdentWhole | src/parse.rs:148-172 | after a sigil, an identifier running to the end of an ASCII line is the whole variable name |
| Examples.RunEndAll | src/parse.rs:160 | a run that reaches the end of the line ends there |
| Examples.UnderscoreVariable | src/parse.rs:163-164 | `$_` is a cut `InvalidIdent` at byte 1 |
| Examples.DigitVariable | src/parse.rs:151-159 | `$1` is a cut `NoIdent` at byte 1 |
| Examples.LonePercent | src/parse.rs:220 | a lone `%` is a cut `NoIdent` at byte 1 |
| LineExamples.AsciiWord | src/parse.rs:270-274 | an unquoted ASCII word from the cursor to the next stop, with its byte span |
| LineExamples.OneArgCommand | src/parse.rs:200-206 | a plain word, one space and a plain word form a command with one argument |
| LineExamples.NameAndArgCommand | src/parse.rs:200-206 | the command of a line starting with two plain words |
| LineExamples.NameAndArgLine | src/parse.rs:182-206 | `a b` is one command with one argument and no comment |
| LineExamples.NameAndArgCommentLine | src/parse.rs:182-206 | `a b #c` is that command with the comment `c` |
| LineExamples.CommentAfterArgument | src/parse.rs:190 | `echo hello # comment` has the argument `hello` and the comment ` comment`, leading space kept |
| LineExamples.HashInsideWord | src/parse.rs:203 | `echo hello#world` has the single argument `hello#world` and no comment |
| LineExamples.NameAndArgLeftover | src/parse.rs:174-181 | `a b` followed by a stop such as `;` is refused with `Other` at that stop |
| LineExamples.PipeIsLeftover | src/parse.rs:194-196 | pipes are not parsed: in `echo a` followed by a vertical bar and `b`, the bar refuses the line at byte 6 |

## Left out

- `src/main.rs`, `src/exec.rs`, `src/builtin.rs`: the read-eval loop, the
  prompt, process spawning and builtin dispatch are I/O and environment.
- `pipe` and `simple_expr` are `todo!()` in the source. No line produces a
  `Pipe`, and a `|` is left over (shown by `LineExamples.PipeIsLeftover`).
- The text of each error kind (`src/parse/error.rs:17-26`) is Japanese or
  `todo!()`. `ParseErrors.Display` takes it as a parameter.
- `Display for Word` (`src/parse.rs:70-78`) is `todo!()` for every variant
  but `Literal`.
- `Display for Spanned` only forwards to the inner value.
- The XID_Start and XID_Continue tables of `unicode_ident` are not part of
  this model. They are the parameter `Xid`.
- The cursor that winnow leaves after a failure is not tracked. Of the
  combinators the grammar uses, `alt`, `opt`, `repeat`, `peek`, `not` and
  `verify` restart from a saved cursor after a backtrack. `delimited`,
  `preceded`, tuples and `try_map_with_span` do not, but any failure they
  pass on is either caught by one of those or ends the parse, and a cut
  always ends the parse. So the `Cursor.Input` methods specify the cursor
  only on success.
- Parse.Ident: the cursor after a refused identifier. `try_map_with_span`
  does not reset the cursor when its mapping fails, so the source's cursor
  stays after the identifier. Nothing reads it, because `ident` always cuts.
- winnow's `repeat` debug assertion that each element consumes input is not
  a branch of the model. Each element's contract proves that it consumes.
- The derived `Ord` on `Command`, `ShellCommand` and `Pipe` is not modelled.
  Nothing in the core compares them.
- The `Parse.*` functions that only forward (`SingleQuoted`, `DoubleQuoted`,
  `RawString`, `PathString`) have no rows of their own. They are
  `QuotedString` and `DelimitedLiteral` with fixed arguments.

/**
 * Concrete lines and what they parse to: escapes and their errors, raw and
 * unquoted words, variables, and whole lines with byte spans.
 */
module Examples {
  import opened Wrappers
  import opened Unicode
  import opened ShellTypes
  import opened ParseErrors
  import opened Winnow
  import opened Radix
  import opened Parse
  import opened EscapeLemmas
  import opened WordLemmas

  /** The identifier tables restricted to ASCII, where UAX #31 makes letters start and letters, digits and `_` continue. */
  function AsciiXid(): Xid
  {
    Xid(c => 'a' <= c <= 'z' || 'A' <= c <= 'Z',
        c => 'a' <= c <= 'z' || 'A' <= c <= 'Z' || '0' <= c <= '9' || c == '_')
  }

  lemma HexExamples()
    ensures FromStrRadix16("41") == Ok(0x41)
    ensures FromStrRadix16("+41") == Ok(0x41)
    ensures FromStrRadix16("") == Err(Empty)
    ensures FromStrRadix16("+") == Err(InvalidDigit)
    ensures FromStrRadix16("4G") == Err(InvalidDigit)
    ensures FromStrRadix16("100000000") == Err(PosOverflow)
  {
    assert Accumulate("1", 4) == Ok(0x41);
    assert Accumulate("41", 0) == Ok(0x41);
    assert Digits("+41") == "41";
    assert Accumulate("G", 4) == Err(InvalidDigit);
    assert Accumulate("4G", 0) == Err(InvalidDigit);
    assert Accumulate("0", 0x1000_0000) == Err(PosOverflow);
    assert Accumulate("00", 0x100_0000) == Err(PosOverflow);
    assert Accumulate("000", 0x10_0000) == Err(PosOverflow);
    assert Accumulate("0000", 0x1_0000) == Err(PosOverflow);
    assert Accumulate("00000", 0x1000) == Err(PosOverflow);
    assert Accumulate("000000", 0x100) == Err(PosOverflow);
    assert Accumulate("0000000", 0x10) == Err(PosOverflow);
    assert Accumulate("00000000", 0x1) == Err(PosOverflow);
    assert Accumulate("100000000", 0) == Err(PosOverflow);
  }

  // `\u{...}` after a backslash, with the cursor on the backslash: errors are
  // reported at the character just after the `u` or the `{`.

  lemma UnicodeEscapeDecodes()
    ensures EscapeChar("\\u{41}", 0) == Parsed('A', 6)
  {
    var a := "\\u{41}";
    FindCharFirst(a, 3, 5, '}');
    assert a[3..5] == "41";
    assert Accumulate("1", 4) == Ok(0x41);
    UnicodeEscapeSpec(a, 1);
  }

  lemma UnicodeEscapeAboveRange()
    ensures EscapeChar("\\u{110000}", 0) == Cut(At(InvalidUnicodeEscape(InvalidUnicode), 3))
  {
    var b := "\\u{110000}";
    AsciiOffset(b, 3);
    FindCharFirst(b, 3, 9, '}');
    assert b[3..9] == "110000";
    assert Accumulate("110000", 0) == Ok(0x110000) by { FirstAboveRange(); }
    UnicodeEscapeSpec(b, 1);
  }

  /** `110000` is read as 0x110000, one above the last code point. */
  lemma FirstAboveRange()
    ensures Accumulate("110000", 0) == Ok(0x110000)
  {
    assert Accumulate("0", 0x11000) == Ok(0x110000);
    assert Accumulate("00", 0x1100) == Ok(0x110000);
    assert Accumulate("000", 0x110) == Ok(0x110000);
    assert Accumulate("0000", 0x11) == Ok(0x110000);
    assert Accumulate("10000", 0x1) == Ok(0x110000);
  }

  lemma UnicodeEscapeSurrogate()
    ensures EscapeChar("\\u{D800}", 0) == Cut(At(InvalidUnicodeEscape(InvalidUnicode), 3))
  {
    var c := "\\u{D800}";
    AsciiOffset(c, 3);
    FindCharFirst(c, 3, 7, '}');
    assert c[3..7] == "D800";
    assert Accumulate("D800", 0) == Ok(0xD800) by {
      assert Accumulate("0", 0xD80) == Ok(0xD800);
      assert Accumulate("00", 0xD8) == Ok(0xD800);
      assert Accumulate("800", 0xD) == Ok(0xD800);
    }
    UnicodeEscapeSpec(c, 1);
  }

  lemma UnicodeEscapeEmpty()
    ensures EscapeChar("\\u{}", 0) == Cut(At(ParseHexError(Empty), 3))
  {
    var d := "\\u{}";
    AsciiOffset(d, 3);
    FindCharFirst(d, 3, 3, '}');
    assert d[3..3] == "";
    UnicodeEscapeSpec(d, 1);
  }

  lemma UnicodeEscapeNoBeginBrace()
    ensures EscapeChar("\\u41}", 0) == Cut(At(InvalidUnicodeEscape(NoBeginBrace), 2))
  {
    var e := "\\u41}";
    AsciiOffset(e, 2);
    UnicodeEscapeSpec(e, 1);
  }

  lemma UnicodeEscapeNoEndBrace()
    ensures EscapeChar("\\u{41", 0) == Cut(At(InvalidUnicodeEscape(NoEndBrace), 3))
  {
    var f := "\\u{41";
    AsciiOffset(f, 3);
    FindCharNone(f, 3, '}');
    UnicodeEscapeSpec(f, 1);
  }

  lemma UnrecognizedEscapeExample()
    ensures EscapeChar("\\q", 0) == Cut(At(UnrecognizedEscape('q'), 1))
  {
    AsciiOffset("\\q", 1);
  }
  lemma UnterminatedQuoteExample()
    ensures Parse.Word("'abc", 0, AsciiXid()) == Cut(At(NoEndQuotation, 4))
  {
    AsciiOffset("'abc", 4);
    UnterminatedQuote("'abc", 0, '\'', NoEndQuotation);
  }

  /** `say "hello"` holds no `"#`, the closing delimiter of a one-`#` literal. */
  lemma SayHelloFree()
    ensures FreeOfDelimiter("say \"hello\"", 1)
  {
    var t := "say \"hello\"";
    forall i | 0 <= i <= |t| ensures !OccursAt(t, i, Delimiter(1)) {
      assert i + 2 <= |t| ==> t[i + 1] != '#';
    }
  }

  /** `r#"say "hello""#`: one `#` lets the body hold quotes. */
  lemma RawExample(s: seq<char>)
    requires s == "r#\"say \"hello\"\"#"
    ensures Parse.Word(s, 0, AsciiXid()) == Parsed(Spanned(Literal("say \"hello\""), Span(0, 16)), 16)
  {
    var t := "say \"hello\"";
    assert s == DelimitedText('r', 1, t) + [] by {
      assert DelimitedText('r', 1, t) == ['r'] + "#" + ['"'] + t + "\"#";
    }
    assert ByteOffset(s, 16) == 16 by { AsciiOffset(s, 16); }
    assert Parse.Word(DelimitedText('r', 1, t) + [], 0, AsciiXid())
      == Parsed(Spanned(Literal(t), Span(0, ByteOffset(DelimitedText('r', 1, t) + [], 16))), 16) by {
      SayHelloFree();
      WordRawRoundTrip(1, t, [], AsciiXid());
    }
  }

  /** `a"##b` holds no `"###`, the closing delimiter of a three-`#` literal. */
  lemma TwoSharpsFree()
    ensures FreeOfDelimiter("a\"##b", 3)
  {
    var t := "a\"##b";
    forall i | 0 <= i <= |t| ensures !OccursAt(t, i, Delimiter(3)) {
      if i == 0 { assert t[0] != '"'; }
      if i == 1 { assert t[4] != '#'; }
    }
  }

  /** The raw literal of `r###"a"##b"###` is `a"##b`: two `#`s after a quote do not close a three-`#` literal. */
  lemma RawExampleText(s: seq<char>)
    requires s == "r###\"a\"##b\"###"
    ensures RawString(s, 0) == Parsed("a\"##b", 14)
  {
    var t := "a\"##b";
    assert s == DelimitedText('r', 3, t) + [];
    TwoSharpsFree();
    DelimitedRoundTrip('r', 3, t, []);
  }

  /** No complete raw or path literal opens with a `r`/`p` that is not followed by `#`s and a `"`. */
  lemma NoDelimitedWithoutQuote(s: seq<char>, lead: char)
    requires 0 < |s| && (|s| == 1 || (s[1] != '#' && s[1] != '"'))
    ensures !OpensDelimited(s, 0, lead)
  {
  }

  // Words that begin like raw or path literals but are not complete ones are unquoted words.

  lemma FallbackR()
    ensures Parse.Word("r", 0, AsciiXid()) == Parsed(Spanned(Literal("r"), Span(0, 1)), 1)
  {
    NoDelimitedWithoutQuote("r", 'r');
    NoDelimitedWithoutQuote("r", 'p');
    UnquotedWhole("r", AsciiXid());
  }

  lemma FallbackP()
    ensures Parse.Word("p", 0, AsciiXid()) == Parsed(Spanned(Literal("p"), Span(0, 1)), 1)
  {
    NoDelimitedWithoutQuote("p", 'r');
    NoDelimitedWithoutQuote("p", 'p');
    UnquotedWhole("p", AsciiXid());
  }

  lemma FallbackRust()
    ensures Parse.Word("rust", 0, AsciiXid()) == Parsed(Spanned(Literal("rust"), Span(0, 4)), 4)
  {
    NoDelimitedWithoutQuote("rust", 'r');
    NoDelimitedWithoutQuote("rust", 'p');
    UnquotedWhole("rust", AsciiXid());
  }

  lemma FallbackPath()
    ensures Parse.Word("path", 0, AsciiXid()) == Parsed(Spanned(Literal("path"), Span(0, 4)), 4)
  {
    NoDelimitedWithoutQuote("path", 'r');
    NoDelimitedWithoutQuote("path", 'p');
    UnquotedWhole("path", AsciiXid());
  }

  /** `r"abc` has no closing `"`, so it is the unquoted word `r"abc`. */
  lemma UnterminatedRawExample(s: seq<char>)
    requires s == "r\"abc"
    ensures Parse.Word(s, 0, AsciiXid()) == Parsed(Spanned(Literal("r\"abc"), Span(0, 5)), 5)
  {
    assert RunEnd(s, 1, IsSharp) == 1;
    FindCharNone(s, 2, '"');
    assert !OpensDelimited(s, 0, 'r');
    UnquotedWhole(s, AsciiXid());
  }

  /** `#`, `$`, `%` and `"` do not end an unquoted word. */
  lemma UnquotedKeepsMarks()
    ensures Parse.Word("a#b$c%d\"e", 0, AsciiXid()) == Parsed(Spanned(Literal("a#b$c%d\"e"), Span(0, 9)), 9)
  {
    UnquotedWhole("a#b$c%d\"e", AsciiXid());
  }

  /** A word of ASCII characters none of which is a stop, not opening a raw or path literal, is one unquoted word. */
  lemma UnquotedWhole(s: seq<char>, x: Xid)
    requires 0 < |s| && !IsCommittingLead(s[0])
    requires !OpensDelimited(s, 0, 'r') && !OpensDelimited(s, 0, 'p')
    requires forall k :: 0 <= k < |s| ==> !IsUnquotedStop(s[k]) && s[k] as int < 0x80
    ensures Parse.Word(s, 0, x) == Parsed(Spanned(Literal(s), Span(0, |s|)), |s|)
  {
    WordUnquoted(s, 0, x);
    AsciiOffset(s, |s|);
    assert s[0..|s|] == s;
  }

  /**
   * On `é x` an error at `x` sits at character 2 but byte 3, so the rendering
   * pads its second line with three spaces and puts the kind text one column
   * further right than the first line's `x` would suggest.
   */
  lemma PaddingCountsBytes(kindText: string)
    ensures var input := "é x"; var e := FromInput(input, 2);
      && e.span.start == 3 && e.span.Len() == 0
      && Display(e, input, kindText) == "é x" + "\n" + "   " + " " + kindText + "\n"
  {
    var input := "é x";
    ByteOffsetStep(input, 0);
    ByteOffsetStep(input, 1);
    assert input[..0] == [];
  }

  /** U+3000 IDEOGRAPHIC SPACE is whitespace and ends a word; the span counts bytes. */
  lemma IdeographicSpaceEndsWord()
    ensures Parse.Word("a　b", 0, AsciiXid()) == Parsed(Spanned(Literal("a"), Span(0, 1)), 1)
  {
    var s := "a　b";
    assert IsUnquotedStop(s[1]);
    WordUnquoted(s, 0, AsciiXid());
    AsciiOffset(s, 1);
    assert s[0..1] == "a";
  }

  lemma ExitStatusExample()
    ensures Parse.Word("$?", 0, AsciiXid()) == Parsed(Spanned(SpecialVar(ExitStatus), Span(0, 2)), 2)
  {
    AsciiOffset("$?", 2);
    AsciiOffset("$?", 0);
    WordSpecialVar("$?", 0, AsciiXid());
  }

  lemma PidExample()
    ensures Parse.Word("$$", 0, AsciiXid()) == Parsed(Spanned(SpecialVar(Pid), Span(0, 2)), 2)
  {
    AsciiOffset("$$", 2);
    AsciiOffset("$$", 0);
    WordSpecialVar("$$", 0, AsciiXid());
  }

  lemma EnvVarExample()
    ensures Parse.Word("$PATH", 0, AsciiXid()) == Parsed(Spanned(EnvVar("PATH"), Span(0, 5)), 5)
  {
    IdentWhole("$PATH", AsciiXid());
    assert "$PATH"[1..] == "PATH";
  }

  lemma ShellVarExample()
    ensures Parse.Word("%HOME", 0, AsciiXid()) == Parsed(Spanned(ShellVar("HOME"), Span(0, 5)), 5)
  {
    IdentWhole("%HOME", AsciiXid());
    assert "%HOME"[1..] == "HOME";
  }

  lemma UnderscoreIdentExample()
    ensures Parse.Word("$_x", 0, AsciiXid()) == Parsed(Spanned(EnvVar("_x"), Span(0, 3)), 3)
  {
    IdentWhole("$_x", AsciiXid());
    assert "$_x"[1..] == "_x";
  }

  /** After the sigil, an identifier running to the end of a line of ASCII. */
  lemma IdentWhole(s: seq<char>, x: Xid)
    requires x == AsciiXid()
    requires 2 < |s| && (s[0] == '$' || s[0] == '%') && SpecialVarOf(s[1]).None?
    requires IsIdentStart(x, s[1]) && forall k :: 2 <= k < |s| ==> x.isContinue(s[k])
    requires forall k :: 0 <= k < |s| ==> s[k] as int < 0x80
    ensures s[0] == '$' ==> Parse.Word(s, 0, x) == Parsed(Spanned(EnvVar(s[1..]), Span(0, |s|)), |s|)
    ensures s[0] == '%' ==> Parse.Word(s, 0, x) == Parsed(Spanned(ShellVar(s[1..]), Span(0, |s|)), |s|)
  {
    IdentSpec(s, 1, x);
    RunEndAll(s, 2, x.isContinue);
    assert s[1..|s|] == s[1..];
    assert Ident(s, 1, x) == Parsed(s[1..], |s|);
    AsciiOffset(s, |s|);
    AsciiOffset(s, 0);
    if s[0] == '$' { WordEnvVar(s, 0, x); } else { WordShellVar(s, 0, x); }
  }

  /** A run that reaches the end of the line. */
  lemma {:induction false} RunEndAll(s: seq<char>, pos: nat, p: char -> bool)
    requires pos <= |s| && forall k :: pos <= k < |s| ==> p(s[k])
    ensures RunEnd(s, pos, p) == |s|
    decreases |s| - pos
  {
    if pos < |s| { RunEndAll(s, pos + 1, p); }
  }

  /** `$_`: `_` cannot start an identifier, so the variable is refused at it. */
  lemma UnderscoreVariable(s: seq<char>)
    requires s == "$_"
    ensures Parse.Word(s, 0, AsciiXid()) == Cut(At(InvalidIdent, 1))
  {
    AsciiOffset(s, 1);
    IdentSpec(s, 1, AsciiXid());
    WordEnvVar(s, 0, AsciiXid());
  }

  /** `$1`: a digit is no identifier at all. */
  lemma DigitVariable(s: seq<char>)
    requires s == "$1"
    ensures Parse.Word(s, 0, AsciiXid()) == Cut(At(NoIdent, 1))
  {
    AsciiOffset(s, 1);
    IdentSpec(s, 1, AsciiXid());
    WordEnvVar(s, 0, AsciiXid());
  }

  /** A lone `%` at the end of the line has no name after it. */
  lemma LonePercent(s: seq<char>)
    requires s == "%"
    ensures Parse.Word(s, 0, AsciiXid()) == Cut(At(NoIdent, 1))
  {
    AsciiOffset(s, 1);
    IdentSpec(s, 1, AsciiXid());
    WordShellVar(s, 0, AsciiXid());
  }
}

/** Whole lines and what they parse to. */
module LineExamples {
  import opened Wrappers
  import opened Unicode
  import opened ShellTypes
  import opened ParseErrors
  import opened Winnow
  import opened Parse
  import opened WordLemmas
  import opened LineLemmas
  import opened Examples

  /** An unquoted ASCII word from `pos` to the stop character at `q` or the end of the line. */
  lemma AsciiWord(s: seq<char>, pos: nat, q: nat, x: Xid)
    requires pos < q <= |s| && !IsCommittingLead(s[pos]) && s[pos] != 'r' && s[pos] != 'p'
    requires forall k :: pos <= k < q ==> !IsUnquotedStop(s[k])
    requires q == |s| || IsUnquotedStop(s[q])
    requires forall k :: 0 <= k < q ==> s[k] as int < 0x80
    ensures Parse.Word(s, pos, x) == Parsed(Spanned(Literal(s[pos..q]), Span(pos, q)), q)
  {
    WordUnquoted(s, pos, x);
    AsciiOffset(s, pos);
    AsciiOffset(s, q);
  }

  /** An ASCII word that is read as itself: no stop characters, and not the start of a comment, quote, variable, raw or path literal. */
  predicate PlainWord(w: seq<char>)
  {
    && 0 < |w| && !IsCommittingLead(w[0]) && w[0] != 'r' && w[0] != 'p' && w[0] != '#'
    && forall k :: 0 <= k < |w| ==> !IsUnquotedStop(w[k]) && w[k] as int < 0x80
  }

  /** The command `a` with the single argument `b`, both plain, spans in bytes. */
  function NameAndArg(a: seq<char>, b: seq<char>): Command
  {
    Command(Spanned(Literal(a), Span(0, |a|)), [Spanned(Literal(b), Span(|a| + 1, |a| + 1 + |b|))])
  }

  /** A line `s` whose first word ends at `p1`, followed by one space and a second word ending at `p2`. */
  lemma OneArgCommand(s: seq<char>, p1: nat, p2: nat, x: Xid)
    requires 0 < p1 && p1 + 1 < p2 <= |s| && s[p1] == ' '
    requires !IsCommittingLead(s[0]) && s[0] != 'r' && s[0] != 'p'
    requires !IsCommittingLead(s[p1 + 1]) && s[p1 + 1] != 'r' && s[p1 + 1] != 'p' && s[p1 + 1] != '#'
    requires forall k :: 0 <= k < p2 && k != p1 ==> !IsUnquotedStop(s[k])
    requires forall k :: 0 <= k < p2 ==> s[k] as int < 0x80
    requires p2 < |s| ==> IsUnquotedStop(s[p2])
    requires var q := RunEnd(s, p2, IsWhitespace); q == p2 || q == |s| || s[q] == '#'
    ensures CommandP(s, 0, x) ==
      Parsed(Command(Spanned(Literal(s[0..p1]), Span(0, p1)), [Spanned(Literal(s[p1 + 1..p2]), Span(p1 + 1, p2))]), p2)
  {
    var name := Spanned(Literal(s[0..p1]), Span(0, p1));
    var arg := Spanned(Literal(s[p1 + 1..p2]), Span(p1 + 1, p2));
    assert Parse.Word(s, 0, x) == Parsed(name, p1) by {
      AsciiWord(s, 0, p1, x);
    }
    assert ArgItem(s, p1, x) == Parsed(arg, p2) by {
      ArgItemAt(s, p1, p1 + 1, x);
      AsciiWord(s, p1 + 1, p2, x);
    }
    assert Args(s, p2, x) == Parsed([], p2) by {
      ArgsEnd(s, p2, x);
    }
    CommandOfOneArg(s, x, name, arg, p1, p2);
  }

  /** The characters of `a + " " + b + rest`, index by index. */
  lemma NameAndArgChars(s: seq<char>, a: seq<char>, b: seq<char>, rest: seq<char>)
    requires s == a + " " + b + rest
    ensures s[0..|a|] == a && s[|a|] == ' ' && s[|a| + 1..|a| + 1 + |b|] == b && s[|a| + 1 + |b|..] == rest
    ensures forall k :: 0 <= k < |a| ==> s[k] == a[k]
    ensures forall k :: |a| < k < |a| + 1 + |b| ==> s[k] == b[k - |a| - 1]
  {
  }

  /** A line that starts with two plain words joined by a space. */
  predicate PlainPairAt(s: seq<char>, a: seq<char>, b: seq<char>)
  {
    PlainWord(a) && PlainWord(b) && |a| + 1 + |b| <= |s|
    && s[0..|a|] == a && s[|a|] == ' ' && s[|a| + 1..|a| + 1 + |b|] == b
  }

  /** The characters of such a line, as `OneArgCommand` needs them. */
  lemma PlainPair(s: seq<char>, a: seq<char>, b: seq<char>)
    requires PlainPairAt(s, a, b)
    ensures !IsCommittingLead(s[0]) && s[0] != 'r' && s[0] != 'p'
    ensures !IsCommittingLead(s[|a| + 1]) && s[|a| + 1] != 'r' && s[|a| + 1] != 'p' && s[|a| + 1] != '#'
    ensures forall k :: 0 <= k < |a| + 1 + |b| && k != |a| ==> !IsUnquotedStop(s[k])
    ensures forall k :: 0 <= k < |a| + 1 + |b| ==> s[k] as int < 0x80
  {
    var p1, p2 := |a|, |a| + 1 + |b|;
    forall k | 0 <= k < p2 && k != p1
      ensures !IsUnquotedStop(s[k]) && s[k] as int < 0x80
    {
      if k < p1 { assert s[k] == s[0..p1][k] == a[k]; } else { assert s[k] == s[p1 + 1..p2][k - p1 - 1] == b[k - p1 - 1]; }
    }
    assert s[0] == s[0..p1][0] == a[0] && s[p1 + 1] == s[p1 + 1..p2][0] == b[0];
  }

  /** The command of a line that starts with two plain words, the second followed by a stop or the end of the line. */
  lemma NameAndArgCommand(s: seq<char>, a: seq<char>, b: seq<char>, x: Xid)
    requires PlainPairAt(s, a, b)
    requires |a| + 1 + |b| < |s| ==> IsUnquotedStop(s[|a| + 1 + |b|])
    requires var q := RunEnd(s, |a| + 1 + |b|, IsWhitespace); q == |a| + 1 + |b| || q == |s| || s[q] == '#'
    ensures CommandP(s, 0, x) == Parsed(NameAndArg(a, b), |a| + 1 + |b|)
  {
    PlainPair(s, a, b);
    OneArgCommand(s, |a|, |a| + 1 + |b|, x);
    NameAndArgShape(s, a, b);
  }

  lemma NameAndArgShape(s: seq<char>, a: seq<char>, b: seq<char>)
    requires |a| + 1 + |b| <= |s| && s[0..|a|] == a && s[|a| + 1..|a| + 1 + |b|] == b
    ensures Command(Spanned(Literal(s[0..|a|]), Span(0, |a|)), [Spanned(Literal(s[|a| + 1..|a| + 1 + |b|]), Span(|a| + 1, |a| + 1 + |b|))])
      == NameAndArg(a, b)
  {
  }

  /** `a b`: one command with one argument and no comment. */
  lemma NameAndArgLine(s: seq<char>, a: seq<char>, b: seq<char>, x: Xid)
    requires PlainWord(a) && PlainWord(b) && s == a + " " + b
    ensures ParseShellCommand(s, x) == Ok(ShellCommand([(NameAndArg(a, b), None)], None))
  {
    assert s == a + " " + b + [];
    assert RunEnd(s, |s|, IsWhitespace) == |s|;
    NameAndArgChars(s, a, b, []);
    NameAndArgCommand(s, a, b, x);
    assert s[0] == a[0];
    LineWithCommandOnly(s, x, NameAndArg(a, b), |s|);
  }

  /** `a b #c`: the comment is `c`, verbatim. */
  lemma NameAndArgCommentLine(s: seq<char>, a: seq<char>, b: seq<char>, c: seq<char>, x: Xid)
    requires PlainWord(a) && PlainWord(b) && s == a + " " + b + " #" + c
    ensures ParseShellCommand(s, x) == Ok(ShellCommand([(NameAndArg(a, b), None)], Some(c)))
  {
    var p2 := |a| + 1 + |b|;
    assert s == a + " " + b + (" #" + c);
    assert s[p2] == ' ' && s[p2 + 1] == '#';
    assert RunEnd(s, p2, IsWhitespace) == p2 + 1 by {
      RunEndOver(s, p2, p2 + 1);
    }
    NameAndArgChars(s, a, b, " #" + c);
    NameAndArgCommand(s, a, b, x);
    assert s[0] == a[0];
    assert s[p2 + 2..] == c;
    LineWithCommandAndComment(s, x, NameAndArg(a, b), p2, p2 + 1);
  }

  /** A `#` after whitespace starts the comment, which keeps its leading space. */
  lemma CommentAfterArgument(s: seq<char>)
    requires s == "echo" + " " + "hello" + " #" + " comment"
    ensures ParseShellCommand(s, AsciiXid()) ==
      Ok(ShellCommand([(Command(Spanned(Literal("echo"), Span(0, 4)), [Spanned(Literal("hello"), Span(5, 10))]), None)],
                      Some(" comment")))
  {
    NameAndArgCommentLine(s, "echo", "hello", " comment", AsciiXid());
    assert NameAndArg("echo", "hello") == Command(Spanned(Literal("echo"), Span(0, 4)), [Spanned(Literal("hello"), Span(5, 10))]);
  }

  /** A `#` inside a word is part of it. */
  lemma HashInsideWord(s: seq<char>)
    requires s == "echo" + " " + "hello#world"
    ensures ParseShellCommand(s, AsciiXid()) ==
      Ok(ShellCommand([(Command(Spanned(Literal("echo"), Span(0, 4)), [Spanned(Literal("hello#world"), Span(5, 16))]), None)],
                      None))
  {
    NameAndArgLine(s, "echo", "hello#world", AsciiXid());
    assert NameAndArg("echo", "hello#world") == Command(Spanned(Literal("echo"), Span(0, 4)), [Spanned(Literal("hello#world"), Span(5, 16))]);
  }

  /** `a b` followed by a stop such as `;` or `|`, which no word can start with: the line is refused there. */
  lemma NameAndArgLeftover(s: seq<char>, a: seq<char>, b: seq<char>, rest: seq<char>, x: Xid)
    requires PlainWord(a) && PlainWord(b) && rest != [] && IsUnquotedStop(rest[0]) && !IsWhitespace(rest[0])
    requires s == a + " " + b + rest
    ensures ParseShellCommand(s, x) == Err(At(Other, |a| + 1 + |b|))
  {
    var p2 := |a| + 1 + |b|;
    assert s[p2..] == rest;
    assert s[p2] == rest[0];
    assert RunEnd(s, p2, IsWhitespace) == p2;
    NameAndArgChars(s, a, b, rest);
    NameAndArgCommand(s, a, b, x);
    assert s[0] == a[0];
    LineWithCommandAndLeftover(s, x, NameAndArg(a, b), p2, p2);
    PlainPair(s, a, b);
    AsciiOffset(s, p2);
  }

  /** Pipes are not parsed: `|` is left over and refuses the line at byte 6. */
  lemma PipeIsLeftover(s: seq<char>)
    requires s == "echo" + " " + "a" + "|b"
    ensures ParseShellCommand(s, AsciiXid()) == Err(At(Other, 6))
  {
    NameAndArgLeftover(s, "echo", "a", "|b", AsciiXid());
  }
}

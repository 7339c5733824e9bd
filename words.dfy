/**
 * What a word parses to, form by form: raw and path literals, identifiers
 * and variables, the unquoted fallback, and which forms commit.
 */
module WordLemmas {
  import opened Wrappers
  import opened Unicode
  import opened ShellTypes
  import opened ParseErrors
  import opened Winnow
  import opened Impls
  import opened Parse
  import opened EscapeLemmas

  /** A literal with `n` `#`s whose closing delimiter starts at `e` is the text before `e`. */
  lemma DelimitedParsed(s: seq<char>, pos: nat, lead: char, n: nat, e: nat)
    requires pos < |s| && s[pos] == lead && RunEnd(s, pos + 1, IsSharp) == pos + 1 + n
    requires pos + 1 + n < |s| && s[pos + 1 + n] == '"' && Find(s, pos + n + 2, Delimiter(n)) == Some(e)
    ensures DelimitedLiteral(s, pos, lead) == Parsed(s[pos + n + 2..e], e + n + 1)
  {
    assert pos + 1 + n + 1 == pos + n + 2;
    DelimitedOpened(s, pos, lead);
  }

  /** Without a lead, a closing quote after the `#`s, or a closing delimiter, the literal backtracks. */
  lemma DelimitedUnopened(s: seq<char>, pos: nat, lead: char)
    requires pos <= |s| && !OpensDelimited(s, pos, lead)
    ensures DelimitedLiteral(s, pos, lead).Backtrack?
  {
  }

  /** After a complete opening, a literal is its body: the text up to the delimiter the opening calls for. */
  lemma DelimitedOpened(s: seq<char>, pos: nat, lead: char)
    requires pos <= |s| && OpensDelimited(s, pos, lead)
    ensures var q := RunEnd(s, pos + 1, IsSharp);
      DelimitedLiteral(s, pos, lead) == DelimitedBody(s, q + 1, Delimiter(q - pos - 1))
  {
    var q := RunEnd(s, pos + 1, IsSharp);
    assert DelimitedOpening(s, pos, lead) == Parsed(Delimiter(q - pos - 1), q + 1);
  }

  /** A raw or path literal parses exactly when a complete one opens at the cursor. */
  lemma DelimitedSpec(s: seq<char>, pos: nat, lead: char)
    requires pos <= |s|
    ensures DelimitedLiteral(s, pos, lead).Parsed? <==> OpensDelimited(s, pos, lead)
  {
    if OpensDelimited(s, pos, lead) {
      DelimitedOpened(s, pos, lead);
    } else {
      DelimitedUnopened(s, pos, lead);
    }
  }

  /** The closing delimiter does not occur anywhere inside `t`. */
  predicate FreeOfDelimiter(t: string, n: nat)
  {
    forall i :: 0 <= i <= |t| ==> !OccursAt(t, i, Delimiter(n))
  }

  /** The text of a raw or path literal written with `n` `#`s. */
  function DelimitedText(lead: char, n: nat, t: string): string
  {
    [lead] + Repeat('#', n) + ['"'] + t + Delimiter(n)
  }

  /** In `t` followed by the delimiter, the first delimiter is the one after `t`. */
  lemma FirstDelimiterAfter(s: seq<char>, a: nat, t: string, n: nat)
    requires FreeOfDelimiter(t, n)
    requires a + |t| + n + 1 <= |s|
    requires s[a..a + |t|] == t && s[a + |t|..a + |t| + n + 1] == Delimiter(n)
    ensures Find(s, a, Delimiter(n)) == Some(a + |t|)
  {
    var d := Delimiter(n);
    var e := a + |t|;
    forall j | a <= j < e ensures !OccursAt(s, j, d) {
      var i := j - a;
      if i + n + 1 <= |t| {
        forall k | j <= k < j + n + 1 ensures s[k] == t[k - a] {
          assert s[a..a + |t|][k - a] == t[k - a];
        }
        assert s[j..j + n + 1] == t[i..i + n + 1];
        assert !OccursAt(t, i, d);
      } else {
        assert 1 <= e - j <= n && d[e - j] == '#' && s[e] == '"';
        assert j + |d| <= |s| ==> s[j..j + |d|][e - j] == s[e];
      }
    }
    FindFirst(s, a, e, d);
  }

  /** The characters of `DelimitedText(lead, n, t) + rest`. */
  lemma DelimitedTextChars(s: seq<char>, lead: char, n: nat, t: string, rest: seq<char>)
    requires s == DelimitedText(lead, n, t) + rest
    ensures |DelimitedText(lead, n, t)| == |t| + 2 * n + 3 && |s| == |t| + 2 * n + 3 + |rest|
    ensures s[0] == lead && (forall k :: 1 <= k <= n ==> s[k] == '#') && s[n + 1] == '"'
    ensures s[n + 2..n + 2 + |t|] == t && s[n + 2 + |t|..n + 2 + |t| + n + 1] == Delimiter(n)
  {
    var open := [lead] + Repeat('#', n) + ['"'];
    assert DelimitedText(lead, n, t) == open + t + Delimiter(n);
    assert s == open + (t + (Delimiter(n) + rest));
    assert forall k :: 1 <= k <= n ==> s[k] == open[k];
  }

  /** A line laid out as a written literal opens one whose first delimiter is the one after `t`. */
  lemma LaidOutOpens(s: seq<char>, lead: char, n: nat, t: string)
    requires lead != '#' && FreeOfDelimiter(t, n)
    requires |t| + 2 * n + 3 <= |s|
    requires s[0] == lead && (forall k :: 1 <= k <= n ==> s[k] == '#') && s[n + 1] == '"'
    requires s[n + 2..n + 2 + |t|] == t && s[n + 2 + |t|..n + 2 + |t| + n + 1] == Delimiter(n)
    ensures RunEnd(s, 1, IsSharp) == n + 1
    ensures Find(s, n + 2, Delimiter(n)) == Some(n + 2 + |t|)
  {
    RunEndAt(s, 1, n + 1);
    FirstDelimiterAfter(s, n + 2, t, n);
  }

  /** `DelimitedText(lead, n, t) + rest` opens a literal whose first delimiter is the one after `t`. */
  lemma DelimitedTextOpens(s: seq<char>, lead: char, n: nat, t: string, rest: seq<char>)
    requires lead != '#'
    requires FreeOfDelimiter(t, n)
    requires s == DelimitedText(lead, n, t) + rest
    ensures n + 2 <= |s| && RunEnd(s, 1, IsSharp) == n + 1 && s[n + 1] == '"'
    ensures Find(s, n + 2, Delimiter(n)) == Some(n + 2 + |t|) && s[n + 2..n + 2 + |t|] == t
  {
    DelimitedTextChars(s, lead, n, t, rest);
    LaidOutOpens(s, lead, n, t);
  }

  /** Writing `t` between delimiters it does not contain and parsing it back gives `t`. */
  lemma DelimitedRoundTrip(lead: char, n: nat, t: string, rest: seq<char>)
    requires lead != '#'
    requires FreeOfDelimiter(t, n)
    ensures var s := DelimitedText(lead, n, t) + rest;
            DelimitedLiteral(s, 0, lead) == Parsed(t, |DelimitedText(lead, n, t)|)
  {
    DelimitedTextParses(DelimitedText(lead, n, t) + rest, lead, n, t, rest);
  }

  /** A line laid out as a written literal parses to `t`, consumed through the closing delimiter. */
  lemma LaidOutParses(s: seq<char>, lead: char, n: nat, t: string)
    requires lead != '#' && FreeOfDelimiter(t, n)
    requires |t| + 2 * n + 3 <= |s|
    requires s[0] == lead && (forall k :: 1 <= k <= n ==> s[k] == '#') && s[n + 1] == '"'
    requires s[n + 2..n + 2 + |t|] == t && s[n + 2 + |t|..n + 2 + |t| + n + 1] == Delimiter(n)
    ensures DelimitedLiteral(s, 0, lead) == Parsed(t, |t| + 2 * n + 3)
  {
    LaidOutOpens(s, lead, n, t);
    DelimitedParsed(s, 0, lead, n, n + 2 + |t|);
  }

  lemma DelimitedTextParses(s: seq<char>, lead: char, n: nat, t: string, rest: seq<char>)
    requires lead != '#'
    requires FreeOfDelimiter(t, n)
    requires s == DelimitedText(lead, n, t) + rest
    ensures DelimitedLiteral(s, 0, lead) == Parsed(t, |DelimitedText(lead, n, t)|)
  {
    DelimitedTextChars(s, lead, n, t, rest);
    LaidOutParses(s, lead, n, t);
  }

  /** Where a run of `#`s ends. */
  lemma RunEndAt(s: seq<char>, a: nat, b: nat)
    requires a <= b < |s|
    requires forall k :: a <= k < b ==> s[k] == '#'
    requires s[b] != '#'
    ensures RunEnd(s, a, IsSharp) == b
    decreases b - a
  {
    if a < b { RunEndAt(s, a + 1, b); }
  }

  /** `ident` over the text: `NoIdent` without a starting character, `InvalidIdent` for a lone `_`, else the maximal identifier. */
  lemma IdentSpec(s: seq<char>, pos: nat, x: Xid)
    requires pos <= |s|
    ensures !(pos < |s| && IsIdentStart(x, s[pos])) ==> Ident(s, pos, x) == Cut(At(NoIdent, ByteOffset(s, pos)))
    ensures pos < |s| && IsIdentStart(x, s[pos]) ==>
      var q := RunEnd(s, pos + 1, x.isContinue);
      if s[pos] == '_' && q == pos + 1 then Ident(s, pos, x) == Cut(At(InvalidIdent, ByteOffset(s, pos)))
      else Ident(s, pos, x) == Parsed(s[pos..q], q)
  {
    if pos < |s| && IsIdentStart(x, s[pos]) {
      var q := RunEnd(s, pos + 1, x.isContinue);
      var o := IdentParts(s, pos, x);
      assert o == Parsed((s[pos], s[pos + 1..q]), q);
      var j := JoinIdent(s[pos], s[pos + 1..q]);
      if j.Ok? {
        assert j.value == s[pos..q] by { assert [s[pos]] + s[pos + 1..q] == s[pos..q]; }
      }
    }
  }

  /** A word's outcome from the outcome of the form it was read as, with its byte span attached. */
  predicate SpannedAs(s: seq<char>, pos: nat, r: Outcome<Spanned<Word>>, o: Outcome<Word>)
    requires pos <= |s|
  {
    match o
    case Parsed(w, q) => q <= |s| && r == Parsed(Spanned(w, Span(ByteOffset(s, pos), ByteOffset(s, q))), q)
    case Backtrack(e) => r == Backtrack(e)
    case Cut(e) => r == Cut(e)
  }

  /** A quoted word is the quoted literal it starts with, with its byte span. */
  lemma WordQuoted(s: seq<char>, pos: nat, x: Xid)
    requires pos < |s| && (s[pos] == '\'' || s[pos] == '"')
    ensures s[pos] == '\'' ==> SpannedAs(s, pos, Parse.Word(s, pos, x), SingleQuoted(s, pos).Map(t => Literal(t)))
    ensures s[pos] == '"' ==> SpannedAs(s, pos, Parse.Word(s, pos, x), DoubleQuoted(s, pos).Map(t => Literal(t)))
  {
  }

  /** `$` followed by `? $ ! @` is that special variable, two characters long. */
  lemma WordSpecialVar(s: seq<char>, pos: nat, x: Xid)
    requires pos + 1 < |s| && s[pos] == '$' && SpecialVarOf(s[pos + 1]).Some?
    ensures Parse.Word(s, pos, x) ==
      Parsed(Spanned(SpecialVar(SpecialVarOf(s[pos + 1]).value), Span(ByteOffset(s, pos), ByteOffset(s, pos + 2))), pos + 2)
  {
  }

  /** Any other `$` is an environment variable whose name is an identifier; its errors are the identifier's. */
  lemma WordEnvVar(s: seq<char>, pos: nat, x: Xid)
    requires pos < |s| && s[pos] == '$' && !(pos + 1 < |s| && SpecialVarOf(s[pos + 1]).Some?)
    ensures SpannedAs(s, pos, Parse.Word(s, pos, x), Ident(s, pos + 1, x).Map(n => EnvVar(n)))
  {
  }

  /** `%` is a shell variable whose name is an identifier; its errors are the identifier's. */
  lemma WordShellVar(s: seq<char>, pos: nat, x: Xid)
    requires pos < |s| && s[pos] == '%'
    ensures SpannedAs(s, pos, Parse.Word(s, pos, x), Ident(s, pos + 1, x).Map(n => ShellVar(n)))
  {
  }

  /** Does `c` begin a form that commits: a quote or a variable? */
  predicate IsCommittingLead(c: char)
  {
    c == '\'' || c == '"' || c == '$' || c == '%'
  }

  /** A complete raw literal is read as one, with its text verbatim. */
  lemma WordRaw(s: seq<char>, pos: nat, x: Xid)
    requires pos <= |s| && OpensDelimited(s, pos, 'r')
    ensures SpannedAs(s, pos, Parse.Word(s, pos, x), RawString(s, pos).Map(t => Literal(t)))
    ensures Parse.Word(s, pos, x).Parsed?
  {
    DelimitedSpec(s, pos, 'r');
  }

  /** A complete path literal is read as one. */
  lemma WordPath(s: seq<char>, pos: nat, x: Xid)
    requires pos <= |s| && OpensDelimited(s, pos, 'p')
    ensures SpannedAs(s, pos, Parse.Word(s, pos, x), PathString(s, pos).Map(t => PathLiteral(t)))
    ensures Parse.Word(s, pos, x).Parsed?
  {
    DelimitedSpec(s, pos, 'p');
  }

  /** A raw literal written around delimiter-free text `t`, with anything after it, is the word `Literal(t)`. */
  lemma WordRawRoundTrip(n: nat, t: string, rest: seq<char>, x: Xid)
    requires FreeOfDelimiter(t, n)
    ensures var s, m := DelimitedText('r', n, t) + rest, |DelimitedText('r', n, t)|;
            m <= |s| && Parse.Word(s, 0, x) == Parsed(Spanned(Literal(t), Span(0, ByteOffset(s, m))), m)
  {
    var s := DelimitedText('r', n, t) + rest;
    DelimitedTextParses(s, 'r', n, t, rest);
    DelimitedSpec(s, 0, 'r');
    WordRaw(s, 0, x);
    assert s[..0] == [];
  }

  /** A path literal written around delimiter-free text `t`, with anything after it, is the word `PathLiteral(t)`. */
  lemma WordPathRoundTrip(n: nat, t: string, rest: seq<char>, x: Xid)
    requires FreeOfDelimiter(t, n)
    ensures var s, m := DelimitedText('p', n, t) + rest, |DelimitedText('p', n, t)|;
            m <= |s| && Parse.Word(s, 0, x) == Parsed(Spanned(PathLiteral(t), Span(0, ByteOffset(s, m))), m)
  {
    var s := DelimitedText('p', n, t) + rest;
    DelimitedTextParses(s, 'p', n, t, rest);
    DelimitedSpec(s, 0, 'p');
    WordPath(s, 0, x);
    assert s[..0] == [];
  }

  /**
   * Everything else, including an `r` or `p` that does not open a complete
   * literal, is an unquoted word: the maximal run of non-stop characters.
   */
  lemma WordUnquoted(s: seq<char>, pos: nat, x: Xid)
    requires pos < |s| && !IsCommittingLead(s[pos])
    requires !OpensDelimited(s, pos, 'r') && !OpensDelimited(s, pos, 'p')
    ensures SpannedAs(s, pos, Parse.Word(s, pos, x), UnquotedString(s, pos).Map(t => Literal(t)))
    ensures Parse.Word(s, pos, x).Parsed? <==> !IsUnquotedStop(s[pos])
  {
    DelimitedSpec(s, pos, 'r');
    DelimitedSpec(s, pos, 'p');
  }

  /** Only quotes and variables commit: they never backtrack, and nothing else ever fails fatally. */
  lemma WordCommitment(s: seq<char>, pos: nat, x: Xid)
    requires pos <= |s|
    ensures pos < |s| && IsCommittingLead(s[pos]) ==> !Parse.Word(s, pos, x).Backtrack?
    ensures Parse.Word(s, pos, x).Cut? ==> pos < |s| && IsCommittingLead(s[pos])
  {
    if pos < |s| && s[pos] == '$' && !(pos + 1 < |s| && SpecialVarOf(s[pos + 1]).Some?) {
      WordEnvVar(s, pos, x);
    }
  }
}

/**
 * What the escape decoder and the quoted-literal grammar do, stated over the
 * input text: the `\u{...}` error cases, the one-character escape table, and
 * decoding a quoted literal as the inverse of escaping it.
 */
module EscapeLemmas {
  import opened Wrappers
  import opened Unicode
  import opened ShellTypes
  import opened ParseErrors
  import opened Winnow
  import opened Impls
  import opened Radix
  import opened Parse

  /** `unicode_number` decodes the text up to the first `}` of the rest of the line, or reports `NoEndBrace` at its start. */
  lemma UnicodeNumberSpec(s: seq<char>, pos: nat)
    requires pos <= |s|
    ensures Find(s, pos, "}").None? ==>
              UnicodeNumber(s, pos) == Backtrack(At(InvalidUnicodeEscape(NoEndBrace), ByteOffset(s, pos)))
    ensures Find(s, pos, "}").Some? ==>
      var q := Find(s, pos, "}").value;
      match DecodeCodePoint(s[pos..q])
      case Ok(c) => UnicodeNumber(s, pos) == Parsed(c, q)
      case Err(k) => UnicodeNumber(s, pos) == Backtrack(At(k, ByteOffset(s, pos)))
  {
    var t := TakeUntil0(s, pos, "}");
    assert t.Parsed? <==> Find(s, pos, "}").Some?;
  }

  /**
   * `\u{...}` from its `u`: a missing `{` is fatal just after the `u`; with
   * no `}` anywhere after the `{`, `NoEndBrace`; bad hexadecimal and code
   * points that are no character are fatal just after the `{`.
   */
  lemma UnicodeEscapeSpec(s: seq<char>, pos: nat)
    requires pos < |s| && s[pos] == 'u'
    ensures !(pos + 1 < |s| && s[pos + 1] == '{') ==>
              UnicodeEscapeChar(s, pos) == Cut(At(InvalidUnicodeEscape(NoBeginBrace), ByteOffset(s, pos + 1)))
    ensures pos + 1 < |s| && s[pos + 1] == '{' ==>
      match Find(s, pos + 2, "}")
      case None => UnicodeEscapeChar(s, pos) == Cut(At(InvalidUnicodeEscape(NoEndBrace), ByteOffset(s, pos + 2)))
      case Some(q) =>
        match DecodeCodePoint(s[pos + 2..q])
        case Ok(c) => UnicodeEscapeChar(s, pos) == Parsed(c, q + 1)
        case Err(k) => UnicodeEscapeChar(s, pos) == Cut(At(k, ByteOffset(s, pos + 2)))
  {
    if pos + 1 < |s| && s[pos + 1] == '{' {
      UnicodeNumberSpec(s, pos + 2);
    }
  }

  /** The escape table: the character each one-character escape stands for. */
  lemma SimpleEscapeTable(c: char)
    ensures SimpleEscape(c).Some? <==> c in "nrt\\\"'0"
    ensures SimpleEscape('n') == Some('\n') && SimpleEscape('r') == Some('\r') && SimpleEscape('t') == Some('\t')
    ensures SimpleEscape('\\') == Some('\\') && SimpleEscape('"') == Some('"')
    ensures SimpleEscape('\'') == Some('\'') && SimpleEscape('0') == Some('\0')
  {
  }

  /**
   * `escape_char`: a backslash at the end of the line backtracks; `\u`
   * starts a Unicode escape; a one-character escape decodes by the table;
   * anything else is a fatal `UnrecognizedEscape` at that character.
   */
  lemma EscapeCharSpec(s: seq<char>, pos: nat)
    requires pos < |s| && s[pos] == '\\'
    ensures pos + 1 == |s| ==> EscapeChar(s, pos) == Backtrack(FromInput(s, pos + 1))
    ensures pos + 1 < |s| ==>
      var c := s[pos + 1];
      if c == 'u' then EscapeChar(s, pos) == UnicodeEscapeChar(s, pos + 1)
      else if SimpleEscape(c).Some? then EscapeChar(s, pos) == Parsed(SimpleEscape(c).value, pos + 2)
      else EscapeChar(s, pos) == Cut(At(UnrecognizedEscape(c), ByteOffset(s, pos + 1)))
  {
  }

  /** The escape letter for each character the table can produce. */
  function EscapeLetter(c: char): Option<char>
  {
    match c
    case '\n' => Some('n')
    case '\r' => Some('r')
    case '\t' => Some('t')
    case '\\' => Some('\\')
    case '"' => Some('"')
    case '\'' => Some('\'')
    case '\0' => Some('0')
    case _ => None
  }

  /** How one character is written inside quotes: its escape when the table covers it, else itself. */
  function EscapeOf(c: char): (e: string)
    ensures 1 <= |e| <= 2
  {
    match EscapeLetter(c) case Some(l) => ['\\', l] case None => [c]
  }

  /** The escaping used to write `t` inside quotes: every character the table covers becomes its escape. */
  function Escape(t: string): (e: string)
    ensures |t| <= |e|
  {
    if t == [] then [] else EscapeOf(t[0]) + Escape(t[1..])
  }

  /** `EscapeLetter` inverts the escape table, and no escaped character needs `\u`. */
  lemma EscapeLetterInverts(c: char)
    ensures EscapeLetter(c).Some? ==> EscapeLetter(c).value != 'u' && SimpleEscape(EscapeLetter(c).value) == Some(c)
    ensures EscapeLetter(c).None? ==> c != '\\' && c != '"' && c != '\''
  {
  }

  /** `s` holds, from `pos` to `q`, the characters of `t` each written as `EscapeOf` writes it. */
  predicate EscapedAt(s: seq<char>, pos: nat, t: string, q: nat)
    decreases |t|
  {
    if t == [] then pos == q
    else
      var p := pos + |EscapeOf(t[0])|;
      p <= |s| && s[pos..p] == EscapeOf(t[0]) && EscapedAt(s, p, t[1..], q)
  }

  /** `Escape(t)` occurring at `pos` is `t` written character by character up to `pos + |Escape(t)|`. */
  lemma {:induction false} EscapeOccurs(s: seq<char>, pos: nat, t: string)
    requires pos + |Escape(t)| <= |s| && s[pos..pos + |Escape(t)|] == Escape(t)
    ensures EscapedAt(s, pos, t, pos + |Escape(t)|)
    decreases |t|
  {
    if t != [] {
      var head := EscapeOf(t[0]);
      assert Escape(t) == head + Escape(t[1..]);
      SliceSplit(s, pos, head, Escape(t[1..]));
      EscapeOccurs(s, pos + |head|, t[1..]);
      assert pos + |head| + |Escape(t[1..])| == pos + |Escape(t)|;
    }
  }

  /** Characters written as `EscapeOf` writes them, then the closing quote or the end of the line, decode to those characters. */
  lemma {:induction false} QuotedCharsDecodes(s: seq<char>, pos: nat, delim: char, t: string, q: nat)
    requires delim == '\'' || delim == '"'
    requires q <= |s| && (q == |s| || s[q] == delim) && EscapedAt(s, pos, t, q)
    ensures QuotedChars(s, pos, delim) == Parsed(t, q)
    decreases |t|
  {
    if t == [] {
      assert QuoteItem(s, pos, delim).Backtrack?;
    } else {
      var p := pos + |EscapeOf(t[0])|;
      QuoteItemOfEscape(s, pos, delim, t[0]);
      QuotedCharsDecodes(s, p, delim, t[1..], q);
      QuotedCharsCons(s, pos, delim, t[0], p, t[1..], q);
      assert [t[0]] + t[1..] == t;
    }
  }

  /**
   * The body of a quoted literal: `Escape(t)` followed by the closing quote
   * or the end of the line decodes back to `t`, stopping just after it.
   */
  lemma QuotedCharsDecodesEscape(s: seq<char>, pos: nat, delim: char, t: string)
    requires delim == '\'' || delim == '"'
    requires pos + |Escape(t)| <= |s| && s[pos..pos + |Escape(t)|] == Escape(t)
    requires pos + |Escape(t)| == |s| || s[pos + |Escape(t)|] == delim
    ensures QuotedChars(s, pos, delim) == Parsed(t, pos + |Escape(t)|)
  {
    EscapeOccurs(s, pos, t);
    QuotedCharsDecodes(s, pos, delim, t, pos + |Escape(t)|);
  }

  /** Where `a + b` occurs in `s`, `a` occurs and `b` occurs right after it. */
  lemma SliceSplit(s: seq<char>, pos: nat, a: seq<char>, b: seq<char>)
    requires pos + |a + b| <= |s| && s[pos..pos + |a + b|] == a + b
    ensures s[pos..pos + |a|] == a && s[pos + |a|..pos + |a| + |b|] == b
  {
    assert s[pos..pos + |a + b|][..|a|] == a;
    assert s[pos..pos + |a + b|][|a|..] == b;
  }

  /** One character written by `EscapeOf` is one item of the quoted body, decoding to that character. */
  lemma QuoteItemOfEscape(s: seq<char>, pos: nat, delim: char, c: char)
    requires delim == '\'' || delim == '"'
    requires pos + |EscapeOf(c)| <= |s| && s[pos..pos + |EscapeOf(c)|] == EscapeOf(c)
    ensures QuoteItem(s, pos, delim) == Parsed(c, pos + |EscapeOf(c)|)
  {
    EscapeLetterInverts(c);
    var head := EscapeOf(c);
    assert s[pos] == head[0] by { assert s[pos..pos + |head|][0] == head[0]; }
    if EscapeLetter(c).Some? {
      assert s[pos + 1] == EscapeLetter(c).value by { assert s[pos..pos + |head|][1] == head[1]; }
      EscapeCharSpec(s, pos);
    }
  }

  /** A turn of the body loop: an item, then the rest of the body. */
  lemma QuotedCharsCons(s: seq<char>, pos: nat, delim: char, c: char, p: nat, cs: string, q: nat)
    requires pos <= p <= |s| && delim != '\\'
    requires QuoteItem(s, pos, delim) == Parsed(c, p) && QuotedChars(s, p, delim) == Parsed(cs, q)
    ensures QuotedChars(s, pos, delim) == Parsed([c] + cs, q)
  {
  }

  /** Text with neither a backslash nor the closing quote is decoded verbatim. */
  lemma {:induction false} QuotedCharsVerbatim(s: seq<char>, pos: nat, q: nat, delim: char)
    requires delim == '\'' || delim == '"'
    requires pos <= q < |s| && s[q] == delim
    requires forall k :: pos <= k < q ==> s[k] != '\\' && s[k] != delim
    ensures QuotedChars(s, pos, delim) == Parsed(s[pos..q], q)
    decreases q - pos
  {
    if pos < q {
      assert QuoteItem(s, pos, delim) == Parsed(s[pos], pos + 1);
      QuotedCharsVerbatim(s, pos + 1, q, delim);
      assert [s[pos]] + s[pos + 1..q] == s[pos..q];
    } else {
      assert QuoteItem(s, pos, delim).Backtrack?;
    }
  }

  /** Without a closing quote or a backslash in the rest of the line, the body runs to the end of the line. */
  lemma {:induction false} QuotedCharsToEnd(s: seq<char>, pos: nat, delim: char)
    requires delim == '\'' || delim == '"'
    requires pos <= |s|
    requires forall k :: pos <= k < |s| ==> s[k] != '\\' && s[k] != delim
    ensures QuotedChars(s, pos, delim) == Parsed(s[pos..], |s|)
    decreases |s| - pos
  {
    if pos < |s| {
      assert QuoteItem(s, pos, delim) == Parsed(s[pos], pos + 1);
      QuotedCharsToEnd(s, pos + 1, delim);
      assert [s[pos]] + s[pos + 1..] == s[pos..];
    } else {
      assert QuoteItem(s, pos, delim).Backtrack?;
      assert s[pos..] == [];
    }
  }

  /** Quoting `t` with `Escape` and parsing it back gives `t`, whatever follows the closing quote. */
  lemma QuotedRoundTrip(t: string, delim: char, missing: ParseErrorKind, rest: seq<char>)
    requires delim == '\'' || delim == '"'
    ensures var s := [delim] + Escape(t) + [delim] + rest;
            QuotedString(s, 0, delim, missing) == Parsed(t, |Escape(t)| + 2)
  {
    var s := [delim] + Escape(t) + [delim] + rest;
    var e := Escape(t);
    assert s[1..1 + |e|] == e;
    QuotedCharsDecodesEscape(s, 1, delim, t);
  }

  /** An opening quote with neither closing quote nor backslash after it is a fatal error at the end of the line. */
  lemma UnterminatedQuote(s: seq<char>, pos: nat, delim: char, missing: ParseErrorKind)
    requires delim == '\'' || delim == '"'
    requires pos < |s| && s[pos] == delim
    requires forall k :: pos < k < |s| ==> s[k] != '\\' && s[k] != delim
    ensures QuotedString(s, pos, delim, missing) == Cut(At(missing, ByteOffset(s, |s|)))
  {
    QuotedCharsToEnd(s, pos + 1, delim);
  }

  /**
   * Whatever the body holds, escapes included: the missing-quote kind at the
   * end of the line is what an opening quote gives exactly when its decoded
   * body runs to the end of the line.
   */
  lemma MissingQuoteIffBodyToEnd(s: seq<char>, pos: nat, delim: char, missing: ParseErrorKind)
    requires delim == '\'' || delim == '"'
    requires pos < |s| && s[pos] == delim && !IsEscapeKind(missing)
    ensures var b := QuotedChars(s, pos + 1, delim);
      QuotedString(s, pos, delim, missing) == Cut(At(missing, ByteOffset(s, |s|))) <==> b.Parsed? && b.pos == |s|
  {
    var b := QuotedChars(s, pos + 1, delim);
    if b.Parsed? && b.pos < |s| {
      assert s[b.pos] == delim;
      assert QuotedString(s, pos, delim, missing).Parsed?;
    }
  }

  /** A quote opened before `Escape(t)` and never closed is a fatal missing-quote error at the end of the line. */
  lemma UnterminatedEscapedQuote(t: string, delim: char, missing: ParseErrorKind)
    requires delim == '\'' || delim == '"'
    ensures var s := [delim] + Escape(t);
            QuotedString(s, 0, delim, missing) == Cut(At(missing, ByteOffset(s, |s|)))
  {
    var s := [delim] + Escape(t);
    assert s[1..1 + |Escape(t)|] == Escape(t);
    QuotedCharsDecodesEscape(s, 1, delim, t);
  }

  /** The first occurrence of `t` at or after `pos`, as `Find` reports it. */
  lemma FindFirst(s: seq<char>, pos: nat, q: nat, t: seq<char>)
    requires pos <= q <= |s| && OccursAt(s, q, t)
    requires forall j :: pos <= j < q ==> !OccursAt(s, j, t)
    ensures Find(s, pos, t) == Some(q)
  {
  }

  /** The first occurrence of a single character. */
  lemma FindCharFirst(s: seq<char>, pos: nat, q: nat, c: char)
    requires pos <= q < |s| && s[q] == c
    requires forall j :: pos <= j < q ==> s[j] != c
    ensures Find(s, pos, [c]) == Some(q)
  {
    forall j | pos <= j < q ensures !OccursAt(s, j, [c]) {
      assert j + 1 <= |s| ==> s[j..j + 1][0] == s[j];
    }
    assert s[q..q + 1] == [c];
    FindFirst(s, pos, q, [c]);
  }

  /** A character that does not occur at or after `pos` is not found. */
  lemma FindCharNone(s: seq<char>, pos: nat, c: char)
    requires pos <= |s|
    requires forall j :: pos <= j < |s| ==> s[j] != c
    ensures Find(s, pos, [c]) == None
  {
    forall j | pos <= j ensures !OccursAt(s, j, [c]) {
      assert j + 1 <= |s| ==> s[j..j + 1][0] == s[j];
    }
  }

  /** `\u{HEX}` with the hexadecimal digits of a character decodes to that character. */
  lemma UnicodeEscapeRoundTrip(c: char, rest: seq<char>)
    ensures var s := "u{" + ToHex(c as int) + "}" + rest;
            UnicodeEscapeChar(s, 0) == Parsed(c, |ToHex(c as int)| + 3)
  {
    var h := ToHex(c as int);
    var s := "u{" + h + "}" + rest;
    var q := 2 + |h|;
    assert s[q] == '}';
    assert OccursAt(s, q, "}");
    forall j | 2 <= j < q ensures !OccursAt(s, j, "}") {
      assert s[j] == h[j - 2];
    }
    FindFirst(s, 2, q, "}");
    assert s[2..q] == h;
    ToHexRoundTrip(c as int);
    assert DecodeCodePoint(h) == Ok(c);
    UnicodeNumberSpec(s, 2);
    assert UnicodeNumber(s, 2) == Parsed(c, q);
  }
}

/**
 * The grammar as the source runs it: each rule advances one shared cursor
 * into the line step by step, `repeat` is a loop, and `alt` puts the cursor
 * back before it tries the next branch.  Every method computes exactly the
 * outcome of a grammar function: the one of the same name, `Parse.CommandP`
 * for `Command` and `Parse.ShellCommandAt` for `ShellCommand`; `SkipSpace`
 * returns nothing and moves the cursor to the end of `Parse.Space0`.  So
 * everything proved about those functions holds of these methods.  The cursor a failing rule
 * leaves behind is not specified; callers that go on reset it.
 */
module Cursor {
  import opened Wrappers
  import opened Unicode
  import opened ShellTypes
  import opened ParseErrors
  import opened Winnow
  import opened Impls
  import opened Parse

  /** `acc` in front of the value a `repeat` loop still has to produce. */
  function Prepend<T>(acc: seq<T>, o: Outcome<seq<T>>): (r: Outcome<seq<T>>)
    ensures o.Parsed? ==> r == Parsed(acc + o.value, o.pos)
    ensures !o.Parsed? ==> r == o
  {
    match o
    case Parsed(v, p) => Parsed(acc + v, p)
    case Backtrack(e) => Backtrack(e)
    case Cut(e) => Cut(e)
  }

  /** The value collected so far can be extended one element at a time. */
  lemma PrependStep<T>(acc: seq<T>, c: T, o: Outcome<seq<T>>)
    ensures Prepend(acc, Prepend([c], o)) == Prepend(acc + [c], o)
  {
    if o.Parsed? {
      assert acc + ([c] + o.value) == (acc + [c]) + o.value;
    }
  }

  lemma PrependNothing<T>(o: Outcome<seq<T>>)
    ensures Prepend([], o) == o
  {
    if o.Parsed? {
      assert [] + o.value == o.value;
    }
  }

  /** One argument, step by step: whitespace, no `#`, a word. */
  lemma ArgItemSteps(s: seq<char>, pos: nat, x: Xid)
    requires pos <= |s|
    ensures Space1(s, pos).Backtrack? ==> ArgItem(s, pos, x).Backtrack?
    ensures Space1(s, pos).Parsed? ==>
      var p := Space1(s, pos).pos;
      if p < |s| && s[p] == '#' then ArgItem(s, pos, x).Backtrack? else ArgItem(s, pos, x) == Parse.Word(s, p, x)
  {
  }

  /** One turn of the arguments loop: stop on a backtrack, or add the argument in front of the rest. */
  lemma ArgsUnfold(s: seq<char>, pos: nat, x: Xid)
    requires pos <= |s|
    ensures ArgItem(s, pos, x).Backtrack? ==> Args(s, pos, x) == Parsed([], pos)
    ensures ArgItem(s, pos, x).Cut? ==> Args(s, pos, x) == Cut(ArgItem(s, pos, x).err)
    ensures ArgItem(s, pos, x).Parsed? ==>
      Args(s, pos, x) == Prepend([ArgItem(s, pos, x).value], Args(s, ArgItem(s, pos, x).pos, x))
  {
  }

  /** One turn of the quoted-body loop: stop on a backtrack, or add the character in front of the rest. */
  lemma QuotedCharsUnfold(s: seq<char>, pos: nat, delim: char)
    requires pos <= |s| && delim != '\\'
    ensures QuoteItem(s, pos, delim).Backtrack? ==> Parse.QuotedChars(s, pos, delim) == Parsed([], pos)
    ensures QuoteItem(s, pos, delim).Cut? ==> Parse.QuotedChars(s, pos, delim) == Cut(QuoteItem(s, pos, delim).err)
    ensures QuoteItem(s, pos, delim).Parsed? ==>
      Parse.QuotedChars(s, pos, delim) == Prepend([QuoteItem(s, pos, delim).value], Parse.QuotedChars(s, QuoteItem(s, pos, delim).pos, delim))
  {
  }

  /** The line being parsed and the cursor into it (`&mut Input`). */
  class Input {
    const text: seq<char>
    var cursor: nat

    predicate Valid()
      reads this
    {
      cursor <= |text|
    }

    constructor (s: seq<char>)
      ensures text == s && cursor == 0 && Valid()
    {
      text := s;
      cursor := 0;
    }

    /** `unicode_escape_char`, reading `u`, `{`, the number and `}` in turn. */
    method UnicodeEscapeChar() returns (r: Outcome<char>)
      requires Valid()
      modifies this
      ensures Valid() && r == Parse.UnicodeEscapeChar(text, old(cursor))
      ensures r.Parsed? ==> cursor == r.pos
    {
      var u := Char(text, cursor, 'u');
      if u.IsFailure() { return u.PropagateFailure(); }
      cursor := u.pos;
      var open := WithCut(MapErrWithSpan(text, cursor, Char(text, cursor, '{'), InvalidUnicodeEscape(NoBeginBrace)));
      if open.IsFailure() { return open.PropagateFailure(); }
      cursor := open.pos;
      var number := WithCut(UnicodeNumber(text, cursor));
      if number.IsFailure() { return number.PropagateFailure(); }
      cursor := number.pos;
      // `unicode_number` stops at a `}`, so the closing brace is always there.
      var close := WithCut(MapErrWithSpan(text, cursor, Char(text, cursor, '}'), InvalidUnicodeEscape(NoEndBrace)));
      cursor := close.pos;
      r := Parsed(number.value, cursor);
    }

    /** `escape_char`: the backslash, a look at the next character, then the escape it selects. */
    method EscapeChar() returns (r: Outcome<char>)
      requires Valid()
      modifies this
      ensures Valid() && r == Parse.EscapeChar(text, old(cursor))
      ensures r.Parsed? ==> cursor == r.pos
    {
      var backslash := Char(text, cursor, '\\');
      if backslash.IsFailure() { return backslash.PropagateFailure(); }
      cursor := backslash.pos;
      var next := Any(text, cursor);
      if next.IsFailure() { return next.PropagateFailure(); }
      var c := next.value;
      if c == 'u' {
        r := UnicodeEscapeChar();
      } else {
        match SimpleEscape(c)
        case Some(d) =>
          cursor := next.pos;
          r := Parsed(d, cursor);
        case None =>
          r := WithCut(TryMapWithSpan(text, cursor, next, _ => Err(UnrecognizedEscape(c))));
      }
    }

    /** The body of a quoted literal: a loop over escapes and plain characters up to the closing quote. */
    method QuotedChars(delim: char) returns (r: Outcome<string>)
      requires Valid() && delim != '\\'
      modifies this
      ensures Valid() && r == Parse.QuotedChars(text, old(cursor), delim)
      ensures r.Parsed? ==> cursor == r.pos
    {
      var acc: string := [];
      PrependNothing(Parse.QuotedChars(text, cursor, delim));
      while true
        invariant Valid() && old(cursor) <= cursor
        invariant Parse.QuotedChars(text, old(cursor), delim) == Prepend(acc, Parse.QuotedChars(text, cursor, delim))
        decreases |text| - cursor
      {
        var save := cursor;
        QuotedCharsUnfold(text, save, delim);
        assert acc + [] == acc;
        var item := EscapeChar();
        if item.Backtrack? {
          cursor := save;
          item := Verify(text, cursor, Any(text, cursor), c => c != delim);
          if item.Parsed? { cursor := item.pos; }
        }
        assert item == QuoteItem(text, save, delim);
        match item
        case Backtrack(_) =>
          cursor := save;
          return Parsed(acc, cursor);
        case Cut(e) =>
          return Cut(e);
        case Parsed(c, _) =>
          PrependStep(acc, c, Parse.QuotedChars(text, cursor, delim));
          acc := acc + [c];
      }
    }

    /** `quoted_string` / `double_quoted_string`: the opening quote, the body, the closing quote. */
    method QuotedString(delim: char, missing: ParseErrorKind) returns (r: Outcome<string>)
      requires Valid() && (delim == '\'' || delim == '"')
      modifies this
      ensures Valid() && r == Parse.QuotedString(text, old(cursor), delim, missing)
      ensures r.Parsed? ==> cursor == r.pos
    {
      var open := Char(text, cursor, delim);
      if open.IsFailure() { return open.PropagateFailure(); }
      cursor := open.pos;
      var body := QuotedChars(delim);
      if body.IsFailure() { return body.PropagateFailure(); }
      var close := WithCut(MapErrWithSpan(text, cursor, Char(text, cursor, delim), missing));
      if close.IsFailure() { return close.PropagateFailure(); }
      cursor := close.pos;
      r := Parsed(body.value, cursor);
    }

    /** `raw_string` / `path_string`: the lead letter, the `#`s, `"`, the text, the closing delimiter. */
    method DelimitedLiteral(lead: char) returns (r: Outcome<string>)
      requires Valid()
      modifies this
      ensures Valid() && r == Parse.DelimitedLiteral(text, old(cursor), lead)
      ensures r.Parsed? ==> cursor == r.pos
    {
      var l := Char(text, cursor, lead);
      if l.IsFailure() { return l.PropagateFailure(); }
      cursor := l.pos;
      var sharp := TakeWhile0(text, cursor, IsSharp);
      cursor := sharp.pos;
      var quote := Char(text, cursor, '"');
      if quote.IsFailure() { return quote.PropagateFailure(); }
      cursor := quote.pos;
      var delim := ['"'] + sharp.value;
      var raw := TakeUntil0(text, cursor, delim);
      if raw.IsFailure() { return raw.PropagateFailure(); }
      cursor := raw.pos;
      // `take_until` stops at the delimiter, so it is always there.
      var close := Tag(text, cursor, delim);
      cursor := close.pos;
      r := Parsed(raw.value, cursor);
    }

    /** `ident`: the first character, the continuation characters, then the check for a lone `_`. */
    method Ident(x: Xid) returns (r: Outcome<string>)
      requires Valid()
      modifies this
      ensures Valid() && r == Parse.Ident(text, old(cursor), x)
      ensures r.Parsed? ==> cursor == r.pos
    {
      var start := cursor;
      var first := IdentStart(text, cursor, x);
      if first.IsFailure() { return Cut(first.err); }
      cursor := first.pos;
      var cont := TakeWhile0(text, cursor, x.isContinue);
      cursor := cont.pos;
      match JoinIdent(first.value, cont.value)
      case Ok(name) => r := Parsed(name, cursor);
      case Err(k) => r := Cut(At(k, ByteOffset(text, start)));
    }

    /** A word of any form, chosen by its first character; the forms `alt` tries restart from the word's start. */
    method WordBody(x: Xid) returns (r: Outcome<ShellTypes.Word>)
      requires Valid()
      modifies this
      ensures Valid() && r == Parse.WordBody(text, old(cursor), x)
      ensures r.Parsed? ==> cursor == r.pos
    {
      var start := cursor;
      var peek := Any(text, cursor);
      if peek.IsFailure() { return peek.PropagateFailure(); }
      var c := peek.value;
      if c == '\'' {
        var q := QuotedString('\'', NoEndQuotation);
        r := q.Map(t => Literal(t));
      } else if c == '"' {
        var q := QuotedString('"', NoEndDoubleQuotation);
        r := q.Map(t => Literal(t));
      } else if c == '$' {
        cursor := cursor + 1;
        var special := SpecialVariable(text, cursor);
        if special.Parsed? {
          cursor := special.pos;
          r := special.Map(v => SpecialVar(v));
        } else {
          var name := Ident(x);
          r := name.Map(n => EnvVar(n));
        }
      } else if c == '%' {
        cursor := cursor + 1;
        var name := Ident(x);
        r := name.Map(n => ShellVar(n));
      } else {
        var raw := DelimitedLiteral('r');
        if !raw.Backtrack? {
          r := raw.Map(t => Literal(t));
        } else {
          cursor := start;
          var path := DelimitedLiteral('p');
          if !path.Backtrack? {
            r := path.Map(t => PathLiteral(t));
          } else {
            cursor := start;
            var bare := UnquotedString(text, cursor);
            if bare.Parsed? { cursor := bare.pos; }
            r := bare.Map(t => Literal(t));
          }
        }
      }
    }

    /** `word`: a word with the byte span of what it consumed. */
    method Word(x: Xid) returns (r: Outcome<Spanned<ShellTypes.Word>>)
      requires Valid()
      modifies this
      ensures Valid() && r == Parse.Word(text, old(cursor), x)
      ensures r.Parsed? ==> cursor == r.pos
    {
      var start := cursor;
      var body := WordBody(x);
      if body.Parsed? { ByteOffsetMonotonic(text, start, body.pos); }
      r := WithSpan(text, start, body);
    }

    /** The arguments after a command's name: a loop of whitespace and a word not beginning with `#`. */
    method Args(x: Xid) returns (r: Outcome<seq<Spanned<ShellTypes.Word>>>)
      requires Valid()
      modifies this
      ensures Valid() && r == Parse.Args(text, old(cursor), x)
      ensures r.Parsed? ==> cursor == r.pos
    {
      var acc: seq<Spanned<ShellTypes.Word>> := [];
      PrependNothing(Parse.Args(text, cursor, x));
      while true
        invariant Valid() && old(cursor) <= cursor
        invariant Parse.Args(text, old(cursor), x) == Prepend(acc, Parse.Args(text, cursor, x))
        decreases |text| - cursor
      {
        var save := cursor;
        ArgItemSteps(text, save, x);
        ArgsUnfold(text, save, x);
        assert acc + [] == acc;
        var space := Space1(text, cursor);
        if space.IsFailure() {
          cursor := save;
          return Parsed(acc, cursor);
        }
        cursor := space.pos;
        if cursor < |text| && text[cursor] == '#' {
          cursor := save;
          return Parsed(acc, cursor);
        }
        var w := Word(x);
        match w
        case Backtrack(_) =>
          cursor := save;
          return Parsed(acc, cursor);
        case Cut(e) =>
          return Cut(e);
        case Parsed(a, _) =>
          PrependStep(acc, a, Parse.Args(text, cursor, x));
          acc := acc + [a];
      }
    }

    /** `command`: the name, then the arguments. */
    method Command(x: Xid) returns (r: Outcome<ShellTypes.Command>)
      requires Valid()
      modifies this
      ensures Valid() && r == CommandP(text, old(cursor), x)
      ensures r.Parsed? ==> cursor == r.pos
    {
      var name := Word(x);
      if name.IsFailure() { return name.PropagateFailure(); }
      var args := Args(x);
      if args.IsFailure() { return args.PropagateFailure(); }
      r := Parsed(ShellTypes.Command(name.value, args.value), cursor);
    }

    /** Advances the cursor over whitespace (`space0`). */
    method SkipSpace()
      requires Valid()
      modifies this
      ensures Valid() && cursor == Space0(text, old(cursor)).pos
    {
      cursor := Space0(text, cursor).pos;
    }

    /** `shell_command`: whitespace, at most one command, an optional comment, whitespace. */
    method ShellCommand(x: Xid) returns (r: Outcome<ShellTypes.ShellCommand>)
      requires Valid()
      modifies this
      ensures Valid() && r == ShellCommandAt(text, old(cursor), x)
      ensures r.Parsed? ==> cursor == r.pos
    {
      SkipSpace();
      var save := cursor;
      var commands: seq<(ShellTypes.Command, Option<Pipe>)> := [];
      if !(cursor < |text| && text[cursor] == '#') {
        var c := Command(x);
        match c
        case Parsed(command, _) => commands := [(command, None)];
        case Backtrack(_) => cursor := save;
        case Cut(e) => return Cut(e);
      }
      assert Commands(text, save, x) == Parsed(commands, cursor);
      save := cursor;
      SkipSpace();
      var comment: Option<string> := None;
      var hash := Comment(text, cursor);
      if hash.Parsed? {
        comment := Some(hash.value);
        cursor := hash.pos;
      } else {
        cursor := save;
      }
      SkipSpace();
      r := Parsed(ShellTypes.ShellCommand(commands, comment), cursor);
    }
  }

  /** `parse_shell_command`: runs `shell_command` over the line from its start, then demands the end of the line. */
  method ParseLine(s: seq<char>, x: Xid) returns (r: Result<ShellCommand, ParseError>)
    ensures r == ParseShellCommand(s, x)
  {
    var input := new Input(s);
    var o := input.ShellCommand(x);
    match o
    case Parsed(sc, _) =>
      if input.cursor == |s| {
        r := Ok(sc);
      } else {
        r := Err(FromInput(s, input.cursor));
      }
    case Backtrack(e) => r := Err(e);
    case Cut(e) => r := Err(e);
  }
}

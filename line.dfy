/**
 * What a whole line parses to: blank lines, comments kept verbatim, text
 * left over rejected where it starts, and the arguments of a command in
 * order, each after whitespace.
 */
module LineLemmas {
  import opened Wrappers
  import opened Unicode
  import opened ShellTypes
  import opened ParseErrors
  import opened Winnow
  import opened Parse

  predicate AllWhitespace(s: seq<char>)
  {
    forall k :: 0 <= k < |s| ==> IsWhitespace(s[k])
  }

  /** A line of whitespace only, the empty line included, is the empty command list without a comment. */
  lemma BlankLine(s: seq<char>, x: Xid)
    requires AllWhitespace(s)
    ensures ParseShellCommand(s, x) == Ok(ShellCommand([], None))
  {
    assert RunEnd(s, 0, IsWhitespace) == |s|;
    assert CommandItem(s, |s|, x).Backtrack?;
    assert TrailingComment(s, |s|) == Parsed(None, |s|);
  }

  /** Whitespace, `#` and anything after it: no command, and the comment is that text verbatim. */
  lemma CommentOnlyLine(w: seq<char>, c: seq<char>, x: Xid)
    requires AllWhitespace(w)
    ensures ParseShellCommand(w + "#" + c, x) == Ok(ShellCommand([], Some(c)))
  {
    var s := w + "#" + c;
    RunEndOver(s, 0, |w|);
    assert CommandItem(s, |w|, x).Backtrack?;
    assert s[|w| + 1..] == c;
    assert TrailingComment(s, |w|) == Parsed(Some(c), |s|);
  }

  /** Where a run of whitespace ends. */
  lemma {:induction false} RunEndOver(s: seq<char>, a: nat, b: nat)
    requires a <= b < |s|
    requires forall k :: a <= k < b ==> IsWhitespace(s[k])
    requires !IsWhitespace(s[b])
    ensures RunEnd(s, a, IsWhitespace) == b
    decreases b - a
  {
    if a < b { RunEndOver(s, a + 1, b); }
  }

  /** A comment is always the whole rest of the line after a `#`, kept verbatim. */
  lemma CommentIsSuffix(s: seq<char>, x: Xid, line: ShellCommand, c: string)
    requires ParseShellCommand(s, x) == Ok(line) && line.comment == Some(c)
    ensures |c| < |s| && s[|s| - |c| - 1] == '#' && s[|s| - |c|..] == c
  {
    assert ShellCommandAt(s, 0, x).Parsed? && ShellCommandAt(s, 0, x).value == line by { EndOfLine(s, x); }
    CommentOfShellCommand(s, 0, x, c);
  }

  /** Whatever `shell_command` parses, its comment is the rest of the line after a `#`. */
  lemma CommentOfShellCommand(s: seq<char>, pos: nat, x: Xid, c: string)
    requires pos <= |s| && ShellCommandAt(s, pos, x).Parsed? && ShellCommandAt(s, pos, x).value.comment == Some(c)
    ensures |c| < |s| && s[|s| - |c| - 1] == '#' && s[|s| - |c|..] == c
  {
    var p1 := RunEnd(s, pos, IsWhitespace);
    assert Commands(s, p1, x).Parsed? by { CommandsOfLine(s, pos, x); }
    var p2 := Commands(s, p1, x).pos;
    var t := TrailingComment(s, p2);
    assert t.value == Some(c) by { ShellCommandSteps(s, pos, x); }
    var q := RunEnd(s, p2, IsWhitespace);
    assert q < |s| && s[q] == '#' && c == s[q + 1..];
    SuffixAfter(s, q, c);
  }

  /** `shell_command` succeeds only when its command list does. */
  lemma CommandsOfLine(s: seq<char>, pos: nat, x: Xid)
    requires pos <= |s| && ShellCommandAt(s, pos, x).Parsed?
    ensures Commands(s, RunEnd(s, pos, IsWhitespace), x).Parsed?
  {
  }

  lemma SuffixAfter(s: seq<char>, q: nat, c: seq<char>)
    requires q < |s| && s[q] == '#' && c == s[q + 1..]
    ensures |c| < |s| && s[|s| - |c| - 1] == '#' && s[|s| - |c|..] == c
  {
  }

  /**
   * Text the grammar does not consume rejects the line with an `Other`
   * error at the first such character, which is neither whitespace nor `#`.
   */
  lemma LeftoverRejected(s: seq<char>, x: Xid)
    requires ShellCommandAt(s, 0, x).Parsed? && ShellCommandAt(s, 0, x).pos < |s|
    ensures var p := ShellCommandAt(s, 0, x).pos;
      && ParseShellCommand(s, x) == Err(FromInput(s, p))
      && ParseShellCommand(s, x).error.kind == Other
      && !IsWhitespace(s[p]) && s[p] != '#'
  {
    var p1 := RunEnd(s, 0, IsWhitespace);
    var p2 := Commands(s, p1, x).pos;
    var q := RunEnd(s, p2, IsWhitespace);
    assert TrailingComment(s, p2) == Parsed(None, p2);
  }

  /** A line is accepted exactly when the grammar parses it to its end. */
  lemma AcceptsWholeLine(s: seq<char>, x: Xid)
    ensures ParseShellCommand(s, x).Ok? <==> ShellCommandAt(s, 0, x).Parsed? && ShellCommandAt(s, 0, x).pos == |s|
    ensures ShellCommandAt(s, 0, x).Cut? ==> ParseShellCommand(s, x) == Err(ShellCommandAt(s, 0, x).err)
  {
  }

  /** Words whose spans lie within `lo..hi`, each non-empty, in order and not touching. */
  predicate SpansInOrder(ws: seq<Spanned<Word>>, lo: nat, hi: nat)
  {
    && (forall i :: 0 <= i < |ws| ==> lo <= ws[i].span.start < ws[i].span.end <= hi)
    && (forall i, j :: 0 <= i < j < |ws| ==> ws[i].span.end < ws[j].span.start)
  }

  /** Is the word's span the byte offset of a character that follows whitespace and is not `#`? */
  predicate StartsAfterSpace(s: seq<char>, w: Spanned<Word>)
  {
    exists k :: 0 < k < |s| && IsWhitespace(s[k - 1]) && s[k] != '#' && w.span.start == ByteOffset(s, k)
  }

  /** A word before words in order, ending before they begin, keeps them in order. */
  lemma ConsInOrder(w: Spanned<Word>, ws: seq<Spanned<Word>>, lo: nat, mid: nat, hi: nat)
    requires lo <= w.span.start < w.span.end <= hi && w.span.end < mid
    requires SpansInOrder(ws, mid, hi)
    ensures SpansInOrder([w] + ws, lo, hi)
  {
    var all := [w] + ws;
    forall i, j | 0 <= i < j < |all| ensures all[i].span.end < all[j].span.start {
      assert all[j] == ws[j - 1];
      if i > 0 { assert all[i] == ws[i - 1]; }
    }
    forall i | 0 <= i < |all| ensures lo <= all[i].span.start < all[i].span.end <= hi {
      if i > 0 { assert all[i] == ws[i - 1]; }
    }
  }

  /** All of `ws` start after whitespace. */
  predicate AllStartAfterSpace(s: seq<char>, ws: seq<Spanned<Word>>)
  {
    forall i :: 0 <= i < |ws| ==> StartsAfterSpace(s, ws[i])
  }

  /** One argument: the word after the whitespace, spanning at least one byte. */
  lemma ArgItemLayout(s: seq<char>, pos: nat, x: Xid)
    requires pos <= |s| && ArgItem(s, pos, x).Parsed?
    ensures var r := ArgItem(s, pos, x);
      && ByteOffset(s, pos) < r.value.span.start < r.value.span.end == ByteOffset(s, r.pos)
      && StartsAfterSpace(s, r.value)
  {
    var q := RunEnd(s, pos, IsWhitespace);
    ByteOffsetMonotonic(s, pos, q);
    assert IsWhitespace(s[q - 1]);
  }

  /** One turn of the arguments loop. */
  lemma ArgsStep(s: seq<char>, pos: nat, x: Xid)
    requires pos <= |s| && Args(s, pos, x).Parsed?
    ensures ArgItem(s, pos, x).Backtrack? ==> Args(s, pos, x) == Parsed([], pos)
    ensures ArgItem(s, pos, x).Parsed? ==>
      var p := ArgItem(s, pos, x).pos;
      && Args(s, p, x).Parsed?
      && Args(s, pos, x) == Parsed([ArgItem(s, pos, x).value] + Args(s, p, x).value, Args(s, p, x).pos)
    ensures !ArgItem(s, pos, x).Cut?
  {
  }

  /** The arguments: in order, strictly after the cursor, each a word that follows whitespace and does not begin with `#`. */
  lemma {:induction false} ArgsLayout(s: seq<char>, pos: nat, x: Xid)
    requires pos <= |s| && Args(s, pos, x).Parsed?
    ensures var r := Args(s, pos, x);
      && SpansInOrder(r.value, ByteOffset(s, pos) + 1, ByteOffset(s, r.pos))
      && AllStartAfterSpace(s, r.value)
    decreases |s| - pos
  {
    var r := Args(s, pos, x);
    var item := ArgItem(s, pos, x);
    assert !item.Cut? by { ArgsStep(s, pos, x); }
    if item.Parsed? {
      var a, p := item.value, item.pos;
      var tail := Args(s, p, x);
      assert tail.Parsed? && r.value == [a] + tail.value && r.pos == tail.pos by { ArgsStep(s, pos, x); }
      assert ByteOffset(s, pos) < a.span.start < a.span.end == ByteOffset(s, p) && StartsAfterSpace(s, a) by {
        ArgItemLayout(s, pos, x);
      }
      assert SpansInOrder(tail.value, ByteOffset(s, p) + 1, ByteOffset(s, tail.pos)) && AllStartAfterSpace(s, tail.value) by {
        ArgsLayout(s, p, x);
      }
      ByteOffsetMonotonic(s, p, tail.pos);
      ConsInOrder(a, tail.value, ByteOffset(s, pos) + 1, ByteOffset(s, p) + 1, ByteOffset(s, tail.pos));
      AllStartCons(s, a, tail.value);
    } else {
      assert r.value == [] by { ArgsStep(s, pos, x); }
    }
  }

  lemma AllStartCons(s: seq<char>, w: Spanned<Word>, ws: seq<Spanned<Word>>)
    requires StartsAfterSpace(s, w) && AllStartAfterSpace(s, ws)
    ensures AllStartAfterSpace(s, [w] + ws)
  {
    forall i | 0 <= i < |[w] + ws| ensures StartsAfterSpace(s, ([w] + ws)[i]) {
      if i > 0 { assert ([w] + ws)[i] == ws[i - 1]; }
    }
  }

  /** A command is its name word followed by the arguments loop. */
  lemma CommandParts(s: seq<char>, pos: nat, x: Xid)
    requires pos <= |s| && CommandP(s, pos, x).Parsed?
    ensures var w := Parse.Word(s, pos, x);
      && w.Parsed? && Args(s, w.pos, x).Parsed?
      && CommandP(s, pos, x) == Parsed(Command(w.value, Args(s, w.pos, x).value), Args(s, w.pos, x).pos)
  {
  }

  /** A command's name starts at the cursor, and its arguments follow it in order. */
  lemma CommandLayout(s: seq<char>, pos: nat, x: Xid)
    requires pos <= |s| && CommandP(s, pos, x).Parsed?
    ensures var c := CommandP(s, pos, x).value;
      && c.name.span.start == ByteOffset(s, pos)
      && SpansInOrder([c.name] + c.args, ByteOffset(s, pos), ByteOffset(s, CommandP(s, pos, x).pos))
      && AllStartAfterSpace(s, c.args)
  {
    CommandParts(s, pos, x);
    var w := Parse.Word(s, pos, x);
    var args := Args(s, w.pos, x);
    ArgsLayout(s, w.pos, x);
    ByteOffsetMonotonic(s, w.pos, args.pos);
    ConsInOrder(w.value, args.value, ByteOffset(s, pos), ByteOffset(s, w.pos) + 1, ByteOffset(s, args.pos));
  }

  /** A command that does not begin with `#` is the one element of the command list. */
  lemma CommandsOfCommand(s: seq<char>, pos: nat, x: Xid)
    requires pos < |s| && s[pos] != '#' && CommandP(s, pos, x).Parsed?
    ensures Commands(s, pos, x) == Parsed([(CommandP(s, pos, x).value, None)], CommandP(s, pos, x).pos)
  {
    assert CommandItem(s, pos, x) == Parsed((CommandP(s, pos, x).value, None), CommandP(s, pos, x).pos);
  }

  /** `shell_command` in steps: whitespace, the command list, the optional comment, whitespace. */
  lemma ShellCommandSteps(s: seq<char>, pos: nat, x: Xid)
    requires pos <= |s| && Commands(s, RunEnd(s, pos, IsWhitespace), x).Parsed?
    ensures var cs := Commands(s, RunEnd(s, pos, IsWhitespace), x);
      var t := TrailingComment(s, cs.pos);
      ShellCommandAt(s, pos, x) == Parsed(ShellCommand(cs.value, t.value), RunEnd(s, t.pos, IsWhitespace))
  {
  }

  /** A line that starts with a command: `shell_command` gives that command and the comment after it, if any. */
  lemma LineOfCommand(s: seq<char>, x: Xid)
    requires 0 < |s| && !IsWhitespace(s[0]) && s[0] != '#' && CommandP(s, 0, x).Parsed?
    ensures var c := CommandP(s, 0, x);
      var t := TrailingComment(s, c.pos);
      ShellCommandAt(s, 0, x) == Parsed(ShellCommand([(c.value, None)], t.value), RunEnd(s, t.pos, IsWhitespace))
  {
    assert RunEnd(s, 0, IsWhitespace) == 0;
    CommandsOfCommand(s, 0, x);
    ShellCommandSteps(s, 0, x);
  }

  /** `parse_shell_command` accepts what `shell_command` parsed exactly when it reached the end of the line. */
  lemma EndOfLine(s: seq<char>, x: Xid)
    ensures var o := ShellCommandAt(s, 0, x);
      && (o.Parsed? ==> ParseShellCommand(s, x) == if o.pos == |s| then Ok(o.value) else Err(FromInput(s, o.pos)))
      && (!o.Parsed? ==> ParseShellCommand(s, x) == Err(o.err))
  {
  }

  /** A `#` after the whitespace: the comment is the rest of the line, and nothing follows it. */
  lemma CommentAt(s: seq<char>, p: nat, q: nat)
    requires p <= |s| && q == RunEnd(s, p, IsWhitespace) && q < |s| && s[q] == '#'
    ensures TrailingComment(s, p) == Parsed(Some(s[q + 1..]), |s|) && RunEnd(s, |s|, IsWhitespace) == |s|
  {
  }

  /** No `#` after the whitespace: no comment, and the cursor stays put. */
  lemma NoCommentAt(s: seq<char>, p: nat)
    requires p <= |s| && (RunEnd(s, p, IsWhitespace) == |s| || s[RunEnd(s, p, IsWhitespace)] != '#')
    ensures TrailingComment(s, p) == Parsed(None, p)
  {
  }

  lemma WholeLine(s: seq<char>, x: Xid, sc: ShellCommand)
    requires ShellCommandAt(s, 0, x) == Parsed(sc, |s|)
    ensures ParseShellCommand(s, x) == Ok(sc)
  {
  }

  lemma PartLine(s: seq<char>, x: Xid, sc: ShellCommand, q: nat)
    requires q < |s| && ShellCommandAt(s, 0, x) == Parsed(sc, q)
    ensures ParseShellCommand(s, x) == Err(FromInput(s, q))
  {
  }

  /** A line that starts with a command followed by a comment. */
  lemma LineWithCommandAndComment(s: seq<char>, x: Xid, c: Command, p: nat, q: nat)
    requires 0 < |s| && !IsWhitespace(s[0]) && s[0] != '#' && CommandP(s, 0, x) == Parsed(c, p)
    requires q == RunEnd(s, p, IsWhitespace) && q < |s| && s[q] == '#'
    ensures ParseShellCommand(s, x) == Ok(ShellCommand([(c, None)], Some(s[q + 1..])))
  {
    assert ShellCommandAt(s, 0, x) == Parsed(ShellCommand([(c, None)], Some(s[q + 1..])), |s|) by {
      LineOfCommand(s, x);
      CommentAt(s, p, q);
    }
    WholeLine(s, x, ShellCommand([(c, None)], Some(s[q + 1..])));
  }

  /** A line that starts with a command that, with any whitespace after it, ends the line. */
  lemma LineWithCommandOnly(s: seq<char>, x: Xid, c: Command, p: nat)
    requires 0 < |s| && !IsWhitespace(s[0]) && s[0] != '#' && CommandP(s, 0, x) == Parsed(c, p)
    requires RunEnd(s, p, IsWhitespace) == |s|
    ensures ParseShellCommand(s, x) == Ok(ShellCommand([(c, None)], None))
  {
    assert ShellCommandAt(s, 0, x) == Parsed(ShellCommand([(c, None)], None), |s|) by {
      LineOfCommand(s, x);
      NoCommentAt(s, p);
    }
    WholeLine(s, x, ShellCommand([(c, None)], None));
  }

  /** A line that starts with a command followed by text that is neither whitespace nor a comment: refused there. */
  lemma LineWithCommandAndLeftover(s: seq<char>, x: Xid, c: Command, p: nat, q: nat)
    requires 0 < |s| && !IsWhitespace(s[0]) && s[0] != '#' && CommandP(s, 0, x) == Parsed(c, p)
    requires q == RunEnd(s, p, IsWhitespace) && q < |s| && s[q] != '#'
    ensures ParseShellCommand(s, x) == Err(FromInput(s, q))
  {
    assert ShellCommandAt(s, 0, x) == Parsed(ShellCommand([(c, None)], None), q) by {
      LineOfCommand(s, x);
      NoCommentAt(s, p);
    }
    PartLine(s, x, ShellCommand([(c, None)], None), q);
  }

  /** A command of a name and one argument. */
  lemma CommandOfOneArg(s: seq<char>, x: Xid, name: Spanned<Word>, arg: Spanned<Word>, p1: nat, p2: nat)
    requires p1 <= p2 <= |s|
    requires Parse.Word(s, 0, x) == Parsed(name, p1)
    requires ArgItem(s, p1, x) == Parsed(arg, p2)
    requires Args(s, p2, x) == Parsed([], p2)
    ensures CommandP(s, 0, x) == Parsed(Command(name, [arg]), p2)
  {
    ArgsLast(s, p1, x);
    CommandOf(s, 0, x);
  }

  /** An argument: whitespace up to `q`, then a word at `q` that does not begin with `#`. */
  lemma ArgItemAt(s: seq<char>, pos: nat, q: nat, x: Xid)
    requires pos < q < |s| && s[q] != '#' && !IsWhitespace(s[q])
    requires forall k :: pos <= k < q ==> IsWhitespace(s[k])
    ensures ArgItem(s, pos, x) == Parse.Word(s, q, x)
  {
    RunEndOver(s, pos, q);
  }

  /** The arguments end where no whitespace follows, or the whitespace is followed by `#` or the end of the line. */
  lemma ArgsEnd(s: seq<char>, pos: nat, x: Xid)
    requires pos <= |s|
    requires var q := RunEnd(s, pos, IsWhitespace); q == pos || q == |s| || s[q] == '#'
    ensures Args(s, pos, x) == Parsed([], pos)
  {
    assert ArgItem(s, pos, x).Backtrack?;
  }

  /** One more argument in front of the rest. */
  lemma ArgsCons(s: seq<char>, pos: nat, x: Xid)
    requires pos <= |s| && ArgItem(s, pos, x).Parsed? && Args(s, ArgItem(s, pos, x).pos, x).Parsed?
    ensures var a := ArgItem(s, pos, x);
      Args(s, pos, x) == Parsed([a.value] + Args(s, a.pos, x).value, Args(s, a.pos, x).pos)
  {
  }

  /** The last argument. */
  lemma ArgsLast(s: seq<char>, pos: nat, x: Xid)
    requires pos <= |s| && ArgItem(s, pos, x).Parsed?
    requires var p := ArgItem(s, pos, x).pos; Args(s, p, x) == Parsed([], p)
    ensures Args(s, pos, x) == Parsed([ArgItem(s, pos, x).value], ArgItem(s, pos, x).pos)
  {
    ArgsCons(s, pos, x);
    assert [ArgItem(s, pos, x).value] + [] == [ArgItem(s, pos, x).value];
  }

  /** A command is its name and its arguments. */
  lemma CommandOf(s: seq<char>, pos: nat, x: Xid)
    requires pos <= |s| && Parse.Word(s, pos, x).Parsed? && Args(s, Parse.Word(s, pos, x).pos, x).Parsed?
    ensures var w := Parse.Word(s, pos, x);
      CommandP(s, pos, x) == Parsed(Command(w.value, Args(s, w.pos, x).value), Args(s, w.pos, x).pos)
  {
  }
}

/**
 * The part of winnow the grammar uses, over a line `s` and a character-index
 * cursor `pos`.  A parser's result is an `Outcome`: a value with the cursor
 * after it, a recoverable `Backtrack` or a fatal `Cut`.  Parsers that fail
 * leave no cursor behind: every combinator that goes on after a `Backtrack`
 * restarts from a position it saved, and a `Cut` ends the parse.
 */
module Winnow {
  import opened Wrappers
  import opened Unicode
  import opened ParseErrors

  datatype Outcome<+T> = Parsed(value: T, pos: nat) | Backtrack(err: ParseError) | Cut(err: ParseError) {

    predicate IsFailure()
    {
      !Parsed?
    }

    function PropagateFailure<U>(): Outcome<U>
      requires !Parsed?
    {
      if Backtrack? then Backtrack(err) else Cut(err)
    }

    function Extract(): (T, nat)
      requires Parsed?
    {
      (value, pos)
    }

    /** `Parser::map` and `Parser::value`: the value changes, the cursor and any failure do not. */
    function Map<U>(f: T -> U): (r: Outcome<U>)
      ensures r.Parsed? <==> Parsed?
      ensures Parsed? ==> r.value == f(value) && r.pos == pos
      ensures !Parsed? ==> r.Backtrack? == Backtrack? && r.err == err
    {
      match this
      case Parsed(v, p) => Parsed(f(v), p)
      case Backtrack(e) => Backtrack(e)
      case Cut(e) => Cut(e)
    }
  }

  /** A success that stays between the starting cursor and the end of the line. */
  predicate Within<T>(o: Outcome<T>, pos: nat, n: nat)
  {
    o.Parsed? ==> pos <= o.pos <= n
  }

  /** A success that consumed at least one character. */
  predicate Consumes<T>(o: Outcome<T>, pos: nat, n: nat)
  {
    o.Parsed? ==> pos < o.pos <= n
  }

  /** Does the text `t` occur in `s` at index `i`? */
  predicate OccursAt(s: seq<char>, i: nat, t: seq<char>)
  {
    i + |t| <= |s| && s[i..i + |t|] == t
  }

  /** A character parser such as `'#'`: matches `c` and consumes it. */
  function Char(s: seq<char>, pos: nat, c: char): (r: Outcome<char>)
    requires pos <= |s|
    ensures r.Parsed? <==> pos < |s| && s[pos] == c
    ensures r.Parsed? ==> r.value == c && r.pos == pos + 1
    ensures !r.Parsed? ==> r == Backtrack(FromInput(s, pos))
  {
    if pos < |s| && s[pos] == c then Parsed(c, pos + 1) else Backtrack(FromInput(s, pos))
  }

  /** A string parser such as `delimiter.as_str()`: matches `t` and consumes it. */
  function Tag(s: seq<char>, pos: nat, t: seq<char>): (r: Outcome<seq<char>>)
    requires pos <= |s|
    ensures r.Parsed? <==> OccursAt(s, pos, t)
    ensures r.Parsed? ==> r.value == t && r.pos == pos + |t|
    ensures !r.Parsed? ==> r == Backtrack(FromInput(s, pos))
  {
    if OccursAt(s, pos, t) then Parsed(t, pos + |t|) else Backtrack(FromInput(s, pos))
  }

  /** `any`: the next character, failing only at the end of the line. */
  function Any(s: seq<char>, pos: nat): (r: Outcome<char>)
    requires pos <= |s|
    ensures r.Parsed? <==> pos < |s|
    ensures r.Parsed? ==> r.value == s[pos] && r.pos == pos + 1
    ensures !r.Parsed? ==> r == Backtrack(FromInput(s, pos))
  {
    if pos < |s| then Parsed(s[pos], pos + 1) else Backtrack(FromInput(s, pos))
  }

  /** `rest`: everything up to the end of the line. */
  function Rest(s: seq<char>, pos: nat): (r: Outcome<seq<char>>)
    requires pos <= |s|
    ensures r == Parsed(s[pos..], |s|)
  {
    Parsed(s[pos..], |s|)
  }

  /** `eof`, which `Parser::parse` runs after the parser it is given. */
  function Eof(s: seq<char>, pos: nat): (r: Outcome<()>)
    requires pos <= |s|
    ensures r.Parsed? <==> pos == |s|
    ensures r.Parsed? ==> r.pos == pos
    ensures !r.Parsed? ==> r == Backtrack(FromInput(s, pos))
  {
    if pos == |s| then Parsed((), pos) else Backtrack(FromInput(s, pos))
  }

  /** The end of the longest run of characters satisfying `p` from `pos`. */
  function RunEnd(s: seq<char>, pos: nat, p: char -> bool): (q: nat)
    requires pos <= |s|
    ensures pos <= q <= |s|
    ensures forall k :: pos <= k < q ==> p(s[k])
    ensures q == |s| || !p(s[q])
    decreases |s| - pos
  {
    if pos < |s| && p(s[pos]) then RunEnd(s, pos + 1, p) else pos
  }

  /** `take_while(0.., p)`: the longest run satisfying `p`; never fails. */
  function TakeWhile0(s: seq<char>, pos: nat, p: char -> bool): (r: Outcome<seq<char>>)
    requires pos <= |s|
    ensures r.Parsed? && pos <= r.pos <= |s| && r.value == s[pos..r.pos]
    ensures forall k :: pos <= k < r.pos ==> p(s[k])
    ensures r.pos == |s| || !p(s[r.pos])
  {
    var q := RunEnd(s, pos, p);
    Parsed(s[pos..q], q)
  }

  /** `take_while(1.., p)`: as `TakeWhile0`, but an empty run backtracks. */
  function TakeWhile1(s: seq<char>, pos: nat, p: char -> bool): (r: Outcome<seq<char>>)
    requires pos <= |s|
    ensures r.Parsed? <==> pos < |s| && p(s[pos])
    ensures r.Parsed? ==> pos < r.pos <= |s| && r.value == s[pos..r.pos]
    ensures r.Parsed? ==> (forall k :: pos <= k < r.pos ==> p(s[k])) && (r.pos == |s| || !p(s[r.pos]))
    ensures !r.Parsed? ==> r == Backtrack(FromInput(s, pos))
  {
    var q := RunEnd(s, pos, p);
    if q == pos then Backtrack(FromInput(s, pos)) else Parsed(s[pos..q], q)
  }

  /** `take_till(1.., stop)`: the longest non-empty run of characters that are not `stop`. */
  function TakeTill1(s: seq<char>, pos: nat, stop: char -> bool): (r: Outcome<seq<char>>)
    requires pos <= |s|
    ensures r.Parsed? <==> pos < |s| && !stop(s[pos])
    ensures r.Parsed? ==> pos < r.pos <= |s| && r.value == s[pos..r.pos]
    ensures r.Parsed? ==> (forall k :: pos <= k < r.pos ==> !stop(s[k])) && (r.pos == |s| || stop(s[r.pos]))
    ensures !r.Parsed? ==> r == Backtrack(FromInput(s, pos))
  {
    TakeWhile1(s, pos, c => !stop(c))
  }

  /** The first index at or after `pos` where `t` occurs, if any. */
  function Find(s: seq<char>, pos: nat, t: seq<char>): (r: Option<nat>)
    requires pos <= |s|
    ensures r.Some? ==> pos <= r.value && OccursAt(s, r.value, t)
    ensures r.Some? ==> forall j :: pos <= j < r.value ==> !OccursAt(s, j, t)
    ensures r.None? ==> forall j :: pos <= j ==> !OccursAt(s, j, t)
    decreases |s| - pos
  {
    if OccursAt(s, pos, t) then Some(pos)
    else if pos == |s| then None
    else Find(s, pos + 1, t)
  }

  /** `take_until(0.., t)`: the text before the first occurrence of `t`, which stays unconsumed. */
  function TakeUntil0(s: seq<char>, pos: nat, t: seq<char>): (r: Outcome<seq<char>>)
    requires pos <= |s|
    ensures r.Parsed? <==> exists j :: pos <= j && OccursAt(s, j, t)
    ensures r.Parsed? ==> pos <= r.pos <= |s| && r.value == s[pos..r.pos] && OccursAt(s, r.pos, t)
    ensures r.Parsed? ==> forall j :: pos <= j < r.pos ==> !OccursAt(s, j, t)
    ensures !r.Parsed? ==> r == Backtrack(FromInput(s, pos))
  {
    match Find(s, pos, t)
    case Some(i) => Parsed(s[pos..i], i)
    case None => Backtrack(FromInput(s, pos))
  }

  /** `fail`. */
  function Fail<T>(s: seq<char>, pos: nat): (r: Outcome<T>)
    requires pos <= |s|
    ensures r == Backtrack(FromInput(s, pos))
  {
    Backtrack(FromInput(s, pos))
  }

  /** `alt((a, b))`: `b`, run from the same cursor, only when `a` backtracks; a `Cut` of `a` is final. */
  function Alt<T>(a: Outcome<T>, b: Outcome<T>): (r: Outcome<T>)
    ensures a.Backtrack? ==> r == b
    ensures !a.Backtrack? ==> r == a
  {
    if a.Backtrack? then b else a
  }

  /** `opt(p)`: a backtrack becomes `None` at the saved cursor; a `Cut` stays fatal. */
  function Opt<T>(o: Outcome<T>, pos: nat): (r: Outcome<Option<T>>)
    ensures r.Parsed? <==> !o.Cut?
    ensures o.Parsed? ==> r == Parsed(Some(o.value), o.pos)
    ensures o.Backtrack? ==> r == Parsed(None, pos)
    ensures o.Cut? ==> r == Cut(o.err)
  {
    match o
    case Parsed(v, p) => Parsed(Some(v), p)
    case Backtrack(_) => Parsed(None, pos)
    case Cut(e) => Cut(e)
  }

  /** `peek(p)`: the result of `p` with the cursor put back. */
  function Peek<T>(o: Outcome<T>, pos: nat): (r: Outcome<T>)
    ensures r.Parsed? <==> o.Parsed?
    ensures o.Parsed? ==> r.value == o.value && r.pos == pos
    ensures !o.Parsed? ==> r == o
  {
    match o
    case Parsed(v, _) => Parsed(v, pos)
    case _ => o
  }

  /** `not(p)`: succeeds, consuming nothing, exactly when `p` backtracks. */
  function Not<T>(s: seq<char>, pos: nat, o: Outcome<T>): (r: Outcome<()>)
    requires pos <= |s|
    ensures r.Parsed? <==> o.Backtrack?
    ensures r.Parsed? ==> r.pos == pos
    ensures o.Parsed? ==> r == Backtrack(FromInput(s, pos))
    ensures o.Cut? ==> r == Cut(o.err)
  {
    match o
    case Parsed(_, _) => Backtrack(FromInput(s, pos))
    case Backtrack(_) => Parsed((), pos)
    case Cut(e) => Cut(e)
  }

  /** `p.verify(pred)`: a value refused by `pred` backtracks at the saved cursor. */
  function Verify<T>(s: seq<char>, pos: nat, o: Outcome<T>, pred: T -> bool): (r: Outcome<T>)
    requires pos <= |s|
    ensures r.Parsed? <==> o.Parsed? && pred(o.value)
    ensures r.Parsed? ==> r == o
    ensures o.Parsed? && !pred(o.value) ==> r == Backtrack(FromInput(s, pos))
    ensures !o.Parsed? ==> r == o
  {
    match o
    case Parsed(v, _) => if pred(v) then o else Backtrack(FromInput(s, pos))
    case _ => o
  }
}

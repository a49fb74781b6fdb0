/**
 * The driver of the streaming JSON parser: `json::parser` keeps a stack of
 * matchers, hands each input character to the one on top, pops it when it
 * is done and pushes the matcher it asks for. Input may arrive in any
 * number of chunks; `eof` then lets every matcher left on the stack see
 * the end of the input.
 *
 * The callbacks are modelled by the log of events they receive.
 */
module JsonParser {
  import opened DecimalDigits
  import opened JsonMatchers

  /** `max_stack_depth_`: a push onto a stack already deeper than this is refused. */
  const MaxStackDepth: nat := 200

  /** The parser's state: its stack (top last), error, callback log and (column, row) coordinate. */
  datatype Config = Config(stack: seq<Matcher>, error: Option<JsonError>, events: seq<Event>, column: nat, row: nat)

  /** What the constructor builds: end of input at the bottom, trailing whitespace, then the root. */
  const Initial: Config := Config([EndOfInput, Whitespace(false), Root(RootStart, false)], None, [], 1, 1)

  /**
   * The state in which the parser can take more input: unless an error
   * has been recorded, the end-of-input matcher is still at the bottom of
   * the stack, and the stack never holds more than one matcher above the
   * depth limit.
   */
  predicate Ready(cf: Config)
  {
    |cf.stack| <= MaxStackDepth + 1
    && (cf.error.None? ==> |cf.stack| >= 1 && cf.stack[0] == EndOfInput)
  }

  function Top(stack: seq<Matcher>): Matcher
    requires stack != []
  {
    stack[|stack| - 1]
  }

  /** `advance_row` sets the column to zero, `reset_column` too; the loop then counts the character. */
  function MoveRow(column: nat, row: nat, move: RowMove): (nat, nat)
  {
    match move
    case SameRow => (column, row)
    case NextRow => (0, row + 1)
    case RowStart => (0, row)
  }

  /**
   * One turn of the loop in `parser::input`, once the top matcher has
   * taken its step `st`: a failing matcher stays on the stack, done, and
   * the loop stops; a done one is popped; a matcher it asks for is pushed
   * unless the stack is already deeper than the limit. The second
   * component says whether the character was matched, so that the loop
   * moves on to the next one.
   */
  function Turn(cf: Config, st: Step): (r: (Config, bool))
    requires Ready(cf) && cf.error.None? && (|cf.stack| == 1 ==> st.error.Some?)
    ensures Ready(r.0)
    ensures r.0.events == cf.events + st.events
    ensures r.1 ==> r.0.error.None?
  {
    var n := |cf.stack|;
    var (column, row) := MoveRow(cf.column, cf.row, st.row);
    var events := cf.events + st.events;
    if st.error.Some? then
      (Config(cf.stack[..n - 1] + [Done], st.error, events, column, row), false)
    else
      var below := if st.next == Done then cf.stack[..n - 1] else cf.stack[..n - 1] + [st.next];
      if st.push.Some? && |below| > MaxStackDepth then
        (Config(below, Some(NestingTooDeep), events, column, row), false)
      else
        var stack := if st.push.Some? then below + [st.push.value] else below;
        (Config(stack, None, events, if st.matched then column + 1 else column, row), st.matched)
  }

  /** The top matcher consumes `c`; the end-of-input matcher at the bottom refuses any character. */
  function Advance(cf: Config, c: char): (r: (Config, bool))
    requires Ready(cf) && cf.error.None?
    ensures Ready(r.0)
  {
    assert |cf.stack| == 1 ==> Top(cf.stack) == EndOfInput;
    Turn(cf, Consume(Top(cf.stack), Some(c)))
  }

  // Termination of the input loop

  /**
   * How many more turns matcher `m` can take over character `c` without
   * matching it: a matcher that stops and leaves `c` to the one below
   * counts one, one that pushes another matcher counts the turns of both.
   */
  function Local(m: Matcher, c: char): nat
  {
    match m
    case Root(s, _) => if s == NewToken then 1 else if IsSpace(c) then 2 else 3
    case Whitespace(_) => if IsSpace(c) then 0 else 1
    case EndOfInput => 0
    case Token(k, seen) => if seen >= |KeywordText(k)| && !IsAlnum(c) then 1 else 0
    case Number(s, _, _, _) => if NumberEnds(s, c) then 1 else 0
    case Str(_, _, _, _) => 0
    case Array(s) =>
      if s == ArrayStart || (s == FirstMember && c == ']') then 0
      else if s == ArrayComma then (if IsSpace(c) then 1 else 0)
      else 4
    case Object(s) =>
      if s == ObjectStart || (s == FirstKey && c == '}') then 0
      else if s == Colon || s == ObjectComma then (if IsSpace(c) then 1 else 0)
      else 4
    case Done => 0
  }

  /** The number states in which a character that cannot continue the number ends it without being matched. */
  predicate NumberEnds(s: NumberState, c: char)
  {
    ((s == IntegerDigit || s == Frac) && !(IsDigit(c) || c == '.' || IsExponentMark(c)))
    || (s == FracDigit && !(IsDigit(c) || IsExponentMark(c)))
    || (s == ExponentDigit && !IsDigit(c))
  }

  function StackPot(stack: seq<Matcher>, c: char): nat
  {
    if stack == [] then 0 else StackPot(stack[..|stack| - 1], c) + Local(stack[|stack| - 1], c)
  }

  /** The termination measure of the input loop, after the length of the input. */
  function Pot(stack: seq<Matcher>, s: string): nat
  {
    if s == [] then 0 else StackPot(stack, s[0])
  }

  function TopPot(stack: seq<Matcher>, s: string): nat
  {
    if s == [] || stack == [] then 0 else Local(Top(stack), s[0])
  }

  /**
   * A turn that neither fails nor matches its character leaves fewer
   * turns to take: the matcher is popped, or replaced together with the
   * one it pushes by matchers with fewer turns left between them.
   */
  lemma UnmatchedStepShrinks(m: Matcher, c: char)
    ensures var st := Consume(m, Some(c));
      st.error.None? && !st.matched ==>
        if st.next == Done then
          (st.push.None? ==> Local(m, c) == 1) && (st.push.Some? ==> Local(st.push.value, c) < Local(m, c))
        else
          st.push.Some?
          && (Local(st.next, c) + Local(st.push.value, c) < Local(m, c)
              || (Local(st.next, c) + Local(st.push.value, c) == Local(m, c) && Local(st.push.value, c) < Local(m, c)))
  {
    match m
    case Root(s, only) =>
      if s == NewToken && ValueMatcher(c).Some? {
        ValueMatcherMatches(c);
      }
    case Number(s, negative, isInteger, acc) =>
      NumberUnmatched(s, negative, isInteger, acc, c);
    case Token(k, seen) =>
    case Str(s, text, high, hex) =>
      StringMatches(s, text, high, hex, c);
    case _ =>
  }

  /** The matcher that starts a value matches that value's first character. */
  lemma ValueMatcherMatches(c: char)
    requires ValueMatcher(c).Some?
    ensures Local(ValueMatcher(c).value, c) == 0
  {
  }

  lemma NumberUnmatched(s: NumberState, negative: bool, isInteger: bool, acc: nat, c: char)
    ensures var st := NumberConsume(s, negative, isInteger, acc, Some(c));
      !st.matched ==> NumberEnds(s, c) && st.next == Done && st.push.None?
  {
  }

  lemma StringMatches(s: StringState, text: string, high: Option<HighSurrogate>, hex: nat, c: char)
    ensures StringConsume(s, text, high, hex, Some(c)).matched && StringConsume(s, text, high, hex, Some(c)).push.None?
  {
    if s.Hex? && s.k >= 4 && HexDigit(c).Some? {
      var v := 16 * (if s.k <= 1 then 0 else hex) + HexDigit(c).value;
      assert StringConsume(s, text, high, hex, Some(c)) == Append16(text, high, v);
    }
  }

  lemma StackPotSnoc(stack: seq<Matcher>, m: Matcher, c: char)
    ensures StackPot(stack + [m], c) == StackPot(stack, c) + Local(m, c)
  {
    assert (stack + [m])[..|stack + [m]| - 1] == stack;
  }

  /** A turn of the loop that leaves its character unmatched, without an error, brings the measure down. */
  lemma TurnShrinks(cf: Config, c: char, st: Step)
    requires Ready(cf) && cf.error.None? && st == Consume(Top(cf.stack), Some(c))
    requires |cf.stack| == 1 ==> st.error.Some?
    requires var r := Turn(cf, st); r.0.error.None? && !r.1
    ensures var r := Turn(cf, st);
      StackPot(r.0.stack, c) < StackPot(cf.stack, c)
      || (StackPot(r.0.stack, c) == StackPot(cf.stack, c) && Local(Top(r.0.stack), c) < Local(Top(cf.stack), c))
  {
    var n := |cf.stack|;
    var m := cf.stack[n - 1];
    var rest := cf.stack[..n - 1];
    UnmatchedStepShrinks(m, c);
    StackPotSnoc(rest, m, c);
    SplitLast(cf.stack);
    if st.next == Done {
      if st.push.Some? {
        StackPotSnoc(rest, st.push.value, c);
      }
    } else {
      StackPotSnoc(rest, st.next, c);
      StackPotSnoc(rest + [st.next], st.push.value, c);
    }
  }

  // The input loop and the end of the input

  /**
   * `parser::input` over the characters `s`: nothing happens once an error
   * is recorded; otherwise turns are taken until the input is used up or a
   * turn records an error.
   */
  function InputRun(cf: Config, s: string): (r: Config)
    requires Ready(cf)
    ensures Ready(r)
    ensures cf.error.Some? ==> r == cf
    decreases |s|, Pot(cf.stack, s), TopPot(cf.stack, s)
  {
    if cf.error.Some? || s == [] then cf
    else
      var (next, matched) := Advance(cf, s[0]);
      if next.error.Some? then next
      else if matched then InputRun(next, s[1..])
      else
        TurnShrinks(cf, s[0], Consume(Top(cf.stack), Some(s[0])));
        InputRun(next, s)
  }

  /** The first turn of `InputRun`, for a caller that takes the turns one at a time. */
  lemma InputRunTurn(cf: Config, s: string)
    requires Ready(cf) && cf.error.None? && s != []
    ensures var r := Advance(cf, s[0]);
      InputRun(cf, s) == if r.0.error.Some? then r.0 else InputRun(r.0, if r.1 then s[1..] else s)
  {
  }

  /** One turn of `InputRun`, as the loop of `parser::input` takes it. */
  lemma InputStep(cf: Config, s: string, next: Config, matched: bool, rest: string)
    requires Ready(cf) && cf.error.None? && s != []
    requires (next, matched) == Advance(cf, s[0]) && rest == if matched then s[1..] else s
    ensures InputRun(cf, s) == InputRun(next, rest)
    ensures !matched && next.error.None? ==>
      Pot(next.stack, s) < Pot(cf.stack, s)
      || (Pot(next.stack, s) == Pot(cf.stack, s) && TopPot(next.stack, s) < TopPot(cf.stack, s))
  {
    InputRunTurn(cf, s);
    if !matched && next.error.None? {
      TurnShrinks(cf, s[0], Consume(Top(cf.stack), Some(s[0])));
    }
  }

  /**
   * Input split into chunks is parsed as if it came at once: `input` may
   * be called with any division of the text.
   */
  lemma {:induction false} InputChunks(cf: Config, s: string, t: string)
    requires Ready(cf)
    ensures InputRun(InputRun(cf, s), t) == InputRun(cf, s + t)
    decreases |s|, Pot(cf.stack, s), TopPot(cf.stack, s)
  {
    if s == [] {
      assert s + t == t;
    } else if cf.error.None? {
      ChunkTurn(cf, s, t);
      var (next, matched) := Advance(cf, s[0]);
      if next.error.None? {
        if matched {
          InputChunks(next, s[1..], t);
        } else {
          TurnShrinks(cf, s[0], Consume(Top(cf.stack), Some(s[0])));
          InputChunks(next, s, t);
        }
      }
    }
  }

  /** The first turn is the same whether or not more input follows. */
  lemma ChunkTurn(cf: Config, s: string, t: string)
    requires Ready(cf) && cf.error.None? && s != []
    ensures var (next, matched) := Advance(cf, s[0]);
      var rest := if matched then s[1..] else s;
      if next.error.Some? then InputRun(cf, s) == next && InputRun(cf, s + t) == next
      else InputRun(cf, s) == InputRun(next, rest) && InputRun(cf, s + t) == InputRun(next, rest + t)
  {
    assert (s + t)[0] == s[0];
    InputRunTurn(cf, s);
    InputRunTurn(cf, s + t);
    assert (s + t)[1..] == s[1..] + t;
  }

  /** Once an error is recorded, further input changes nothing. */
  lemma ErrorIsSticky(cf: Config, s: string, t: string)
    requires Ready(cf) && InputRun(cf, s).error.Some?
    ensures InputRun(cf, s + t) == InputRun(cf, s)
  {
    InputChunks(cf, s, t);
  }

  // Coordinates

  /** A step that neither finishes, fails, pushes nor reports replaces the top matcher and moves the coordinate. */
  lemma PlainTurn(cf: Config, st: Step)
    requires Ready(cf) && cf.error.None? && |cf.stack| >= 2
    requires st.error.None? && st.push.None? && st.next != Done && st.events == []
    ensures var mv := MoveRow(cf.column, cf.row, st.row);
      Turn(cf, st) == (cf.(stack := cf.stack[..|cf.stack| - 1] + [st.next],
                          column := if st.matched then mv.0 + 1 else mv.0, row := mv.1), st.matched)
  {
    assert cf.events + [] == cf.events;
  }

  /** The whitespace matcher takes a carriage return: a new row, and a mark that a line feed may pair with it. */
  lemma CarriageReturnTurn(cf: Config)
    requires Ready(cf) && cf.error.None? && Top(cf.stack) == Whitespace(false)
    ensures Advance(cf, '\r')
      == (cf.(stack := cf.stack[..|cf.stack| - 1] + [Whitespace(true)], column := 1, row := cf.row + 1), true)
  {
    assert |cf.stack| >= 2;
    var st := Step(Whitespace(true), None, true, None, [], NextRow);
    assert Consume(Top(cf.stack), Some('\r')) == st;
    PlainTurn(cf, st);
  }

  /** The whitespace matcher takes a line feed: a new row unless it pairs with a carriage return just read. */
  lemma LineFeedTurn(cf: Config, afterCr: bool)
    requires Ready(cf) && cf.error.None? && Top(cf.stack) == Whitespace(afterCr)
    ensures Advance(cf, '\n') == (cf.(stack := cf.stack[..|cf.stack| - 1] + [Whitespace(false)], column := 1,
                                      row := if afterCr then cf.row else cf.row + 1), true)
  {
    assert |cf.stack| >= 2;
    var st := Step(Whitespace(false), None, true, None, [], if afterCr then RowStart else NextRow);
    assert Consume(Top(cf.stack), Some('\n')) == st;
    PlainTurn(cf, st);
  }

  /** A line feed, or a CR LF pair, read as whitespace ends exactly one row; the next column is the first. */
  lemma LineFeed(cf: Config, brk: string)
    requires Ready(cf) && cf.error.None? && Top(cf.stack) == Whitespace(false)
    requires brk == "\n" || brk == "\r\n"
    ensures InputRun(cf, brk) == cf.(column := 1, row := cf.row + 1)
  {
    var n := |cf.stack|;
    SplitLast(cf.stack);
    InputRunTurn(cf, brk);
    if brk == "\n" {
      LineFeedTurn(cf, false);
      assert brk[1..] == [];
    } else {
      var cr := cf.(stack := cf.stack[..n - 1] + [Whitespace(true)], column := 1, row := cf.row + 1);
      CarriageReturnTurn(cf);
      assert brk[1..] == "\n" && brk[1..][1..] == [];
      InputRunTurn(cr, brk[1..]);
      assert cr.stack[..n - 1] == cf.stack[..n - 1];
      LineFeedTurn(cr, true);
    }
  }

  /** A carriage return on its own ends a row too; the whitespace matcher waits for a line feed that would pair with it. */
  lemma CarriageReturn(cf: Config)
    requires Ready(cf) && cf.error.None? && Top(cf.stack) == Whitespace(false)
    ensures InputRun(cf, "\r")
      == cf.(stack := cf.stack[..|cf.stack| - 1] + [Whitespace(true)], column := 1, row := cf.row + 1)
  {
    InputRunTurn(cf, "\r");
    CarriageReturnTurn(cf);
    assert "\r"[1..] == [];
  }

  /** Spaces and tabs stay on the row, one column each. */
  lemma {:induction false} SpacesAndTabs(cf: Config, s: string)
    requires Ready(cf) && cf.error.None? && Top(cf.stack) == Whitespace(false)
    requires forall i :: 0 <= i < |s| ==> s[i] == ' ' || s[i] == '\t'
    ensures InputRun(cf, s) == cf.(column := cf.column + |s|)
    decreases |s|
  {
    if s != [] {
      var n := |cf.stack|;
      assert n >= 2;
      SplitLast(cf.stack);
      InputRunTurn(cf, s);
      var next := cf.(column := cf.column + 1);
      assert Consume(Top(cf.stack), Some(s[0])) == Continue(Whitespace(false));
      PlainTurn(cf, Continue(Whitespace(false)));
      assert Advance(cf, s[0]) == (next, true);
      SpacesAndTabs(next, s[1..]);
    }
  }

  // Errors the parser itself reports

  /** Once the value and the whitespace after it are read, any other character is extra input. */
  lemma ExtraInput(afterCr: bool, events: seq<Event>, column: nat, row: nat, c: char)
    requires !IsSpace(c)
    ensures InputRun(Config([EndOfInput, Whitespace(afterCr)], None, events, column, row), [c])
      == Config([Done], Some(UnexpectedExtraInput), events, column, row)
  {
    var cf := Config([EndOfInput, Whitespace(afterCr)], None, events, column, row);
    InputRunTurn(cf, [c]);
    var eof := Config([EndOfInput], None, events, column, row);
    assert [EndOfInput, Whitespace(afterCr)][..1] == [EndOfInput];
    assert Consume(Whitespace(afterCr), Some(c)) == Step(Done, None, false, None, [], SameRow);
    assert events + [] == events;
    assert Advance(cf, c) == (eof, false);
    InputRunTurn(eof, [c]);
    assert [EndOfInput][..0] + [Done] == [Done];
  }

  /**
   * At the depth limit a matcher that asks for another is refused: with
   * 201 matchers on the stack, a root matcher that would push the
   * whitespace matcher records `nesting_too_deep` instead.
   */
  lemma NestingTooDeepAtLimit(cf: Config, c: char)
    requires Ready(cf) && cf.error.None? && |cf.stack| == MaxStackDepth + 1 && Top(cf.stack) == Root(RootStart, false)
    ensures InputRun(cf, [c]).error == Some(NestingTooDeep)
  {
    InputRunTurn(cf, [c]);
  }

  /**
   * A matcher asking for another is refused exactly when the stack, after
   * a finished top matcher has been popped, still holds more than 200
   * matchers: that is, when the top of 201 matchers stays on the stack.
   */
  lemma PushBeyondLimit(cf: Config, c: char)
    requires Ready(cf) && cf.error.None?
    requires var st := Consume(Top(cf.stack), Some(c)); st.error.None? && st.push.Some?
    ensures var st := Consume(Top(cf.stack), Some(c));
      Advance(cf, c).0.error == Some(NestingTooDeep) <==> |cf.stack| == MaxStackDepth + 1 && st.next != Done
    ensures var st := Consume(Top(cf.stack), Some(c));
      |cf.stack| == MaxStackDepth + 1 && st.next != Done ==> InputRun(cf, [c]).error == Some(NestingTooDeep)
  {
    InputRunTurn(cf, [c]);
  }

  /** The step of the top matcher fails with `e`: the run stops there, the top matcher done. */
  lemma FailingTurn(cf: Config, c: char, e: JsonError)
    requires Ready(cf) && cf.error.None? && Consume(Top(cf.stack), Some(c)) == Fail(e)
    ensures InputRun(cf, [c]) == cf.(stack := cf.stack[..|cf.stack| - 1] + [Done], error := Some(e))
  {
    InputRunTurn(cf, [c]);
    assert cf.events + [] == cf.events;
  }

  /** After an array member, only whitespace, `,` or `]` may follow; anything else is `expected_array_member`. */
  lemma ArrayNeedsSeparator(cf: Config, c: char)
    requires Ready(cf) && cf.error.None? && Top(cf.stack) == Array(ArrayComma)
    requires !IsSpace(c) && c != ',' && c != ']'
    ensures InputRun(cf, [c]) == cf.(stack := cf.stack[..|cf.stack| - 1] + [Done], error := Some(ExpectedArrayMember))
  {
    FailingTurn(cf, c, ExpectedArrayMember);
  }

  /** After an object member, only whitespace, `,` or `}` may follow; anything else is `expected_object_member`. */
  lemma ObjectNeedsSeparator(cf: Config, c: char)
    requires Ready(cf) && cf.error.None? && Top(cf.stack) == Object(ObjectComma)
    requires !IsSpace(c) && c != ',' && c != '}'
    ensures InputRun(cf, [c]) == cf.(stack := cf.stack[..|cf.stack| - 1] + [Done], error := Some(ExpectedObjectMember))
  {
    FailingTurn(cf, c, ExpectedObjectMember);
  }

  /** After a key, only whitespace or `:` may follow; anything else is `expected_colon`. */
  lemma KeyNeedsColon(cf: Config, c: char)
    requires Ready(cf) && cf.error.None? && Top(cf.stack) == Object(Colon)
    requires !IsSpace(c) && c != ':'
    ensures InputRun(cf, [c]) == cf.(stack := cf.stack[..|cf.stack| - 1] + [Done], error := Some(ExpectedColon))
  {
    FailingTurn(cf, c, ExpectedColon);
  }

  /**
   * A key must be a string: any other value is `expected_string`, but a
   * character that starts no value at all is `expected_token`, the root
   * matcher's later error replacing the first.
   */
  lemma KeyMustBeString(cf: Config, c: char)
    requires Ready(cf) && cf.error.None? && Top(cf.stack) == Root(NewToken, true) && c != '"'
    ensures InputRun(cf, [c]).error == Some(if ValueMatcher(c).Some? then ExpectedString else ExpectedToken)
    ensures InputRun(cf, [c]).stack == cf.stack[..|cf.stack| - 1] + [Done]
  {
    InputRunTurn(cf, [c]);
  }

  /**
   * `parser::eof`: each matcher left on the stack, from the top, sees the
   * end of the input and is popped, until the stack is empty or one of
   * them records an error.
   */
  function EofRun(cf: Config): (r: Config)
    ensures |r.stack| <= |cf.stack|
    ensures cf.error.Some? ==> r == cf
    ensures r.error.None? ==> r.stack == []
    decreases |cf.stack|
  {
    if cf.stack == [] || cf.error.Some? then cf
    else
      var n := |cf.stack|;
      var st := Consume(cf.stack[n - 1], None);
      EofRun(Config(cf.stack[..n - 1], st.error, cf.events + st.events, cf.column, cf.row))
  }

  // Paired begin and end callbacks

  /** An array (`true`) or object (`false`) whose `begin` has been reported and whose `end` has not. */
  function Opens(m: Matcher): seq<bool>
  {
    match m
    case Array(s) => if s == ArrayStart then [] else [true]
    case Object(s) => if s == ObjectStart then [] else [false]
    case _ => []
  }

  /** The open arrays and objects on a stack, outermost first. */
  function OpenKinds(stack: seq<Matcher>): seq<bool>
  {
    if stack == [] then [] else OpenKinds(stack[..|stack| - 1]) + Opens(stack[|stack| - 1])
  }

  /**
   * Reading one event with the arrays and objects `open` still open: a
   * `begin` opens one, an `end` must close the innermost one of its kind,
   * and a value changes nothing. `None` is a mismatched `end`.
   */
  function NestStep(open: Option<seq<bool>>, e: Event): Option<seq<bool>>
  {
    match open
    case None => None
    case Some(k) =>
      match e
      case BeginArray => Some(k + [true])
      case BeginObject => Some(k + [false])
      case EndArray => if k != [] && k[|k| - 1] then Some(k[..|k| - 1]) else None
      case EndObject => if k != [] && !k[|k| - 1] then Some(k[..|k| - 1]) else None
      case _ => Some(k)
  }

  function NestFrom(open: Option<seq<bool>>, events: seq<Event>): Option<seq<bool>>
    decreases |events|
  {
    if events == [] then open else NestFrom(NestStep(open, events[0]), events[1..])
  }

  /** The arrays and objects a log of events leaves open, or `None` if an `end` does not match. */
  function Nest(events: seq<Event>): Option<seq<bool>>
  {
    NestFrom(Some([]), events)
  }

  lemma {:induction false} NestFromAppend(open: Option<seq<bool>>, a: seq<Event>, b: seq<Event>)
    ensures NestFrom(open, a + b) == NestFrom(NestFrom(open, a), b)
    decreases |a|
  {
    if a != [] {
      assert (a + b)[0] == a[0] && (a + b)[1..] == a[1..] + b;
      NestFromAppend(NestStep(open, a[0]), a[1..], b);
    } else {
      assert a + b == b;
    }
  }

  lemma SplitLast(stack: seq<Matcher>)
    requires stack != []
    ensures stack[..|stack| - 1] + [stack[|stack| - 1]] == stack
  {
  }

  lemma OpenKindsSnoc(stack: seq<Matcher>, m: Matcher)
    ensures OpenKinds(stack + [m]) == OpenKinds(stack) + Opens(m)
  {
    assert (stack + [m])[..|stack + [m]| - 1] == stack;
  }

  /** While no error is recorded, the log leaves open exactly the arrays and objects open on the stack. */
  predicate Nested(cf: Config)
  {
    cf.error.None? ==> Nest(cf.events) == Some(OpenKinds(cf.stack))
  }

  lemma NestOne(open: Option<seq<bool>>, e: Event)
    ensures NestFrom(open, [e]) == NestStep(open, e)
  {
    assert [e][1..] == [];
  }

  /** The events that open or close an array or object. */
  predicate Structural(e: Event)
  {
    e.BeginArray? || e.EndArray? || e.BeginObject? || e.EndObject?
  }

  /** A step that opens and closes nothing: at most one event, a value, and no open array or object. */
  predicate Neutral(st: Step)
  {
    |st.events| <= 1 && (forall i :: 0 <= i < |st.events| ==> !Structural(st.events[i]))
    && Opens(st.next) == [] && (st.push.Some? ==> Opens(st.push.value) == [])
  }

  lemma CompleteNeutral(negative: bool, isInteger: bool, acc: nat, matched: bool)
    ensures Neutral(Complete(negative, isInteger, acc, matched))
  {
  }

  lemma NumberNeutral(s: NumberState, negative: bool, isInteger: bool, acc: nat, ch: Option<char>)
    ensures Neutral(NumberConsume(s, negative, isInteger, acc, ch))
  {
    CompleteNeutral(negative, isInteger, acc, ch.None?);
  }

  lemma StringNeutral(s: StringState, text: string, high: Option<HighSurrogate>, hex: nat, ch: Option<char>)
    ensures Neutral(StringConsume(s, text, high, hex, ch))
  {
    if s.Hex? && s.k >= 4 && ch.Some? && HexDigit(ch.value).Some? {
      var v := 16 * (if s.k <= 1 then 0 else hex) + HexDigit(ch.value).value;
      assert StringConsume(s, text, high, hex, ch) == Append16(text, high, v);
    }
  }

  lemma RootNeutral(s: RootState, only: bool, ch: Option<char>)
    ensures Neutral(RootConsume(s, only, ch))
  {
  }

  /** What a step of an array (`kind`) or object (not `kind`) matcher does to the open containers. */
  predicate ContainerStep(m: Matcher, kind: bool, start: bool, st: Step)
  {
    var pushed := if st.push.Some? then Opens(st.push.value) else [];
    && Opens(m) == (if start then [] else [kind])
    && (st.events == [] ==> !start && Opens(st.next) == [kind] && pushed == [])
    && (start ==> st.events == [if kind then BeginArray else BeginObject] && Opens(st.next) == [kind] && pushed == [])
    && (!start && st.events != [] ==>
          st.events == [if kind then EndArray else EndObject] && st.next == Done && pushed == [])
  }

  lemma ContainerNesting(m: Matcher, kind: bool, start: bool, st: Step, k: seq<bool>)
    requires ContainerStep(m, kind, start, st)
    ensures var pushed := if st.push.Some? then Opens(st.push.value) else [];
      NestFrom(Some(k + Opens(m)), st.events) == Some(k + Opens(st.next) + pushed)
  {
    var pushed := if st.push.Some? then Opens(st.push.value) else [];
    if st.events == [] {
      assert k + [kind] + [] == k + [kind];
    } else if start {
      NestOne(Some(k + []), st.events[0]);
      assert k + [] == k;
      assert k + [kind] + [] == k + [kind];
    } else {
      NestOne(Some(k + [kind]), st.events[0]);
      assert (k + [kind])[..|k + [kind]| - 1] == k;
      assert k + [] + [] == k;
    }
  }

  lemma ArrayNesting(s: ArrayState, ch: Option<char>, k: seq<bool>)
    ensures var st := ArrayConsume(s, ch);
      var pushed := if st.push.Some? then Opens(st.push.value) else [];
      st.error.None? ==> NestFrom(Some(k + Opens(Array(s))), st.events) == Some(k + Opens(st.next) + pushed)
  {
    var st := ArrayConsume(s, ch);
    if st.error.None? {
      assert ContainerStep(Array(s), true, s == ArrayStart, st);
      ContainerNesting(Array(s), true, s == ArrayStart, st, k);
    }
  }

  lemma ObjectNesting(s: ObjectState, ch: Option<char>, k: seq<bool>)
    ensures var st := ObjectConsume(s, ch);
      var pushed := if st.push.Some? then Opens(st.push.value) else [];
      st.error.None? ==> NestFrom(Some(k + Opens(Object(s))), st.events) == Some(k + Opens(st.next) + pushed)
  {
    var st := ObjectConsume(s, ch);
    if st.error.None? {
      assert ContainerStep(Object(s), false, s == ObjectStart, st);
      ContainerNesting(Object(s), false, s == ObjectStart, st, k);
    }
  }

  /**
   * One step of a matcher, without an error, reports the `begin` of the
   * array or object it opens, the `end` of the one it closes, and nothing
   * else that opens or closes.
   */
  lemma StepNesting(m: Matcher, ch: Option<char>, k: seq<bool>)
    ensures var st := Consume(m, ch);
      var pushed := if st.push.Some? then Opens(st.push.value) else [];
      st.error.None? ==> NestFrom(Some(k + Opens(m)), st.events) == Some(k + Opens(st.next) + pushed)
  {
    var st := Consume(m, ch);
    assert k + [] == k && k + [] + [] == k;
    if st.error.None? {
      if st.events != [] {
        NestOne(Some(k + Opens(m)), st.events[0]);
        assert |st.events| == 1 ==> st.events == [st.events[0]];
      }
      match m
      case Array(s) =>
        ArrayNesting(s, ch, k);
      case Object(s) =>
        ObjectNesting(s, ch, k);
      case Number(s, negative, isInteger, acc) =>
        NumberNeutral(s, negative, isInteger, acc, ch);
      case Str(s, text, high, hex) =>
        StringNeutral(s, text, high, hex, ch);
      case Root(s, only) =>
        RootNeutral(s, only, ch);
      case _ =>
        assert Neutral(st);
    }
  }

  /** The stack a turn leaves when it records no error. */
  lemma TurnStack(cf: Config, st: Step)
    requires Ready(cf) && cf.error.None? && (|cf.stack| == 1 ==> st.error.Some?)
    ensures var n := |cf.stack|;
      var below := if st.next == Done then cf.stack[..n - 1] else cf.stack[..n - 1] + [st.next];
      Turn(cf, st).0.error.None? ==>
        st.error.None? && Turn(cf, st).0.stack == if st.push.Some? then below + [st.push.value] else below
  {
  }

  /** The log and the stack stay in step when a step's events match what it does to the top matcher. */
  lemma StepKeepsNesting(prefix: seq<Matcher>, m: Matcher, events: seq<Event>, st: Step, stack: seq<Matcher>)
    requires Nest(events) == Some(OpenKinds(prefix + [m]))
    requires var k := OpenKinds(prefix);
      var pushed := if st.push.Some? then Opens(st.push.value) else [];
      NestFrom(Some(k + Opens(m)), st.events) == Some(k + Opens(st.next) + pushed)
    requires var below := if st.next == Done then prefix else prefix + [st.next];
      stack == if st.push.Some? then below + [st.push.value] else below
    ensures Nest(events + st.events) == Some(OpenKinds(stack))
  {
    var k := OpenKinds(prefix);
    OpenKindsSnoc(prefix, m);
    NestFromAppend(Some([]), events, st.events);
    assert Nest(events + st.events) == NestFrom(Some(k + Opens(m)), st.events);
    var below := if st.next == Done then prefix else prefix + [st.next];
    if st.next == Done {
      assert k + Opens(st.next) == k;
    } else {
      OpenKindsSnoc(prefix, st.next);
    }
    assert OpenKinds(below) == k + Opens(st.next);
    var pushed := if st.push.Some? then Opens(st.push.value) else [];
    if st.push.Some? {
      OpenKindsSnoc(below, st.push.value);
    } else {
      assert k + Opens(st.next) + [] == k + Opens(st.next);
    }
    assert OpenKinds(stack) == k + Opens(st.next) + pushed;
  }

  /** The turn of the input loop that applies a step keeping the log and the stack in step. */
  lemma TurnKeepsNesting(cf: Config, st: Step)
    requires Ready(cf) && Nested(cf) && cf.error.None? && (|cf.stack| == 1 ==> st.error.Some?)
    requires var k := OpenKinds(cf.stack[..|cf.stack| - 1]);
      var pushed := if st.push.Some? then Opens(st.push.value) else [];
      st.error.None? ==> NestFrom(Some(k + Opens(Top(cf.stack))), st.events) == Some(k + Opens(st.next) + pushed)
    ensures Nested(Turn(cf, st).0)
  {
    var n := |cf.stack|;
    var r := Turn(cf, st).0;
    if r.error.None? {
      var prefix, m := cf.stack[..n - 1], cf.stack[n - 1];
      var below := if st.next == Done then prefix else prefix + [st.next];
      assert st.error.None? && r.stack == if st.push.Some? then below + [st.push.value] else below by {
        TurnStack(cf, st);
      }
      assert Nest(cf.events) == Some(OpenKinds(prefix + [m])) by {
        SplitLast(cf.stack);
      }
      var pushed := if st.push.Some? then Opens(st.push.value) else [];
      assert NestFrom(Some(OpenKinds(prefix) + Opens(m)), st.events) == Some(OpenKinds(prefix) + Opens(st.next) + pushed) by {
        assert Top(cf.stack) == m;
      }
      StepKeepsNesting(prefix, m, cf.events, st, r.stack);
      assert r.events == cf.events + st.events;
    }
  }

  /** A turn of the input loop keeps the log and the stack in step. */
  lemma TurnNesting(cf: Config, c: char)
    requires Ready(cf) && Nested(cf) && cf.error.None?
    ensures Nested(Advance(cf, c).0)
  {
    var st := Consume(Top(cf.stack), Some(c));
    StepNesting(Top(cf.stack), Some(c), OpenKinds(cf.stack[..|cf.stack| - 1]));
    assert |cf.stack| == 1 ==> st.error.Some?;
    TurnKeepsNesting(cf, st);
  }

  lemma {:induction false} InputNesting(cf: Config, s: string)
    requires Ready(cf) && Nested(cf)
    ensures Nested(InputRun(cf, s))
    decreases |s|, Pot(cf.stack, s), TopPot(cf.stack, s)
  {
    if s != [] && cf.error.None? {
      InputRunTurn(cf, s);
      TurnNesting(cf, s[0]);
      var (next, matched) := Advance(cf, s[0]);
      if next.error.None? {
        if matched {
          InputNesting(next, s[1..]);
        } else {
          TurnShrinks(cf, s[0], Consume(Top(cf.stack), Some(s[0])));
          InputNesting(next, s);
        }
      }
    }
  }

  /** One turn of the loop in `parser::eof`, as `EofRun` takes it. */
  function EofTurn(cf: Config): Config
    requires cf.stack != []
  {
    var n := |cf.stack|;
    var st := Consume(cf.stack[n - 1], None);
    Config(cf.stack[..n - 1], st.error, cf.events + st.events, cf.column, cf.row)
  }

  /** A matcher that accepts the end of the input is done with it, pushes nothing and has no array or object open. */
  lemma EofStepDone(m: Matcher)
    ensures var st := Consume(m, None); st.error.None? ==> st.next == Done && st.push.None? && Opens(m) == []
  {
  }

  lemma EofTurnNesting(cf: Config)
    requires Nested(cf) && cf.stack != [] && cf.error.None?
    ensures var next := EofTurn(cf);
      Nested(next) && (next.error.None? ==> OpenKinds(next.stack) == OpenKinds(cf.stack))
  {
    var n := |cf.stack|;
    var m := cf.stack[n - 1];
    var st := Consume(m, None);
    if st.error.None? {
      var prefix := cf.stack[..n - 1];
      SplitLast(cf.stack);
      StepNesting(m, None, OpenKinds(prefix));
      EofStepDone(m);
      StepKeepsNesting(prefix, m, cf.events, st, prefix);
      OpenKindsSnoc(prefix, m);
      assert OpenKinds(prefix) + [] == OpenKinds(prefix);
    }
  }

  lemma {:induction false} EofNesting(cf: Config)
    requires Nested(cf)
    ensures var r := EofRun(cf); r.error.None? ==> Nest(r.events) == Some([]) && Nest(cf.events) == Some([])
    decreases |cf.stack|
  {
    if cf.stack != [] && cf.error.None? {
      var next := EofTurn(cf);
      assert EofRun(cf) == EofRun(next);
      EofTurnNesting(cf);
      EofNesting(next);
    }
  }

  /**
   * A document read without an error reports its `begin` and `end`
   * callbacks in matching pairs, properly nested, with every array and
   * object closed.
   */
  lemma CallbacksPaired(s: string)
    ensures var r := EofRun(InputRun(Initial, s)); r.error.None? ==> Nest(r.events) == Some([])
  {
    assert OpenKinds(Initial.stack) == [] by {
      var st := Initial.stack;
      assert st[..2] == [EndOfInput, Whitespace(false)] && st[..2][..1] == [EndOfInput] && [EndOfInput][..0] == [];
      assert OpenKinds([EndOfInput]) == [];
      assert OpenKinds(st[..2]) == [];
    }
    InputNesting(Initial, s);
    EofNesting(InputRun(Initial, s));
  }

  /** The parser object. */
  class Parser {
    var stack: seq<Matcher>
    var error: Option<JsonError>
    var events: seq<Event>
    var column: nat
    var row: nat

    function State(): Config
      reads this
    {
      Config(stack, error, events, column, row)
    }

    predicate Valid()
      reads this
    {
      Ready(State())
    }

    constructor()
      ensures State() == Initial && Valid()
    {
      stack := [EndOfInput, Whitespace(false), Root(RootStart, false)];
      error := None;
      events := [];
      column := 1;
      row := 1;
    }

    /** `has_error`. */
    function HasError(): (b: bool)
      reads this
      ensures b <==> error.Some?
    {
      error.Some?
    }

    /** `parser::input`. */
    method Input(s: string)
      requires Valid()
      modifies this
      ensures Valid() && State() == InputRun(old(State()), s)
    {
      if error.Some? {
        return;
      }
      var rest := s;
      ghost var start := State();
      ghost var cur := start;
      while rest != [] && error.None?
        invariant Valid() && cur == State()
        invariant InputRun(cur, rest) == InputRun(start, s)
        decreases if error.None? then 1 else 0, |rest|, Pot(stack, rest), TopPot(stack, rest)
      {
        var matched := TakeTurn(rest[0]);
        ghost var rest' := if matched then rest[1..] else rest;
        InputStep(cur, rest, State(), matched, rest');
        if matched {
          rest := rest[1..];
        }
        cur := State();
      }
    }

    /**
     * The body of the loop in `parser::input`: the top matcher consumes
     * `c`, and the parser takes the step that results.
     */
    method TakeTurn(c: char) returns (matched: bool)
      requires Valid() && error.None?
      modifies this
      ensures Valid() && (State(), matched) == Advance(old(State()), c)
    {
      var st := Consume(stack[|stack| - 1], Some(c));
      assert |stack| == 1 ==> st.error.Some?;
      matched := ApplyStep(st);
    }

    /**
     * What follows a matcher's step: the coordinate and the callbacks
     * follow it, the matcher is popped once done (or replaced by a finished
     * one after an error) and the one it asks for is pushed.
     */
    method ApplyStep(st: Step) returns (matched: bool)
      requires Valid() && error.None? && (|stack| == 1 ==> st.error.Some?)
      modifies this
      ensures Valid() && (State(), matched) == Turn(old(State()), st)
    {
      ghost var before := State();
      var n := |stack|;
      var moved := MoveRow(column, row, st.row);
      if st.error.Some? {
        stack, error, events, column, row := stack[..n - 1] + [Done], st.error, events + st.events, moved.0, moved.1;
        matched := false;
      } else {
        var below := if st.next == Done then stack[..n - 1] else stack[..n - 1] + [st.next];
        if st.push.Some? && |below| > MaxStackDepth {
          stack, error, events, column, row := below, Some(NestingTooDeep), events + st.events, moved.0, moved.1;
          matched := false;
        } else {
          stack := if st.push.Some? then below + [st.push.value] else below;
          events, column, row := events + st.events, if st.matched then moved.0 + 1 else moved.0, moved.1;
          matched := st.matched;
        }
      }
    }

    /** `parser::eof`: the callbacks' log when no error was recorded, nothing otherwise. */
    method Eof() returns (result: Option<seq<Event>>)
      modifies this
      ensures State() == EofRun(old(State()))
      ensures result == if error.None? then Some(events) else None
    {
      ghost var start := State();
      while stack != [] && error.None?
        invariant EofRun(State()) == EofRun(start)
        decreases |stack|
      {
        var n := |stack|;
        var st := Consume(stack[n - 1], None);
        events := events + st.events;
        error := st.error;
        stack := stack[..n - 1];
      }
      result := if error.None? then Some(events) else None;
    }
  }
}

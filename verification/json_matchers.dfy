/**
 * The state machines ("matchers") of the streaming JSON parser (RFC 7159).
 *
 * Each matcher consumes one character, or the end of the input, at a time.
 * A step may replace the matcher's state, ask the parser to push a new
 * matcher, leave the character for the next step (`matched` false), record
 * an error, report events to the callbacks and move the row of the
 * parser's coordinate. Matchers are values here: the parser keeps them on
 * its stack and replaces the top one after each step.
 *
 * Input characters are taken as code points, one per character, as the
 * UTF-8 decoder in front of the string matcher would deliver them.
 */
module JsonMatchers {
  import opened DecimalDigits

  datatype Option<T> = None | Some(value: T)

  /** `json::error_code`, without `none`: the absence of an error is `None`. */
  datatype JsonError =
    | ExpectedArrayMember
    | ExpectedCloseQuote
    | ExpectedColon
    | ExpectedDigits
    | ExpectedString
    | NumberOutOfRange
    | ExpectedObjectMember
    | ExpectedToken
    | InvalidEscapeChar
    | InvalidHexChar
    | UnrecognizedToken
    | UnexpectedExtraInput
    | BadUnicodeCodePoint
    | NestingTooDeep

  /** The callbacks the parser makes, in the order it makes them. A float carries no value here. */
  datatype Event =
    | StringValue(s: string)
    | IntegerValue(v: int)
    | FloatValue
    | BooleanValue(b: bool)
    | NullValue
    | BeginArray
    | EndArray
    | BeginObject
    | EndObject

  datatype Keyword = TrueWord | FalseWord | NullWord

  function KeywordText(k: Keyword): (text: string)
    ensures 4 <= |text| <= 5
  {
    match k
    case TrueWord => "true"
    case FalseWord => "false"
    case NullWord => "null"
  }

  function KeywordEvent(k: Keyword): Event
  {
    match k
    case TrueWord => BooleanValue(true)
    case FalseWord => BooleanValue(false)
    case NullWord => NullValue
  }

  /** A UTF-16 high surrogate, the only value a pending surrogate can have. */
  type HighSurrogate = x: nat | 0xD800 <= x <= 0xDBFF witness 0xD800

  datatype RootState = RootStart | NewToken
  datatype NumberState =
    | LeadingMinus
    | IntegerInitialDigit
    | IntegerDigit
    | Frac
    | FracInitialDigit
    | FracDigit
    | ExponentSign
    | ExponentInitialDigit
    | ExponentDigit
  datatype StringState = StringStart | NormalChar | Escape | Hex(k: nat)
  datatype ArrayState = ArrayStart | FirstMember | Member | ArrayComma
  datatype ObjectState = ObjectStart | FirstKey | Key | Colon | Value | ObjectComma

  /**
   * The matchers, each with the state its `state_` and accumulators hold.
   * `Done` is the done state they all share. A token matcher has matched
   * `seen` characters of its keyword; a string matcher has decoded `text`
   * so far, may hold a high surrogate waiting for its low half, and
   * accumulates `\u` digits in `hex`.
   */
  datatype Matcher =
    | Root(rstate: RootState, onlyString: bool)
    | Whitespace(afterCr: bool)
    | EndOfInput
    | Token(keyword: Keyword, seen: nat)
    | Number(nstate: NumberState, negative: bool, isInteger: bool, acc: nat)
    | Str(sstate: StringState, text: string, high: Option<HighSurrogate>, hex: nat)
    | Array(astate: ArrayState)
    | Object(ostate: ObjectState)
    | Done

  /** What a step does to the row: nothing, `advance_row`, or `reset_column`. */
  datatype RowMove = SameRow | NextRow | RowStart

  datatype Step = Step(next: Matcher, push: Option<Matcher>, matched: bool, error: Option<JsonError>,
                       events: seq<Event>, row: RowMove)

  /** `set_error`: the error is recorded and the matcher is done. */
  function Fail(e: JsonError): (s: Step)
    ensures s.next == Done && s.error == Some(e) && s.matched && s.push.None? && s.events == []
  {
    Step(Done, None, true, Some(e), [], SameRow)
  }

  /** The character is matched and the matcher moves to `m`. */
  function Continue(m: Matcher): (s: Step)
    ensures s.next == m && s.matched && s.error.None? && s.push.None? && s.events == []
  {
    Step(m, None, true, None, [], SameRow)
  }

  /** `details::isspace`: tab, line feed, carriage return or space. */
  predicate IsSpace(c: char)
  {
    c == '\t' || c == '\n' || c == '\r' || c == ' '
  }

  /** `std::isalnum` in the "C" locale. */
  predicate IsAlnum(c: char)
  {
    IsDigit(c) || 'a' <= c <= 'z' || 'A' <= c <= 'Z'
  }

  // Tokens

  /**
   * `token_matcher::consume`: each character must be the next one of the
   * keyword; once all are matched the next character must not be
   * alphanumeric, and it is left for the next matcher.
   */
  function TokenConsume(k: Keyword, seen: nat, ch: Option<char>): (st: Step)
    ensures st.error.Some? ==> st.next == Done
  {
    var text := KeywordText(k);
    if seen < |text| then
      if ch.None? || ch.value != text[seen] then Fail(UnrecognizedToken)
      else Continue(Token(k, seen + 1))
    else if ch.Some? && IsAlnum(ch.value) then Fail(UnrecognizedToken)
    else Step(Done, None, ch.None?, None, [KeywordEvent(k)], SameRow)
  }

  // Numbers

  const ULongMax: nat := 0xFFFF_FFFF_FFFF_FFFF
  const LongMax: nat := 0x7FFF_FFFF_FFFF_FFFF
  /** The magnitude of `LONG_MIN`. */
  const LongMinMagnitude: nat := 0x8000_0000_0000_0000

  /**
   * The digit step of `do_integer_digit_state` as written: the guard lets
   * accumulators up to `ULONG_MAX / 10 + 10` through, and the unsigned
   * product wraps modulo 2^64.
   */
  function AccumulateAsWritten(acc: nat, d: nat): (r: Option<nat>)
    ensures r.Some? ==> r.value <= ULongMax
  {
    if acc > ULongMax / 10 + 10 then None else Some((acc * 10 + d) % (ULongMax + 1))
  }

  /** The digit step with the guard it evidently intends: out of range exactly when the product would not fit. */
  function Accumulate(acc: nat, d: nat): (r: Option<nat>)
    requires d < 10
    ensures r.Some? <==> acc * 10 + d <= ULongMax
    ensures r.Some? ==> r.value == acc * 10 + d
  {
    if acc > (ULongMax - d) / 10 then None else Some(acc * 10 + d)
  }

  /**
   * The guard as written lets an accumulator past `ULONG_MAX / 10` through,
   * so the product wraps: the digits "18446744073709551620" leave 4 where
   * the intended guard reports the number out of range.
   */
  lemma AccumulateAsWrittenWraps()
    ensures AccumulateAsWritten(1844674407370955162, 0) == Some(4)
    ensures Accumulate(1844674407370955162, 0).None?
  {
    assert 1844674407370955162 * 10 == (ULongMax + 1) + 4;
  }

  /**
   * The integer branch of `make_result`: a positive magnitude above
   * `LONG_MAX` or a negative one above that of `LONG_MIN` is out of
   * range; `LONG_MIN` itself is accepted.
   */
  function MakeInteger(negative: bool, acc: nat): (r: Option<int>)
    ensures r.Some? <==> acc <= (if negative then LongMinMagnitude else LongMax)
    ensures r.Some? ==> r.value == (if negative then -(acc as int) else acc)
    ensures r.Some? ==> -(LongMinMagnitude as int) <= r.value <= LongMax
  {
    if negative then
      if acc > LongMinMagnitude then None else Some(-(acc as int))
    else
      if acc > LongMax then None else Some(acc)
  }

  /** `complete`: the matcher is done and the result is reported (a float without its value). */
  function Complete(negative: bool, isInteger: bool, acc: nat, matched: bool): (s: Step)
    ensures s.next == Done && s.push.None? && s.matched == matched
  {
    if !isInteger then Step(Done, None, matched, None, [FloatValue], SameRow)
    else
      match MakeInteger(negative, acc)
      case None => Step(Done, None, matched, Some(NumberOutOfRange), [], SameRow)
      case Some(v) => Step(Done, None, matched, None, [IntegerValue(v)], SameRow)
  }

  /** `in_terminal_state`: the states in which the input may end the number. */
  predicate NumberTerminal(s: NumberState)
  {
    s == IntegerDigit || s == Frac || s == FracDigit || s == ExponentDigit
  }

  predicate IsExponentMark(c: char)
  {
    c == 'e' || c == 'E'
  }

  /** `do_integer_initial_digit_state`: a leading zero, or the first digit of the accumulator. */
  function IntegerInitial(negative: bool, isInteger: bool, acc: nat, c: char): Step
  {
    if c == '0' then Continue(Number(Frac, negative, isInteger, acc))
    else if '1' <= c <= '9' then Continue(Number(IntegerDigit, negative, isInteger, DigitValue(c)))
    else Fail(UnrecognizedToken)
  }

  /** A digit of the integer part, given what the digit step made of it: the new accumulator, or out of range. */
  function IntegerDigitTaken(negative: bool, isInteger: bool, r: Option<nat>): Step
  {
    match r
    case None => Fail(NumberOutOfRange)
    case Some(a) => Continue(Number(IntegerDigit, negative, isInteger, a))
  }

  /** `do_integer_digit_state`, with the intended digit guard. */
  function IntegerDigitStep(negative: bool, isInteger: bool, acc: nat, c: char): Step
  {
    if c == '.' then Continue(Number(FracInitialDigit, negative, false, acc))
    else if IsExponentMark(c) then Continue(Number(ExponentSign, negative, false, acc))
    else if IsDigit(c) then IntegerDigitTaken(negative, isInteger, Accumulate(acc, DigitValue(c)))
    else Complete(negative, isInteger, acc, false)
  }

  /** `do_frac_state`: after a leading zero a digit is out of range. */
  function FracStep(negative: bool, isInteger: bool, acc: nat, c: char): Step
  {
    if c == '.' then Continue(Number(FracInitialDigit, negative, isInteger, acc))
    else if IsExponentMark(c) then Continue(Number(ExponentSign, negative, isInteger, acc))
    else if IsDigit(c) then Fail(NumberOutOfRange)
    else Complete(negative, isInteger, acc, false)
  }

  /** `do_frac_digit_state`: the fraction needs at least one digit. */
  function FracDigitStep(initial: bool, negative: bool, isInteger: bool, acc: nat, c: char): Step
  {
    if IsExponentMark(c) then
      if initial then Fail(UnrecognizedToken) else Continue(Number(ExponentSign, negative, false, acc))
    else if IsDigit(c) then Continue(Number(FracDigit, negative, false, acc))
    else if initial then Fail(UnrecognizedToken)
    else Complete(negative, isInteger, acc, false)
  }

  /** `do_exponent_digit_state`: the exponent needs at least one digit. */
  function ExponentDigitStep(initial: bool, negative: bool, isInteger: bool, acc: nat, c: char): Step
  {
    if IsDigit(c) then Continue(Number(ExponentDigit, negative, isInteger, acc))
    else if initial then Fail(UnrecognizedToken)
    else Complete(negative, isInteger, acc, false)
  }

  /** `number_matcher::consume`. */
  function NumberConsume(s: NumberState, negative: bool, isInteger: bool, acc: nat, ch: Option<char>): (st: Step)
    ensures st.error.Some? ==> st.next == Done
  {
    if ch.None? then
      if !NumberTerminal(s) then Fail(ExpectedDigits) else Complete(negative, isInteger, acc, true)
    else
      var c := ch.value;
      match s
      case LeadingMinus =>
        if c == '-' then Continue(Number(IntegerInitialDigit, true, isInteger, acc))
        else if IsDigit(c) then IntegerInitial(negative, isInteger, acc, c)
        else Fail(NumberOutOfRange)
      case IntegerInitialDigit => IntegerInitial(negative, isInteger, acc, c)
      case IntegerDigit => IntegerDigitStep(negative, isInteger, acc, c)
      case Frac => FracStep(negative, isInteger, acc, c)
      case FracInitialDigit => FracDigitStep(true, negative, isInteger, acc, c)
      case FracDigit => FracDigitStep(false, negative, isInteger, acc, c)
      case ExponentSign =>
        if c == '+' || c == '-' then Continue(Number(ExponentInitialDigit, negative, false, acc))
        else ExponentDigitStep(true, negative, false, acc, c)
      case ExponentInitialDigit => ExponentDigitStep(true, negative, isInteger, acc, c)
      case ExponentDigit => ExponentDigitStep(false, negative, isInteger, acc, c)
  }

  // Strings

  predicate IsHighSurrogate(cu: nat)
  {
    0xD800 <= cu <= 0xDBFF
  }

  predicate IsLowSurrogate(cu: nat)
  {
    0xDC00 <= cu <= 0xDFFF
  }

  /** The code point a surrogate pair encodes (UTF-16, section 2.2 of RFC 2781). */
  function CombineSurrogates(high: HighSurrogate, low: nat): (cp: nat)
    requires IsLowSurrogate(low)
    ensures 0x10000 <= cp <= 0x10FFFF
  {
    0x10000 + (high - 0xD800) * 0x400 + (low - 0xDC00)
  }

  /** The escapes with a single-character meaning; `\u` is handled on its own. */
  function Unescape(c: char): Option<char>
  {
    if c == '"' || c == '\\' || c == '/' then Some(c)
    else if c == 'b' then Some(8 as char)
    else if c == 'f' then Some(12 as char)
    else if c == 'n' then Some('\n')
    else if c == 'r' then Some('\r')
    else if c == 't' then Some('\t')
    else None
  }

  /** `hex_value`: the value of one hexadecimal digit. */
  function HexDigit(c: char): (r: Option<nat>)
    ensures r.Some? ==> r.value < 16
  {
    if '0' <= c <= '9' then Some(c as nat - '0' as nat)
    else if 'a' <= c <= 'f' then Some(c as nat - 'a' as nat + 10)
    else if 'A' <= c <= 'F' then Some(c as nat - 'A' as nat + 10)
    else None
  }

  /**
   * `appender::append16` after four hex digits: a high surrogate waits for
   * its low half; a low surrogate completes a pair; anything else is a
   * code point of its own. A surrogate out of turn is a bad code point.
   */
  function Append16(text: string, high: Option<HighSurrogate>, hex: nat): (s: Step)
    ensures s.matched && s.push.None? && s.events == [] && s.row == SameRow
  {
    var cu := hex % 0x1_0000;
    if IsHighSurrogate(cu) then
      if high.None? then Continue(Str(NormalChar, text, Some(cu), hex)) else Fail(BadUnicodeCodePoint)
    else if IsLowSurrogate(cu) then
      if high.None? then Fail(BadUnicodeCodePoint)
      else Continue(Str(NormalChar, text + [CombineSurrogates(high.value, cu) as char], None, hex))
    else if high.Some? then Fail(BadUnicodeCodePoint)
    else Continue(Str(NormalChar, text + [cu as char], None, hex))
  }

  /** `consume_normal_state`. */
  function NormalCharStep(text: string, high: Option<HighSurrogate>, hex: nat, c: char): Step
  {
    if c == '"' then
      if high.Some? then Fail(BadUnicodeCodePoint)
      else Step(Done, None, true, None, [StringValue(text)], SameRow)
    else if c == '\\' then Continue(Str(Escape, text, high, hex))
    else if c as int <= 0x1F then Fail(BadUnicodeCodePoint)
    else if high.Some? then Fail(BadUnicodeCodePoint)
    else Continue(Str(NormalChar, text + [c], high, hex))
  }

  /** `consume_escape_state`: a decoded escape cannot follow a pending high surrogate either. */
  function EscapeStep(text: string, high: Option<HighSurrogate>, hex: nat, c: char): Step
  {
    if c == 'u' then Continue(Str(Hex(1), text, high, hex))
    else
      match Unescape(c)
      case None => Fail(InvalidEscapeChar)
      case Some(d) =>
        if high.Some? then Fail(InvalidEscapeChar) else Continue(Str(NormalChar, text + [d], high, hex))
  }

  /** `consume_hex_state`: the first digit starts a new value; the fourth completes it. */
  function HexStep(k: nat, text: string, high: Option<HighSurrogate>, hex: nat, c: char): Step
  {
    var start := if k <= 1 then 0 else hex;
    match HexDigit(c)
    case None => Fail(InvalidHexChar)
    case Some(v) =>
      if k < 4 then Continue(Str(Hex(k + 1), text, high, 16 * start + v))
      else Append16(text, high, 16 * start + v)
  }

  /** `string_matcher::consume`. */
  function StringConsume(s: StringState, text: string, high: Option<HighSurrogate>, hex: nat, ch: Option<char>): (st: Step)
    ensures st.error.Some? ==> st.next == Done
  {
    if ch.None? then Fail(ExpectedCloseQuote)
    else
      var c := ch.value;
      match s
      case StringStart => if c == '"' then Continue(Str(NormalChar, text, high, hex)) else Fail(ExpectedToken)
      case NormalChar => NormalCharStep(text, high, hex, c)
      case Escape => EscapeStep(text, high, hex, c)
      case Hex(k) => HexStep(k, text, high, hex, c)
  }

  // Arrays, objects, whitespace, the end of the input and the root

  /** `array_matcher::consume`. */
  function ArrayConsume(s: ArrayState, ch: Option<char>): (st: Step)
    ensures st.error.Some? ==> st.next == Done
  {
    if ch.None? then Fail(ExpectedArrayMember)
    else
      var c := ch.value;
      match s
      case ArrayStart => Step(Array(FirstMember), Some(Whitespace(false)), true, None, [BeginArray], SameRow)
      case FirstMember =>
        if c == ']' then Step(Done, None, true, None, [EndArray], SameRow)
        else Step(Array(ArrayComma), Some(Root(RootStart, false)), false, None, [], SameRow)
      case Member => Step(Array(ArrayComma), Some(Root(RootStart, false)), false, None, [], SameRow)
      case ArrayComma =>
        if IsSpace(c) then Step(Array(ArrayComma), Some(Whitespace(false)), false, None, [], SameRow)
        else if c == ',' then Continue(Array(Member))
        else if c == ']' then Step(Done, None, true, None, [EndArray], SameRow)
        else Fail(ExpectedArrayMember)
  }

  /** `object_matcher::consume`. */
  function ObjectConsume(s: ObjectState, ch: Option<char>): (st: Step)
    ensures st.error.Some? ==> st.next == Done
  {
    if ch.None? then Fail(ExpectedObjectMember)
    else
      var c := ch.value;
      match s
      case ObjectStart => Step(Object(FirstKey), Some(Whitespace(false)), true, None, [BeginObject], SameRow)
      case FirstKey =>
        if c == '}' then Step(Done, None, true, None, [EndObject], SameRow)
        else Step(Object(Colon), Some(Root(RootStart, true)), false, None, [], SameRow)
      case Key => Step(Object(Colon), Some(Root(RootStart, true)), false, None, [], SameRow)
      case Colon =>
        if IsSpace(c) then Step(Object(Colon), Some(Whitespace(false)), false, None, [], SameRow)
        else if c == ':' then Continue(Object(Value))
        else Fail(ExpectedColon)
      case Value => Step(Object(ObjectComma), Some(Root(RootStart, false)), false, None, [], SameRow)
      case ObjectComma =>
        if IsSpace(c) then Step(Object(ObjectComma), Some(Whitespace(false)), false, None, [], SameRow)
        else if c == ',' then Continue(Object(Key))
        else if c == '}' then Step(Done, None, true, None, [EndObject], SameRow)
        else Fail(ExpectedObjectMember)
  }

  /** The array matcher fails only at the end of the input or on a character that is no separator after a member. */
  lemma ArrayErrors(s: ArrayState, ch: Option<char>)
    ensures var st := ArrayConsume(s, ch);
      st.error.Some? <==> (ch.None? || (s == ArrayComma && !IsSpace(ch.value) && ch.value != ',' && ch.value != ']'))
    ensures ArrayConsume(s, ch).error.Some? ==> ArrayConsume(s, ch) == Fail(ExpectedArrayMember)
  {
  }

  /**
   * The object matcher fails at the end of the input and after a member
   * with `expected_object_member`, and after a key with `expected_colon`.
   */
  lemma ObjectErrors(s: ObjectState, ch: Option<char>)
    ensures var st := ObjectConsume(s, ch);
      st.error.Some? <==> (ch.None?
        || (s == Colon && !IsSpace(ch.value) && ch.value != ':')
        || (s == ObjectComma && !IsSpace(ch.value) && ch.value != ',' && ch.value != '}'))
    ensures ch.Some? && s == Colon && ObjectConsume(s, ch).error.Some? ==> ObjectConsume(s, ch) == Fail(ExpectedColon)
    ensures (ch.None? || s != Colon) && ObjectConsume(s, ch).error.Some? ==> ObjectConsume(s, ch) == Fail(ExpectedObjectMember)
  {
  }

  /**
   * `whitespace_matcher::consume`: spaces and tabs are skipped; CR, LF and
   * the LF of a CRLF pair each end a row once; anything else ends the
   * whitespace and is left for the next matcher.
   */
  function WhitespaceConsume(afterCr: bool, ch: Option<char>): (st: Step)
    ensures st.error.Some? ==> st.next == Done
  {
    if ch.None? then Step(Done, None, true, None, [], SameRow)
    else
      var c := ch.value;
      if afterCr && c == '\n' then Step(Whitespace(false), None, true, None, [], RowStart)
      else if c == ' ' || c == '\t' then Continue(Whitespace(false))
      else if c == '\r' then Step(Whitespace(true), None, true, None, [], NextRow)
      else if c == '\n' then Step(Whitespace(false), None, true, None, [], NextRow)
      else Step(Done, None, false, None, [], SameRow)
  }

  /** `eof_matcher::consume`: only the end of the input may follow the top-level value. */
  function EndOfInputConsume(ch: Option<char>): (st: Step)
    ensures st.error.Some? ==> st.next == Done
  {
    if ch.Some? then Fail(UnexpectedExtraInput) else Step(Done, None, true, None, [], SameRow)
  }

  /** The matcher `root_matcher` starts for the first character of a value, if there is one. */
  function ValueMatcher(c: char): Option<Matcher>
  {
    if c == '-' || IsDigit(c) then Some(Number(LeadingMinus, false, true, 0))
    else if c == '"' then Some(Str(StringStart, "", None, 0))
    else if c == 't' then Some(Token(TrueWord, 0))
    else if c == 'f' then Some(Token(FalseWord, 0))
    else if c == 'n' then Some(Token(NullWord, 0))
    else if c == '[' then Some(Array(ArrayStart))
    else if c == '{' then Some(Object(ObjectStart))
    else None
  }

  /**
   * `root_matcher::consume`: skip whitespace, then hand the first
   * character of the value to the matcher for its kind. Where only a
   * string may appear (an object key) anything else is `expected_string`,
   * unless it starts no value at all.
   */
  function RootConsume(s: RootState, onlyString: bool, ch: Option<char>): (st: Step)
    ensures st.error.Some? ==> st.next == Done
  {
    if ch.None? then Fail(ExpectedToken)
    else
      var c := ch.value;
      match s
      case RootStart => Step(Root(NewToken, onlyString), Some(Whitespace(false)), false, None, [], SameRow)
      case NewToken =>
        match ValueMatcher(c)
        case None => Fail(ExpectedToken)
        case Some(m) =>
          Step(Done, Some(m), false, if onlyString && c != '"' then Some(ExpectedString) else None, [], SameRow)
  }

  /**
   * The root matcher fails at the end of the input and on a character
   * that starts no value with `expected_token`, and on any other value
   * where a key is expected with `expected_string`.
   */
  lemma RootErrors(s: RootState, onlyString: bool, ch: Option<char>)
    ensures var st := RootConsume(s, onlyString, ch);
      st.error == if ch.None? then Some(ExpectedToken)
        else if s == RootStart then None
        else if ValueMatcher(ch.value).None? then Some(ExpectedToken)
        else if onlyString && ch.value != '"' then Some(ExpectedString)
        else None
    ensures ch.Some? && s == NewToken && ValueMatcher(ch.value).Some? ==> RootConsume(s, onlyString, ch).push == ValueMatcher(ch.value)
  {
  }

  /** `matcher::consume`, dispatched on the kind of matcher. */
  function Consume(m: Matcher, ch: Option<char>): (s: Step)
    ensures s.error.Some? ==> s.next == Done
  {
    match m
    case Root(s, only) => RootConsume(s, only, ch)
    case Whitespace(afterCr) => WhitespaceConsume(afterCr, ch)
    case EndOfInput => EndOfInputConsume(ch)
    case Token(k, seen) => TokenConsume(k, seen, ch)
    case Number(s, neg, isInt, acc) => NumberConsume(s, neg, isInt, acc, ch)
    case Str(s, text, high, hex) => StringConsume(s, text, high, hex, ch)
    case Array(s) => ArrayConsume(s, ch)
    case Object(s) => ObjectConsume(s, ch)
    case Done => Continue(Done)
  }

  /**
   * `matcher::consume` with `do_integer_digit_state` as the source writes
   * it: every matcher steps as in `Consume` except that a digit of the
   * integer part goes through `AccumulateAsWritten`.
   */
  function ConsumeAsWritten(m: Matcher, ch: Option<char>): (s: Step)
    ensures s.error.Some? ==> s.next == Done
  {
    if m.Number? && m.nstate == IntegerDigit && ch.Some? && IsDigit(ch.value) then
      IntegerDigitTaken(m.negative, m.isInteger, AccumulateAsWritten(m.acc, DigitValue(ch.value)))
    else Consume(m, ch)
  }

  // One matcher on its own

  /**
   * What one matcher does with a run of characters while it stays on top
   * of the parser's stack: it stops at the first error, once it is done, or
   * at a character it leaves unmatched or that makes it push another
   * matcher. `rest` is the input it did not take; `more` says that it took
   * all of it and waits for more.
   */
  datatype Run = Run(m: Matcher, error: Option<JsonError>, events: seq<Event>, rest: string, more: bool)

  /** What one matcher does with one character or the end of the input. */
  type StepFunction = (Matcher, Option<char>) -> Step

  /** The run of a matcher under any step function; `Feed` takes the matchers' own. */
  function FeedWith(f: StepFunction, m: Matcher, s: string): (r: Run)
    ensures |r.rest| <= |s|
    ensures r.error.Some? ==> r.m == Done && !r.more
    ensures r.more ==> r.rest == [] && r.error.None? && r.m != Done
    decreases |s|
  {
    if m == Done then Run(m, None, [], s, false)
    else if s == [] then Run(m, None, [], s, true)
    else
      var st := f(m, Some(s[0]));
      if st.error.Some? then Run(Done, st.error, st.events, s, false)
      else if !st.matched || st.push.Some? then Run(st.next, None, st.events, if st.matched then s[1..] else s, false)
      else
        var r := FeedWith(f, st.next, s[1..]);
        Run(r.m, r.error, st.events + r.events, r.rest, r.more)
  }

  function Feed(m: Matcher, s: string): (r: Run)
    ensures r.more ==> r.rest == [] && r.error.None? && r.m != Done
  {
    FeedWith(Consume, m, s)
  }

  /** Feeding a run in two parts is feeding it at once: one more character continues where the run left off. */
  lemma {:induction false} FeedSnoc(f: StepFunction, m: Matcher, s: string, c: char)
    requires FeedWith(f, m, s).more
    ensures var r := FeedWith(f, m, s); var t := FeedWith(f, r.m, [c]);
      FeedWith(f, m, s + [c]) == Run(t.m, t.error, r.events + t.events, t.rest, t.more)
    decreases |s|
  {
    if s == [] {
      assert s + [c] == [c];
    } else {
      assert (s + [c])[0] == s[0];
      assert (s + [c])[1..] == s[1..] + [c];
      var st := f(m, Some(s[0]));
      var r1 := FeedWith(f, st.next, s[1..]);
      FeedSnoc(f, st.next, s[1..], c);
      var t := FeedWith(f, r1.m, [c]);
      assert st.events + (r1.events + t.events) == (st.events + r1.events) + t.events;
    }
  }

  /** Once a run has stopped, further input changes nothing but what is left over. */
  lemma {:induction false} FeedStops(f: StepFunction, m: Matcher, s: string, t: string)
    requires !FeedWith(f, m, s).more
    ensures var r := FeedWith(f, m, s); FeedWith(f, m, s + t) == Run(r.m, r.error, r.events, r.rest + t, false)
    decreases |s|
  {
    if m != Done {
      assert (s + t)[0] == s[0];
      assert (s + t)[1..] == s[1..] + t;
      var st := f(m, Some(s[0]));
      if st.error.None? && st.matched && st.push.None? {
        FeedStops(f, st.next, s[1..], t);
      }
    }
  }

  /** A character the matcher takes without pushing or failing: the run goes on from the next state. */
  lemma FeedStep(f: StepFunction, m: Matcher, s: string)
    requires m != Done && s != []
    requires var st := f(m, Some(s[0])); st.error.None? && st.matched && st.push.None?
    ensures var st := f(m, Some(s[0])); var r := FeedWith(f, st.next, s[1..]);
      FeedWith(f, m, s) == Run(r.m, r.error, st.events + r.events, r.rest, r.more)
  {
  }

  /** A character the matcher takes silently: the run is the run from the next state. */
  lemma FeedQuietStep(f: StepFunction, m: Matcher, next: Matcher, s: string)
    requires m != Done && s != [] && f(m, Some(s[0])) == Continue(next)
    ensures FeedWith(f, m, s) == FeedWith(f, next, s[1..])
  {
    FeedStep(f, m, s);
    assert [] + FeedWith(f, next, s[1..]).events == FeedWith(f, next, s[1..]).events;
  }

  /** A character that makes the matcher fail ends the run with that error. */
  lemma FeedFails(f: StepFunction, m: Matcher, s: string)
    requires m != Done && s != [] && f(m, Some(s[0])).error.Some?
    ensures FeedWith(f, m, s).error == f(m, Some(s[0])).error
  {
  }

  // Keywords

  /** One character of a keyword: the expected one moves the matcher on, any other is an unrecognized token. */
  lemma KeywordStep(k: Keyword, seen: nat, s: string)
    requires seen < |KeywordText(k)| && s != []
    ensures s[0] == KeywordText(k)[seen] ==> Feed(Token(k, seen), s) == Feed(Token(k, seen + 1), s[1..])
    ensures s[0] != KeywordText(k)[seen] ==> Feed(Token(k, seen), s).error == Some(UnrecognizedToken)
  {
    assert Consume(Token(k, seen), Some(s[0])) == TokenConsume(k, seen, Some(s[0]));
    if s[0] == KeywordText(k)[seen] {
      FeedQuietStep(Consume, Token(k, seen), Token(k, seen + 1), s);
    } else {
      FeedFails(Consume, Token(k, seen), s);
    }
  }

  /**
   * From `seen` matched characters, the token matcher takes exactly the
   * keyword's next characters; the first that differs is an unrecognized
   * token.
   */
  lemma {:induction false} KeywordPrefix(k: Keyword, seen: nat, s: string)
    requires seen + |s| <= |KeywordText(k)|
    ensures var r := Feed(Token(k, seen), s);
      if s == KeywordText(k)[seen..seen + |s|] then r == Run(Token(k, seen + |s|), None, [], [], true)
      else r.error == Some(UnrecognizedToken)
    decreases |s|
  {
    var text := KeywordText(k);
    if s == [] {
      assert text[seen..seen] == [];
    } else {
      KeywordStep(k, seen, s);
      SliceHead(text, seen, s);
      if s[0] == text[seen] {
        KeywordPrefix(k, seen + 1, s[1..]);
      }
    }
  }

  /** A text occurs at `i` exactly when its first character does and the rest occurs right after. */
  lemma SliceHead(text: string, i: nat, s: string)
    requires s != [] && i + |s| <= |text|
    ensures s == text[i..i + |s|] <==> s[0] == text[i] && s[1..] == text[i + 1..i + |s|]
  {
    if s[0] == text[i] && s[1..] == text[i + 1..i + |s|] {
      assert s == [s[0]] + s[1..];
    }
  }

  /**
   * After the whole keyword, the end of the input or a character that is
   * not alphanumeric reports the keyword's value and is left for the next
   * matcher; an alphanumeric character is an unrecognized token. Input
   * that ends inside the keyword is an unrecognized token too.
   */
  lemma KeywordEnd(k: Keyword, seen: nat, ch: Option<char>)
    requires seen <= |KeywordText(k)|
    ensures var st := Consume(Token(k, seen), ch);
      if seen < |KeywordText(k)| then ch.None? ==> st.error == Some(UnrecognizedToken)
      else if ch.Some? && IsAlnum(ch.value) then st.error == Some(UnrecognizedToken) && st.events == []
      else st == Step(Done, None, ch.None?, None, [KeywordEvent(k)], SameRow)
  {
  }

  // Numbers

  /** The matcher `root_matcher` starts on a minus sign or a digit. */
  const NumberStart: Matcher := Number(LeadingMinus, false, true, 0)

  function SignText(negative: bool): string
  {
    if negative then "-" else ""
  }

  /** One more digit of the integer part: the accumulator takes it, or the number is out of range. */
  lemma NextIntegerDigit(negative: bool, acc: nat, c: char)
    requires IsDigit(c)
    ensures var v := acc * 10 + DigitValue(c);
      FeedWith(Consume, Number(IntegerDigit, negative, true, acc), [c])
      == if v <= ULongMax then Run(Number(IntegerDigit, negative, true, v), None, [], [], true)
         else Run(Done, Some(NumberOutOfRange), [], [c], false)
  {
    assert [c][1..] == [];
  }

  /**
   * The digits of an integer without a leading zero accumulate into its
   * value; the first digit that takes the value past `ULONG_MAX` is out of
   * range.
   */
  lemma {:induction false} IntegerDigits(negative: bool, s: string)
    requires |s| >= 1 && AllDigits(s) && s[0] != '0'
    ensures var r := Feed(Number(IntegerInitialDigit, negative, true, 0), s);
      && (r.error.None? <==> DigitsValue(s) <= ULongMax)
      && (r.error.None? ==> r == Run(Number(IntegerDigit, negative, true, DigitsValue(s)), None, [], [], true))
      && (r.error.Some? ==> r.error == Some(NumberOutOfRange))
    decreases |s|
  {
    if |s| == 1 {
      FirstIntegerDigit(negative, s);
    } else {
      var p := s[..|s| - 1];
      assert p[0] == s[0] && s == p + [s[|s| - 1]];
      assert AllDigits(p);
      IntegerDigits(negative, p);
      NextDigitOfRun(negative, p, s[|s| - 1], s);
    }
  }

  /** A first digit other than zero starts the accumulator. */
  lemma FirstIntegerDigit(negative: bool, s: string)
    requires |s| == 1 && '1' <= s[0] <= '9'
    ensures Feed(Number(IntegerInitialDigit, negative, true, 0), s)
      == Run(Number(IntegerDigit, negative, true, DigitsValue(s)), None, [], [], true)
  {
    assert s[..0] == [] && s[1..] == [];
    assert DigitsValue(s) == DigitValue(s[0]);
    var first := Number(IntegerDigit, negative, true, DigitValue(s[0]));
    assert Consume(Number(IntegerInitialDigit, negative, true, 0), Some(s[0])) == Continue(first);
    assert Feed(Number(IntegerInitialDigit, negative, true, 0), s) == FeedWith(Consume, first, []);
  }

  /** One more digit after a run of integer digits: the step `IntegerDigits` takes from `s` without its last digit to `s`. */
  lemma NextDigitOfRun(negative: bool, p: string, c: char, s: string)
    requires |p| >= 1 && AllDigits(p) && IsDigit(c) && s == p + [c]
    requires var r := Feed(Number(IntegerInitialDigit, negative, true, 0), p);
      && (r.error.None? <==> DigitsValue(p) <= ULongMax)
      && (r.error.None? ==> r == Run(Number(IntegerDigit, negative, true, DigitsValue(p)), None, [], [], true))
      && (r.error.Some? ==> r.error == Some(NumberOutOfRange))
    ensures var r := Feed(Number(IntegerInitialDigit, negative, true, 0), s);
      && (r.error.None? <==> DigitsValue(s) <= ULongMax)
      && (r.error.None? ==> r == Run(Number(IntegerDigit, negative, true, DigitsValue(s)), None, [], [], true))
      && (r.error.Some? ==> r.error == Some(NumberOutOfRange))
  {
    var start := Number(IntegerInitialDigit, negative, true, 0);
    DigitsValueSnoc(p, c);
    DigitsValueBounds(p);
    if FeedWith(Consume, start, p).error.None? {
      FeedSnoc(Consume, start, p, c);
      NextIntegerDigit(negative, DigitsValue(p), c);
    } else {
      FeedStops(Consume, start, p, [c]);
    }
  }

  /** An optional minus sign and an integer part take the number matcher to the state that holds its magnitude. */
  lemma IntegerPart(negative: bool, s: string)
    requires |s| >= 1 && AllDigits(s) && s[0] != '0'
    ensures Feed(NumberStart, SignText(negative) + s) == Feed(Number(IntegerInitialDigit, negative, true, 0), s)
  {
    var text := SignText(negative) + s;
    if negative {
      var minus := Number(IntegerInitialDigit, true, true, 0);
      assert text[0] == '-' && text[1..] == s;
      assert Consume(NumberStart, Some('-')) == Continue(minus);
      FeedQuietStep(Consume, NumberStart, minus, text);
    } else {
      var first := Number(IntegerDigit, false, true, DigitValue(s[0]));
      assert text == s;
      assert Consume(NumberStart, Some(s[0])) == Continue(first);
      assert Consume(Number(IntegerInitialDigit, false, true, 0), Some(s[0])) == Continue(first);
      FeedQuietStep(Consume, NumberStart, first, s);
      FeedQuietStep(Consume, Number(IntegerInitialDigit, false, true, 0), first, s);
    }
  }

  /** A zero, with or without a minus sign, takes the matcher to the state after a leading zero. */
  lemma ZeroInteger(negative: bool)
    ensures Feed(NumberStart, SignText(negative) + "0") == Run(Number(Frac, negative, true, 0), None, [], [], true)
  {
    var text := SignText(negative) + "0";
    if negative {
      assert text == ['-', '0'] && text[1..] == "0" && text[1..][1..] == [];
      assert Feed(NumberStart, text) == FeedWith(Consume, Number(IntegerInitialDigit, true, true, 0), "0");
    } else {
      assert text == ['0'] && text[1..] == [];
      assert Consume(NumberStart, Some('0')) == Continue(Number(Frac, false, true, 0));
      assert Feed(NumberStart, text) == FeedWith(Consume, Number(Frac, false, true, 0), []);
    }
  }

  /** A character that cannot continue a number, or the end of the input, ends an integer with the value it holds. */
  lemma IntegerEnd(s: NumberState, negative: bool, v: nat, ch: Option<char>)
    requires s == IntegerDigit || s == Frac
    requires ch.None? || !(IsDigit(ch.value) || ch.value == '.' || IsExponentMark(ch.value))
    ensures Consume(Number(s, negative, true, v), ch)
      == if v <= (if negative then LongMinMagnitude else LongMax) then
           Step(Done, None, ch.None?, None, [IntegerValue(if negative then -(v as int) else v)], SameRow)
         else Step(Done, None, ch.None?, Some(NumberOutOfRange), [], SameRow)
  {
    assert Consume(Number(s, negative, true, v), ch) == Complete(negative, true, v, ch.None?);
  }

  /**
   * A signed decimal integer literal, ended by the end of the input or by a
   * character that cannot continue a number, is reported as its value when
   * it lies between `LONG_MIN` and `LONG_MAX`, and is out of range
   * otherwise. The ending character is left for the next matcher.
   */
  lemma IntegerLiteral(negative: bool, s: string, ch: Option<char>)
    requires |s| >= 1 && AllDigits(s) && (s[0] != '0' || |s| == 1)
    requires ch.None? || !(IsDigit(ch.value) || ch.value == '.' || IsExponentMark(ch.value))
    ensures var r := Feed(NumberStart, SignText(negative) + s);
      var v := DigitsValue(s);
      if v <= (if negative then LongMinMagnitude else LongMax) then
        r.more && Consume(r.m, ch) == Step(Done, None, ch.None?, None, [IntegerValue(if negative then -v else v)], SameRow)
      else
        r.error == Some(NumberOutOfRange)
        || (r.more && Consume(r.m, ch) == Step(Done, None, ch.None?, Some(NumberOutOfRange), [], SameRow))
  {
    if s[0] == '0' {
      ZeroLiteral(negative, s, ch);
    } else {
      NonZeroLiteral(negative, s, ch);
    }
  }

  lemma ZeroLiteral(negative: bool, s: string, ch: Option<char>)
    requires s == "0"
    requires ch.None? || !(IsDigit(ch.value) || ch.value == '.' || IsExponentMark(ch.value))
    ensures var r := Feed(NumberStart, SignText(negative) + s);
      var v := DigitsValue(s);
      if v <= (if negative then LongMinMagnitude else LongMax) then
        r.more && Consume(r.m, ch) == Step(Done, None, ch.None?, None, [IntegerValue(if negative then -v else v)], SameRow)
      else
        r.error == Some(NumberOutOfRange)
        || (r.more && Consume(r.m, ch) == Step(Done, None, ch.None?, Some(NumberOutOfRange), [], SameRow))
  {
    assert s[..0] == [];
    ZeroInteger(negative);
    IntegerEnd(Frac, negative, 0, ch);
  }

  lemma NonZeroLiteral(negative: bool, s: string, ch: Option<char>)
    requires |s| >= 1 && AllDigits(s) && s[0] != '0'
    requires ch.None? || !(IsDigit(ch.value) || ch.value == '.' || IsExponentMark(ch.value))
    ensures var r := Feed(NumberStart, SignText(negative) + s);
      var v := DigitsValue(s);
      if v <= (if negative then LongMinMagnitude else LongMax) then
        r.more && Consume(r.m, ch) == Step(Done, None, ch.None?, None, [IntegerValue(if negative then -v else v)], SameRow)
      else
        r.error == Some(NumberOutOfRange)
        || (r.more && Consume(r.m, ch) == Step(Done, None, ch.None?, Some(NumberOutOfRange), [], SameRow))
  {
    var r := Feed(NumberStart, SignText(negative) + s);
    var v := DigitsValue(s);
    IntegerPart(negative, s);
    IntegerDigits(negative, s);
    if v <= ULongMax {
      assert r == Run(Number(IntegerDigit, negative, true, v), None, [], [], true);
      IntegerEnd(IntegerDigit, negative, v, ch);
    } else {
      assert r.error == Some(NumberOutOfRange);
    }
  }

  /** While the product fits in `ULONG_MAX`, the digit step as written agrees with the intended one. */
  lemma AccumulateAgrees(acc: nat, d: nat)
    requires d < 10 && acc * 10 + d <= ULongMax
    ensures AccumulateAsWritten(acc, d) == Accumulate(acc, d)
  {
  }

  /** With the digit step as written, too, the digits of a number that fits in `ULONG_MAX` accumulate into its value. */
  lemma {:induction false} IntegerDigitsAsWritten(s: string)
    requires |s| >= 1 && AllDigits(s) && s[0] != '0' && DigitsValue(s) <= ULongMax
    ensures FeedWith(ConsumeAsWritten, NumberStart, s) == Run(Number(IntegerDigit, false, true, DigitsValue(s)), None, [], [], true)
    decreases |s|
  {
    if |s| == 1 {
      assert s[..0] == [] && s[1..] == [];
      var first := Number(IntegerDigit, false, true, DigitValue(s[0]));
      assert ConsumeAsWritten(NumberStart, Some(s[0])) == Continue(first);
      FeedQuietStep(ConsumeAsWritten, NumberStart, first, s);
    } else {
      var p, c := s[..|s| - 1], s[|s| - 1];
      assert p[0] == s[0] && s == p + [c];
      assert AllDigits(p);
      DigitsValueBounds(s);
      DigitsValueBounds(p);
      IntegerDigitsAsWritten(p);
      FeedSnoc(ConsumeAsWritten, NumberStart, p, c);
      DigitsValueSnoc(p, c);
      AccumulateAgrees(DigitsValue(p), DigitValue(c));
      assert [c][1..] == [];
    }
  }

  /**
   * The wrapped digit guard, on the number matcher as a whole: as written,
   * the text 18446744073709551620 (any digits of that value without a
   * leading zero) followed by the end of the input completes as the
   * integer 4, where the intended guard stops at the last digit with
   * `number_out_of_range`.
   */
  lemma NumberAsWrittenWraps(s: string)
    requires |s| >= 1 && AllDigits(s) && s[0] != '0' && DigitsValue(s) == 18446744073709551620
    ensures var r := FeedWith(ConsumeAsWritten, NumberStart, s);
      r.more && ConsumeAsWritten(r.m, None) == Step(Done, None, true, None, [IntegerValue(4)], SameRow)
    ensures Feed(NumberStart, s).error == Some(NumberOutOfRange)
  {
    WrappedDigitsAsWritten(s);
    assert ConsumeAsWritten(Number(IntegerDigit, false, true, 4), None) == Complete(false, true, 4, true);
    assert SignText(false) + s == s;
    IntegerPart(false, s);
    IntegerDigits(false, s);
  }

  /** The digits of 18446744073709551620 leave the number matcher as written holding 4. */
  lemma WrappedDigitsAsWritten(s: string)
    requires |s| >= 1 && AllDigits(s) && s[0] != '0' && DigitsValue(s) == 18446744073709551620
    ensures FeedWith(ConsumeAsWritten, NumberStart, s) == Run(Number(IntegerDigit, false, true, 4), None, [], [], true)
  {
    var p, c := s[..|s| - 1], s[|s| - 1];
    assert s == p + [c];
    LastWrappedDigit(s);
    assert |p| >= 1 && p[0] == s[0] && AllDigits(p);
    IntegerDigitsAsWritten(p);
    FeedSnoc(ConsumeAsWritten, NumberStart, p, c);
    WrappingDigitAsWritten();
    assert [c] == "0";
  }

  /** As written, a zero after 1844674407370955162 wraps the accumulator round to 4. */
  lemma WrappingDigitAsWritten()
    ensures FeedWith(ConsumeAsWritten, Number(IntegerDigit, false, true, 1844674407370955162), "0")
      == Run(Number(IntegerDigit, false, true, 4), None, [], [], true)
  {
    AccumulateAsWrittenWraps();
    assert "0"[1..] == [];
  }

  /** 18446744073709551620 is 1844674407370955162 followed by the digit zero. */
  lemma LastWrappedDigit(s: string)
    requires |s| >= 1 && AllDigits(s) && DigitsValue(s) == 18446744073709551620
    ensures DigitsValue(s[..|s| - 1]) == 1844674407370955162 && s[|s| - 1] == '0'
  {
    assert IsDigit(s[|s| - 1]);
  }

  /** What `operator<<` prints for a `long` reads back as the same integer. */
  lemma IntegerRoundTrip(n: int, ch: Option<char>)
    requires -(LongMinMagnitude as int) <= n <= LongMax
    requires ch.None? || !(IsDigit(ch.value) || ch.value == '.' || IsExponentMark(ch.value))
    ensures var r := Feed(NumberStart, Decimal(n));
      r.more && Consume(r.m, ch) == Step(Done, None, ch.None?, None, [IntegerValue(n)], SameRow)
  {
    var negative := n < 0;
    var magnitude: nat := if negative then -n else n;
    var d := Digits(magnitude);
    assert Decimal(n) == SignText(negative) + d by {
      if !negative {
        assert SignText(false) + d == d;
      }
    }
    assert |d| >= 1 && AllDigits(d) && (d[0] != '0' || |d| == 1) by {
      DigitsShape(magnitude);
    }
    assert DigitsValue(d) == magnitude by {
      DigitsRoundTrip(magnitude);
    }
    IntegerLiteral(negative, d, ch);
    assert DigitsValue(d) <= (if negative then LongMinMagnitude else LongMax);
    assert IntegerValue(if negative then -DigitsValue(d) else DigitsValue(d)) == IntegerValue(n);
  }

  /** A digit after a leading zero is out of range, whether or not a minus sign comes first. */
  lemma LeadingZero(negative: bool, c: char)
    requires IsDigit(c)
    ensures Feed(NumberStart, SignText(negative) + ['0', c]).error == Some(NumberOutOfRange)
  {
    var text := SignText(negative) + ['0', c];
    var zero := Number(Frac, negative, true, 0);
    assert Consume(zero, Some(c)) == Fail(NumberOutOfRange);
    FeedFails(Consume, zero, [c]);
    if negative {
      var minus := Number(IntegerInitialDigit, true, true, 0);
      assert text == ['-', '0', c] && text[1..] == ['0', c] && text[1..][1..] == [c];
      assert Consume(NumberStart, Some('-')) == Continue(minus);
      FeedQuietStep(Consume, NumberStart, minus, text);
      assert Consume(minus, Some('0')) == Continue(zero);
      FeedQuietStep(Consume, minus, zero, text[1..]);
    } else {
      assert text == ['0', c] && text[1..] == [c];
      assert Consume(NumberStart, Some('0')) == Continue(zero);
      FeedQuietStep(Consume, NumberStart, zero, text);
    }
  }

  /** A minus sign must be followed by a digit: another character is an unrecognized token, the end of the input a want of digits. */
  lemma MinusNeedsDigit(c: char)
    requires !IsDigit(c)
    ensures Feed(NumberStart, ['-', c]).error == Some(UnrecognizedToken)
    ensures var r := Feed(NumberStart, "-"); r.more && Consume(r.m, None).error == Some(ExpectedDigits)
  {
    var minus := Number(IntegerInitialDigit, true, true, 0);
    assert ['-', c][1..] == [c];
    assert Feed(NumberStart, ['-', c]) == FeedWith(Consume, minus, [c]);
    assert "-"[1..] == [];
    assert Feed(NumberStart, "-") == FeedWith(Consume, minus, []);
  }

  /** At the end of the input a number is complete; it lacks digits exactly when it is not in a terminal state. */
  lemma NumberAtEnd(s: NumberState, negative: bool, isInteger: bool, acc: nat)
    ensures var st := Consume(Number(s, negative, isInteger, acc), None);
      st.next == Done && st.matched && (st.error == Some(ExpectedDigits) <==> !NumberTerminal(s))
      && (st.error.Some? ==> st.events == [])
  {
  }

  // Strings

  /** A character that stands for itself inside a string. */
  predicate Unescaped(c: char)
  {
    c != '"' && c != '\\' && c as int > 0x1F
  }

  /** Characters that need no escape are appended to the string as they are. */
  lemma {:induction false} PlainCharacters(text: string, hex: nat, s: string)
    requires forall i :: 0 <= i < |s| ==> Unescaped(s[i])
    ensures Feed(Str(NormalChar, text, None, hex), s) == Run(Str(NormalChar, text + s, None, hex), None, [], [], true)
    decreases |s|
  {
    if s == [] {
      assert text + s == text;
    } else {
      PlainCharacters(text + [s[0]], hex, s[1..]);
      assert text + [s[0]] + s[1..] == text + s;
    }
  }

  /** A quoted run of plain characters is reported as one string value, both quotes consumed. */
  lemma PlainString(s: string)
    requires forall i :: 0 <= i < |s| ==> Unescaped(s[i])
    ensures Feed(Str(StringStart, "", None, 0), "\"" + s + "\"") == Run(Done, None, [StringValue(s)], [], false)
  {
    var q := "\"" + s + "\"";
    assert q[0] == '"' && q[1..] == s + ['"'];
    assert Consume(Str(StringStart, "", None, 0), Some('"')) == Continue(Str(NormalChar, "", None, 0));
    FeedQuietStep(Consume, Str(StringStart, "", None, 0), Str(NormalChar, "", None, 0), q);
    PlainCharacters("", 0, s);
    assert "" + s == s;
    FeedSnoc(Consume, Str(NormalChar, "", None, 0), s, '"');
    ClosingQuote(s, 0);
  }

  /** The closing quote reports the string read so far and finishes the matcher. */
  lemma ClosingQuote(text: string, hex: nat)
    ensures FeedWith(Consume, Str(NormalChar, text, None, hex), ['"']) == Run(Done, None, [StringValue(text)], [], false)
  {
    assert ['"'][1..] == [];
  }

  /**
   * The string errors that one character decides: the end of the input
   * before the closing quote, an unescaped control character, and a
   * character other than the opening quote at the start.
   */
  lemma StringErrors(s: StringState, text: string, high: Option<HighSurrogate>, hex: nat, c: char)
    ensures Consume(Str(s, text, high, hex), None).error == Some(ExpectedCloseQuote)
    ensures s == NormalChar && c as int <= 0x1F ==> Consume(Str(s, text, high, hex), Some(c)).error == Some(BadUnicodeCodePoint)
    ensures s == StringStart ==> (Consume(Str(s, text, high, hex), Some(c)).error.None? <==> c == '"')
  {
  }

  /**
   * The escape table: `\"`, `\\`, `\/`, `\b`, `\f`, `\n`, `\r` and `\t`
   * append the character they name; any other character after a backslash
   * (except `u`) is an invalid escape.
   */
  lemma EscapeSequence(text: string, hex: nat, c: char)
    requires c != 'u'
    ensures var r := Feed(Str(NormalChar, text, None, hex), ['\\', c]);
      && (r.error.None? <==> c in "\"\\/bfnrt")
      && (r.error.Some? ==> r.error == Some(InvalidEscapeChar))
      && (c == '"' || c == '\\' || c == '/' ==> r.m == Str(NormalChar, text + [c], None, hex))
      && (c == 'b' ==> r.m == Str(NormalChar, text + [8 as char], None, hex))
      && (c == 'f' ==> r.m == Str(NormalChar, text + [12 as char], None, hex))
      && (c == 'n' ==> r.m == Str(NormalChar, text + "\n", None, hex))
      && (c == 'r' ==> r.m == Str(NormalChar, text + "\r", None, hex))
      && (c == 't' ==> r.m == Str(NormalChar, text + "\t", None, hex))
  {
    var w := ['\\', c];
    assert w[0] == '\\' && w[1..] == [c];
    var esc := Str(Escape, text, None, hex);
    assert Consume(Str(NormalChar, text, None, hex), Some('\\')) == Continue(esc);
    FeedQuietStep(Consume, Str(NormalChar, text, None, hex), esc, w);
    assert Consume(esc, Some(c)) == EscapeStep(text, None, hex, c);
    FeedLast(Consume, esc, c);
  }

  /** The value of a run of hexadecimal digits, most significant first. */
  function HexValue(s: string): (v: nat)
    requires forall i :: 0 <= i < |s| ==> HexDigit(s[i]).Some?
    ensures v < Pow16(|s|)
  {
    if s == [] then 0 else 16 * HexValue(s[..|s| - 1]) + HexDigit(s[|s| - 1]).value
  }

  function Pow16(k: nat): (r: nat)
    ensures r >= 1
  {
    if k == 0 then 1 else 16 * Pow16(k - 1)
  }

  /** What `Feed` makes of a last character `c` whose step matched it and pushed nothing. */
  function StepRun(st: Step, c: char): Run
  {
    if st.error.Some? then Run(Done, st.error, st.events, [c], false)
    else Run(st.next, None, st.events, [], st.next != Done)
  }

  /** One more digit: the value so far times sixteen, plus the digit. */
  lemma HexValueSnoc(s: string, k: nat)
    requires 1 <= k <= |s| && forall i :: 0 <= i < |s| ==> HexDigit(s[i]).Some?
    ensures HexValue(s[..k]) == 16 * HexValue(s[..k - 1]) + HexDigit(s[k - 1]).value
  {
    var t := s[..k];
    assert t[..|t| - 1] == s[..k - 1] && t[|t| - 1] == s[k - 1];
  }

  /** A last character that the matcher takes without pushing: the run ends as `StepRun` says. */
  lemma FeedLast(f: StepFunction, m: Matcher, c: char)
    requires m != Done && f(m, Some(c)).matched && f(m, Some(c)).push.None?
    ensures FeedWith(f, m, [c]) == StepRun(f(m, Some(c)), c)
  {
    var st := f(m, Some(c));
    assert [c][0] == c && [c][1..] == [];
    if st.error.None? {
      assert st.events + [] == st.events;
    }
  }

  /** Three silent steps and a last one that pushes nothing: the run of four characters. */
  lemma FeedFour(f: StepFunction, m1: Matcher, m2: Matcher, m3: Matcher, m4: Matcher, s: string)
    requires |s| == 4 && m1 != Done && m2 != Done && m3 != Done && m4 != Done
    requires f(m1, Some(s[0])) == Continue(m2) && f(m2, Some(s[1])) == Continue(m3)
    requires f(m3, Some(s[2])) == Continue(m4)
    requires f(m4, Some(s[3])).matched && f(m4, Some(s[3])).push.None?
    ensures FeedWith(f, m1, s) == StepRun(f(m4, Some(s[3])), s[3])
  {
    FeedQuietStep(f, m1, m2, s);
    FeedQuietStep(f, m2, m3, s[1..]);
    FeedQuietStep(f, m3, m4, s[2..]);
    assert s[1..][1..] == s[2..] && s[2..][1..] == [s[3]];
    FeedLast(f, m4, s[3]);
  }

  lemma FeedFourTo(f: StepFunction, m1: Matcher, m2: Matcher, m3: Matcher, m4: Matcher, s: string, st: Step)
    requires |s| == 4 && m1 != Done && m2 != Done && m3 != Done && m4 != Done
    requires f(m1, Some(s[0])) == Continue(m2) && f(m2, Some(s[1])) == Continue(m3)
    requires f(m3, Some(s[2])) == Continue(m4) && f(m4, Some(s[3])) == st
    requires st.matched && st.push.None?
    ensures FeedWith(f, m1, s) == StepRun(st, s[3])
  {
    FeedFour(f, m1, m2, m3, m4, s);
  }

  /** The fourth digit after `\u` completes the code unit and hands it to `Append16`. */
  lemma LastHexDigitStep(text: string, high: Option<HighSurrogate>, hex: nat, c: char)
    ensures var d := HexDigit(c);
      Consume(Str(Hex(4), text, high, hex), Some(c))
      == if d.None? then Fail(InvalidHexChar) else Append16(text, high, 16 * hex + d.value)
  {
  }

  /** The `k`-th of the first three digits after `\u` extends the value read so far. */
  lemma NextHexStep(text: string, high: Option<HighSurrogate>, hex: nat, s: string, k: nat)
    requires |s| == 4 && forall i :: 0 <= i < 4 ==> HexDigit(s[i]).Some?
    requires 1 <= k <= 3 && (k == 1 || hex == HexValue(s[..k - 1]))
    ensures Consume(Str(Hex(k), text, high, hex), Some(s[k - 1])) == Continue(Str(Hex(k + 1), text, high, HexValue(s[..k])))
  {
    HexDigitStep(k, text, high, hex, s[k - 1]);
    HexValueSnoc(s, k);
    if k == 1 {
      assert s[..0] == [];
    }
  }

  /** The fourth digit after `\u` hands the value of all four to `Append16`. */
  lemma FourthHexStep(text: string, high: Option<HighSurrogate>, s: string)
    requires |s| == 4 && forall i :: 0 <= i < 4 ==> HexDigit(s[i]).Some?
    ensures Consume(Str(Hex(4), text, high, HexValue(s[..3])), Some(s[3])) == Append16(text, high, HexValue(s))
  {
    var v := HexValue(s);
    assert v == 16 * HexValue(s[..3]) + HexDigit(s[3]).value by {
      HexValueSnoc(s, 4);
      assert s[..4] == s;
    }
    LastHexDigitStep(text, high, HexValue(s[..3]), s[3]);
  }

  /** The first three steps after `\u`: each digit extends the value. */
  lemma HexSteps(text: string, high: Option<HighSurrogate>, hex: nat, s: string)
    requires |s| == 4 && forall i :: 0 <= i < 4 ==> HexDigit(s[i]).Some?
    ensures Consume(Str(Hex(1), text, high, hex), Some(s[0])) == Continue(Str(Hex(2), text, high, HexValue(s[..1])))
    ensures Consume(Str(Hex(2), text, high, HexValue(s[..1])), Some(s[1])) == Continue(Str(Hex(3), text, high, HexValue(s[..2])))
    ensures Consume(Str(Hex(3), text, high, HexValue(s[..2])), Some(s[2])) == Continue(Str(Hex(4), text, high, HexValue(s[..3])))
  {
    NextHexStep(text, high, hex, s, 1);
    NextHexStep(text, high, HexValue(s[..1]), s, 2);
    NextHexStep(text, high, HexValue(s[..2]), s, 3);
  }

  /** Four hexadecimal digits after `\u` form one UTF-16 code unit, handed to `Append16` whatever came before. */
  lemma UnicodeEscape(text: string, high: Option<HighSurrogate>, hex: nat, s: string)
    requires |s| == 4 && forall i :: 0 <= i < 4 ==> HexDigit(s[i]).Some?
    ensures Feed(Str(Hex(1), text, high, hex), s) == StepRun(Append16(text, high, HexValue(s)), s[3])
  {
    HexSteps(text, high, hex, s);
    FourthHexStep(text, high, s);
    FeedFourTo(Consume, Str(Hex(1), text, high, hex), Str(Hex(2), text, high, HexValue(s[..1])),
               Str(Hex(3), text, high, HexValue(s[..2])), Str(Hex(4), text, high, HexValue(s[..3])),
               s, Append16(text, high, HexValue(s)));
  }

  /**
   * One of the first three characters after `\u`: a hex digit extends the
   * value (the first starts it afresh), anything else is an invalid hex
   * character.
   */
  lemma HexDigitStep(k: nat, text: string, high: Option<HighSurrogate>, hex: nat, c: char)
    requires 1 <= k <= 3
    ensures var d := HexDigit(c);
      Consume(Str(Hex(k), text, high, hex), Some(c))
      == if d.None? then Fail(InvalidHexChar)
         else Continue(Str(Hex(k + 1), text, high, 16 * (if k == 1 then 0 else hex) + d.value))
  {
  }

  /** A backslash and `u` start the four hex digits of a code unit, a pending high surrogate or not. */
  lemma UnicodeEscapeStart(text: string, high: Option<HighSurrogate>, hex: nat)
    ensures Feed(Str(NormalChar, text, high, hex), "\\u") == Run(Str(Hex(1), text, high, hex), None, [], [], true)
  {
    var w := "\\u";
    assert w[0] == '\\' && w[1..] == "u" && w[1..][0] == 'u' && w[1..][1..] == [];
    FeedQuietStep(Consume, Str(NormalChar, text, high, hex), Str(Escape, text, high, hex), w);
    FeedQuietStep(Consume, Str(Escape, text, high, hex), Str(Hex(1), text, high, hex), w[1..]);
  }

  /** A high surrogate waits for its low half, and the pair appends the code point it encodes. */
  lemma SurrogatePair(text: string, high: HighSurrogate, low: nat, hex: nat)
    requires IsLowSurrogate(low)
    ensures Append16(text, None, high) == Continue(Str(NormalChar, text, Some(high), high))
    ensures Append16(text, Some(high), low) == Continue(Str(NormalChar, text + [CombineSurrogates(high, low) as char], None, low))
  {
  }

  /**
   * A surrogate out of turn is a bad code point: a low surrogate with no
   * high one before it, a high surrogate followed by another code unit
   * that is not a low surrogate, by a plain character or by the closing
   * quote. A single-character escape after a high surrogate is an invalid
   * escape.
   */
  lemma LoneSurrogate(text: string, high: Option<HighSurrogate>, hex: nat, unit: nat, c: char)
    requires unit < 0x1_0000
    ensures high.None? && IsLowSurrogate(unit) ==> Append16(text, high, unit).error == Some(BadUnicodeCodePoint)
    ensures high.Some? && !IsLowSurrogate(unit) ==> Append16(text, high, unit).error == Some(BadUnicodeCodePoint)
    ensures high.Some? && c != '\\' ==> NormalCharStep(text, high, hex, c).error == Some(BadUnicodeCodePoint)
    ensures high.Some? && c != 'u' ==> EscapeStep(text, high, hex, c).error.Some?
  {
  }

  /** UTF-16 encoding of a supplementary code point: its pair of surrogates combines back into it. */
  lemma SurrogateRoundTrip(cp: nat)
    requires 0x10000 <= cp <= 0x10FFFF
    ensures var high := 0xD800 + (cp - 0x10000) / 0x400;
      var low := 0xDC00 + (cp - 0x10000) % 0x400;
      IsHighSurrogate(high) && IsLowSurrogate(low) && CombineSurrogates(high, low) == cp
  {
  }
}

/**
 * The command-line scanner shared by the pstore tools. Arguments are read
 * in two passes: switches first (`--name`, `--name=value`, `-abc`,
 * `-ovalue`, a switch whose value is the next argument), up to a bare
 * `--` or the first argument without a leading dash; then the remaining
 * arguments are handed to the positional options in registration order;
 * finally every option that must appear is checked.
 *
 * The registry `option::all()` is the sequence of option records; an
 * option pointer is an index into it. The error stream is the sequence of
 * reports written to it.
 */
module CommandLine {
  import opened MaybeValues
  import ValueParser
  import DecimalDigits

  /** `num_occurrences_flag`. */
  datatype Occurrences = Optional | ZeroOrMore | Required | OneOrMore

  /** How an option reads a value: any text, or through a `parser<T>` with these literals. */
  datatype ValueKind = Text | Parsed(literals: seq<ValueParser.Literal>)

  /** An `option`, with the state the scan changes: its occurrence count and the values it took. */
  datatype OptionRecord = OptionRecord(
    name: string,
    positional: bool,
    takesArgument: bool,
    flag: Occurrences,
    kind: ValueKind,
    occurrences: nat,
    values: seq<string>)

  /** The messages written to the error stream. */
  datatype Report =
    | UnknownArgument(name: string)
    | UnknownValue(value: string)
    | TakesNoValue(name: string)
    | RequiresValue(name: string)
    | MustBeSpecified(name: string)
    | PositionalMissing
    | PositionalsMissing(count: nat)

  /** The registered options and what has been reported so far. */
  datatype Session = Session(options: seq<OptionRecord>, reports: seq<Report>)

  // sticky_bool

  /** `sticky_bool<StickTo>::operator=(bool)`: a value equal to `StickTo` ignores later assignments. */
  function Stick(stickTo: bool, v: bool, b: bool): (r: bool)
    ensures v == stickTo ==> r == v
    ensures v != stickTo ==> r == b
  {
    if v != stickTo then b else v
  }

  /** The value after a run of assignments. */
  function StickAll(stickTo: bool, v: bool, bs: seq<bool>): bool
    decreases |bs|
  {
    if bs == [] then v else StickAll(stickTo, Stick(stickTo, v, bs[0]), bs[1..])
  }

  /** Once a sticky bool holds `StickTo`, no run of assignments changes it. */
  lemma {:induction false} StuckForGood(stickTo: bool, bs: seq<bool>)
    ensures StickAll(stickTo, stickTo, bs) == stickTo
    decreases |bs|
  {
    if bs != [] {
      StuckForGood(stickTo, bs[1..]);
    }
  }

  /** A `sticky_bool<false>` that starts true ends true exactly when every assignment was true. */
  lemma {:induction false} StickyFalseIsConjunction(bs: seq<bool>)
    ensures StickAll(false, true, bs) <==> forall k :: 0 <= k < |bs| ==> bs[k]
    decreases |bs|
  {
    if bs != [] {
      StickyFalseIsConjunction(bs[1..]);
      if !bs[0] {
        StuckForGood(false, bs[1..]);
      }
      assert forall k :: 1 <= k < |bs| ==> bs[k] == bs[1..][k - 1];
    }
  }

  /** `sticky_bool`. */
  class StickyBool {
    const stickTo: bool
    var v: bool

    constructor (stickTo: bool, v: bool)
      ensures this.stickTo == stickTo && this.v == v
    {
      this.stickTo := stickTo;
      this.v := v;
    }

    method Assign(b: bool)
      modifies this
      ensures v == Stick(stickTo, old(v), b)
    {
      if v != stickTo {
        v := b;
      }
    }

    function Get(): bool
      reads this
    {
      v
    }
  }

  // The options

  /** `find_handler`: the first registered option with this name. */
  function FindHandler(options: seq<OptionRecord>, name: string): (r: Maybe<nat>)
    ensures r.Just? ==> r.value < |options| && options[r.value].name == name
    ensures r.Just? ==> forall j :: 0 <= j < r.value ==> options[j].name != name
    ensures r.Nothing? ==> forall j :: 0 <= j < |options| ==> options[j].name != name
  {
    if options == [] then Nothing
    else if options[0].name == name then Just(0)
    else match FindHandler(options[1..], name)
      case Nothing => Nothing
      case Just(k) => Just(k + 1)
  }

  /** `option::value`: whether the text is a value of the option. */
  predicate Accepts(o: OptionRecord, v: string)
  {
    match o.kind
    case Text => true
    case Parsed(literals) => ValueParser.Parse(literals, v).Just?
  }

  /** `option::can_accept_another_occurrence`: options that may appear once take no more after one. */
  predicate CanAcceptAnother(o: OptionRecord)
  {
    (o.flag == Optional || o.flag == Required) ==> o.occurrences == 0
  }

  /** The options `check_for_missing` insists on. */
  predicate NeedsOne(o: OptionRecord)
  {
    o.flag == Required || o.flag == OneOrMore
  }

  /** `option::add_occurrence`, which succeeds. */
  function Occur(s: Session, h: nat): (r: Session)
    requires h < |s.options|
    ensures |r.options| == |s.options| && r.reports == s.reports
    ensures r.options[h].occurrences == s.options[h].occurrences + 1
    ensures r.options[h].values == s.options[h].values
    ensures forall j :: 0 <= j < |s.options| && j != h ==> r.options[j] == s.options[j]
  {
    var o := s.options[h];
    s.(options := s.options[h := o.(occurrences := o.occurrences + 1)])
  }

  /**
   * `handler_set_value`: one more occurrence of the option, then its value;
   * the value is kept only when the option accepts it.
   */
  function HandlerSetValue(s: Session, h: nat, v: string): (r: (Session, bool))
    requires h < |s.options|
    ensures |r.0.options| == |s.options| && r.0.reports == s.reports
    ensures r.1 <==> Accepts(s.options[h], v)
    ensures r.0.options[h].occurrences == s.options[h].occurrences + 1
    ensures r.0.options[h].values == if r.1 then s.options[h].values + [v] else s.options[h].values
    ensures forall j :: 0 <= j < |s.options| && j != h ==> r.0.options[j] == s.options[j]
  {
    var t := Occur(s, h);
    var o := t.options[h];
    if Accepts(s.options[h], v) then (t.(options := t.options[h := o.(values := o.values + [v])]), true)
    else (t, false)
  }

  // Switches

  /** The outcome of one switch: the options and reports, the option still waiting for its value, and `ok`. */
  datatype Step = Step(session: Session, pending: Maybe<nat>, ok: bool)

  predicate ValidPending(s: Session, pending: Maybe<nat>)
  {
    pending.Just? ==> pending.value < |s.options|
  }

  /**
   * `record_value_if_available` for a known switch `h`: an option taking a
   * value records the one given (reporting one it does not accept) or,
   * with none, waits for the next argument; a flag counts one occurrence
   * and refuses a value.
   */
  function RecordValue(s: Session, h: nat, value: Maybe<string>): (r: Step)
    requires h < |s.options|
    ensures |r.session.options| == |s.options| && ValidPending(r.session, r.pending)
    ensures s.reports <= r.session.reports && (r.ok ==> r.session.reports == s.reports)
  {
    var o := s.options[h];
    if o.takesArgument then
      match value
      case Just(v) =>
        var (t, ok) := HandlerSetValue(s, h, v);
        Step(if ok then t else t.(reports := t.reports + [UnknownValue(v)]), Nothing, ok)
      case Nothing => Step(s, Just(h), true)
    else
      match value
      case Just(v) => Step(s.(reports := s.reports + [TakesNoValue(o.name)]), Just(h), false)
      case Nothing => Step(Occur(s, h), Nothing, true)
  }

  /**
   * `process_single_dash` on the letters after the dash: each letter names
   * a switch. A flag counts an occurrence and the next letter follows; a
   * switch taking a value takes the rest of the word, or waits for the next
   * argument when the word ends with it. An unknown letter, or the name of
   * a positional option, is reported and ends the word.
   */
  function SingleDash(s: Session, letters: string): (r: Step)
    ensures |r.session.options| == |s.options| && ValidPending(r.session, r.pending)
    ensures s.reports <= r.session.reports && (r.ok ==> r.session.reports == s.reports)
    decreases |letters|
  {
    if letters == [] then Step(s, Nothing, true)
    else
      var h := FindHandler(s.options, [letters[0]]);
      if h.Nothing? || s.options[h.value].positional then
        Step(s.(reports := s.reports + [UnknownArgument([letters[0]])]), h, false)
      else if s.options[h.value].takesArgument then
        if |letters| == 1 then Step(s, h, true)
        else
          var (t, ok) := HandlerSetValue(s, h.value, letters[1..]);
          Step(t, Nothing, ok)
      else
        SingleDash(Occur(s, h.value), letters[1..])
  }

  /** `argument_is_positional`: an argument that does not start with a dash. */
  predicate IsPositionalArgument(arg: string)
  {
    arg == [] || arg[0] != '-'
  }

  /** The index of the first `=` at or after `i`, or the length of the text. */
  function FindEquals(arg: string, i: nat): (k: nat)
    requires i <= |arg|
    ensures i <= k <= |arg|
    ensures k < |arg| ==> arg[k] == '='
    ensures forall j :: i <= j < k ==> arg[j] != '='
    decreases |arg| - i
  {
    if i == |arg| || arg[i] == '=' then i else FindEquals(arg, i + 1)
  }

  /** `get_option_and_value` on `--name` or `--name=value`: the name, and the value if there is an `=`. */
  function OptionAndValue(arg: string): (r: (string, Maybe<string>))
    requires |arg| >= 2
    ensures r.1.Nothing? ==> arg == "--" + r.0 || arg[..2] + r.0 == arg
    ensures r.1.Just? ==> arg[..2] + r.0 + "=" + r.1.value == arg
    ensures '=' !in r.0
  {
    var k := FindEquals(arg, 2);
    assert forall j :: 0 <= j < k - 2 ==> arg[2..k][j] == arg[j + 2];
    if k == |arg| then (arg[2..], Nothing)
    else
      assert arg[..2] + arg[2..k] + "=" + arg[k + 1..] == arg;
      (arg[2..k], Just(arg[k + 1..]))
  }

  /** Where the scan of the switches stopped: the options and reports, the next argument, the pending option and `ok`. */
  datatype Scan = Scan(session: Session, next: nat, pending: Maybe<nat>, ok: bool)

  /** Whether the argument read now is the value of the pending option. */
  predicate WantsValue(s: Session, pending: Maybe<nat>)
    requires ValidPending(s, pending)
  {
    pending.Just? && s.options[pending.value].takesArgument
  }

  /**
   * A switch read by `parse_option_arguments`: `--name` or `--name=value`
   * names one option (unknown names and positional options are reported),
   * anything else is a word of single-dash switches.
   */
  function OptionStep(s: Session, arg: string): (r: Step)
    requires arg != "--" && !IsPositionalArgument(arg)
    ensures |r.session.options| == |s.options| && ValidPending(r.session, r.pending)
    ensures s.reports <= r.session.reports && (r.ok ==> r.session.reports == s.reports)
  {
    if |arg| >= 2 && arg[..2] == "--" then
      var (name, value) := OptionAndValue(arg);
      var h := FindHandler(s.options, name);
      if h.Nothing? || s.options[h.value].positional then
        Step(s.(reports := s.reports + [UnknownArgument(name)]), h, false)
      else
        RecordValue(s, h.value, value)
    else
      SingleDash(s, arg[1..])
  }

  /**
   * The loop of `parse_option_arguments` from argument `i`: an argument
   * the pending option waits for is its value; a bare `--` is consumed and
   * ends the switches; an argument without a dash ends them and is left
   * for the positional options; anything else is a switch. `ok`, a
   * `sticky_bool<false>`, stays false once a step fails.
   */
  function OptionScan(s: Session, args: seq<string>, i: nat, pending: Maybe<nat>, ok: bool): (r: Scan)
    requires i <= |args| && ValidPending(s, pending)
    ensures i <= r.next <= |args| && |r.session.options| == |s.options| && ValidPending(r.session, r.pending)
    ensures s.reports <= r.session.reports
    ensures r.ok ==> ok && r.session.reports == s.reports
    decreases |args| - i
  {
    if i == |args| then Scan(s, i, pending, ok)
    else if WantsValue(s, pending) then
      var (t, b) := HandlerSetValue(s, pending.value, args[i]);
      OptionScan(t, args, i + 1, Nothing, Stick(false, ok, b))
    else if args[i] == "--" then Scan(s, i + 1, pending, ok)
    else if IsPositionalArgument(args[i]) then Scan(s, i, pending, ok)
    else
      var st := OptionStep(s, args[i]);
      OptionScan(st.session, args, i + 1, st.pending, Stick(false, ok, st.ok))
  }

  /** The argument the pending option waits for. */
  lemma PendingValueStep(s: Session, args: seq<string>, i: nat, pending: Maybe<nat>, ok: bool,
                         t: Session, b: bool, j: nat, ok': bool)
    requires i < |args| && ValidPending(s, pending) && WantsValue(s, pending)
    requires (t, b) == HandlerSetValue(s, pending.value, args[i]) && j == i + 1 && ok' == Stick(false, ok, b)
    ensures OptionScan(s, args, i, pending, ok) == OptionScan(t, args, j, Nothing, ok')
  {
    assert i != |args|;
  }

  /** A switch. */
  lemma SwitchStep(s: Session, args: seq<string>, i: nat, pending: Maybe<nat>, ok: bool,
                   st: Step, j: nat, ok': bool)
    requires i < |args| && ValidPending(s, pending) && !WantsValue(s, pending)
    requires args[i] != "--" && !IsPositionalArgument(args[i])
    requires st == OptionStep(s, args[i]) && j == i + 1 && ok' == Stick(false, ok, st.ok)
    ensures OptionScan(s, args, i, pending, ok) == OptionScan(st.session, args, j, st.pending, ok')
  {
    assert i != |args| && !(args[i] == "--") && !IsPositionalArgument(args[i]);
  }

  /** After the loop: an option still waiting for its value is reported and the scan fails. */
  function FinishOptions(sc: Scan): (r: Scan)
    requires ValidPending(sc.session, sc.pending)
    ensures r.next == sc.next && r.session.options == sc.session.options
  {
    if WantsValue(sc.session, sc.pending) then
      var name := sc.session.options[sc.pending.value].name;
      sc.(session := sc.session.(reports := sc.session.reports + [RequiresValue(name)]), ok := false)
    else sc
  }

  /** `parse_option_arguments` over `args`: where the positional arguments start, and `ok`. */
  function ParseOptions(s: Session, args: seq<string>): (r: Scan)
    ensures r.next <= |args| && |r.session.options| == |s.options|
  {
    FinishOptions(OptionScan(s, args, 0, Nothing, true))
  }

  /** An unknown or positional `--name` is reported, and the scan fails. */
  lemma UnknownLongOption(s: Session, args: seq<string>, i: nat, pending: Maybe<nat>, ok: bool)
    requires i < |args| && ValidPending(s, pending) && !WantsValue(s, pending)
    requires |args[i]| > 2 && args[i][..2] == "--"
    requires var h := FindHandler(s.options, OptionAndValue(args[i]).0);
      h.Nothing? || s.options[h.value].positional
    ensures var r := OptionScan(s, args, i, pending, ok);
      !r.ok && UnknownArgument(OptionAndValue(args[i]).0) in r.session.reports
  {
    var st := OptionStep(s, args[i]);
    assert UnknownArgument(OptionAndValue(args[i]).0) in st.session.reports;
    SwitchStep(s, args, i, pending, ok, st, i + 1, false);
  }
  /**
   * An unknown or positional first letter after a single dash is reported,
   * stops the walk over the letters and leaves its handler pending.
   */
  lemma UnknownShortLetter(s: Session, c: char, rest: string)
    requires var h := FindHandler(s.options, [c]); h.Nothing? || s.options[h.value].positional
    ensures var r := SingleDash(s, [c] + rest);
      !r.ok && r.pending == FindHandler(s.options, [c]) && r.session.options == s.options &&
      r.session.reports == s.reports + [UnknownArgument([c])]
  {
    assert ([c] + rest)[0] == c;
  }

  /** An unknown or positional `-x` is reported, and the scan fails. */
  lemma UnknownShortOption(s: Session, args: seq<string>, i: nat, pending: Maybe<nat>, ok: bool)
    requires i < |args| && ValidPending(s, pending) && !WantsValue(s, pending)
    requires |args[i]| >= 2 && args[i][0] == '-' && args[i][1] != '-'
    requires var h := FindHandler(s.options, [args[i][1]]); h.Nothing? || s.options[h.value].positional
    ensures var r := OptionScan(s, args, i, pending, ok);
      !r.ok && UnknownArgument([args[i][1]]) in r.session.reports
  {
    var arg := args[i];
    assert arg[1..] == [arg[1]] + arg[2..];
    UnknownShortLetter(s, arg[1], arg[2..]);
    var st := OptionStep(s, arg);
    assert UnknownArgument([arg[1]]) in st.session.reports;
    SwitchStep(s, args, i, pending, ok, st, i + 1, false);
  }


  /** A flag given a value with `--name=value` is reported, and the scan fails. */
  lemma FlagRefusesValue(s: Session, args: seq<string>, i: nat, pending: Maybe<nat>, ok: bool, h: nat)
    requires i < |args| && ValidPending(s, pending) && !WantsValue(s, pending)
    requires |args[i]| > 2 && args[i][..2] == "--" && OptionAndValue(args[i]).1.Just?
    requires FindHandler(s.options, OptionAndValue(args[i]).0) == Just(h)
    requires !s.options[h].positional && !s.options[h].takesArgument
    ensures var r := OptionScan(s, args, i, pending, ok);
      !r.ok && TakesNoValue(s.options[h].name) in r.session.reports
  {
    var st := OptionStep(s, args[i]);
    assert TakesNoValue(s.options[h].name) in st.session.reports;
    SwitchStep(s, args, i, pending, ok, st, i + 1, false);
  }

  /** `--name` without `=` is read as the name alone. */
  lemma NameWithoutValue(name: string)
    requires '=' !in name
    ensures OptionAndValue("--" + name) == (name, Nothing)
  {
    var arg := "--" + name;
    assert arg[..2] == "--";
  }

  /** A switch taking a value, given as `--name` alone, takes the next argument as its value. */
  lemma ValueInNextArgument(s: Session, args: seq<string>, i: nat, ok: bool, name: string, h: nat)
    requires i + 1 < |args| && args[i] == "--" + name && name != [] && '=' !in name
    requires FindHandler(s.options, name) == Just(h)
    requires !s.options[h].positional && s.options[h].takesArgument
    ensures var (t, b) := HandlerSetValue(s, h, args[i + 1]);
      OptionScan(s, args, i, Nothing, ok) == OptionScan(t, args, i + 2, Nothing, ok && b)
  {
    NameWithoutValue(name);
    assert args[i][..2] == "--";
    var st := OptionStep(s, args[i]);
    assert st == Step(s, Just(h), true);
    SwitchStep(s, args, i, Nothing, ok, st, i + 1, ok);
    var (t, b) := HandlerSetValue(s, h, args[i + 1]);
    PendingValueStep(s, args, i + 1, Just(h), ok, t, b, i + 2, ok && b);
  }

  /** A switch still waiting for its value when the arguments run out is reported, and the scan fails. */
  lemma ValueMissingAtEnd(s: Session, name: string, h: nat)
    requires name != [] && '=' !in name
    requires FindHandler(s.options, name) == Just(h)
    requires !s.options[h].positional && s.options[h].takesArgument
    ensures ParseOptions(s, ["--" + name]) == Scan(s.(reports := s.reports + [RequiresValue(name)]), 1, Just(h), false)
  {
    NameWithoutValue(name);
    var args := ["--" + name];
    assert args[0][..2] == "--";
    SwitchStep(s, args, 0, Nothing, true, Step(s, Just(h), true), 1, true);
  }

  /** A bare `--` is consumed and ends the switches: everything after it is positional. */
  lemma DoubleDashEndsSwitches(s: Session, rest: seq<string>)
    ensures ParseOptions(s, ["--"] + rest) == Scan(s, 1, Nothing, true)
  {
    assert (["--"] + rest)[0] == "--";
  }

  /** The first argument without a dash ends the switches and is left for the positional options. */
  lemma PositionalEndsSwitches(s: Session, args: seq<string>)
    requires args != [] && IsPositionalArgument(args[0])
    ensures ParseOptions(s, args) == Scan(s, 0, Nothing, true)
  {
  }

  /** How many of the letters name option `k`. */
  function Hits(options: seq<OptionRecord>, letters: string, k: nat): nat
    decreases |letters|
  {
    if letters == [] then 0
    else (if FindHandler(options, [letters[0]]) == Just(k) then 1 else 0) + Hits(options, letters[1..], k)
  }

  /** The letters all name flags. */
  predicate AllFlags(options: seq<OptionRecord>, letters: string)
  {
    forall j :: 0 <= j < |letters| ==>
      var h := FindHandler(options, [letters[j]]);
      h.Just? && !options[h.value].positional && !options[h.value].takesArgument
  }

  /** Options that differ at most in their counts and values. */
  predicate SameOptions(a: seq<OptionRecord>, b: seq<OptionRecord>)
  {
    |a| == |b| && forall k :: 0 <= k < |a| ==>
      a[k].name == b[k].name && a[k].positional == b[k].positional && a[k].takesArgument == b[k].takesArgument
  }

  lemma {:induction false} FindHandlerSameOptions(a: seq<OptionRecord>, b: seq<OptionRecord>, name: string)
    requires SameOptions(a, b)
    ensures FindHandler(a, name) == FindHandler(b, name)
    decreases |a|
  {
    if a != [] && a[0].name != name {
      assert SameOptions(a[1..], b[1..]) by {
        assert forall k :: 0 <= k < |a| - 1 ==> a[1..][k] == a[k + 1] && b[1..][k] == b[k + 1];
      }
      FindHandlerSameOptions(a[1..], b[1..], name);
    }
  }

  lemma {:induction false} HitsSameOptions(a: seq<OptionRecord>, b: seq<OptionRecord>, letters: string, k: nat)
    requires SameOptions(a, b)
    ensures Hits(a, letters, k) == Hits(b, letters, k)
    decreases |letters|
  {
    if letters != [] {
      FindHandlerSameOptions(a, b, [letters[0]]);
      HitsSameOptions(a, b, letters[1..], k);
    }
  }

  lemma AllFlagsSameOptions(a: seq<OptionRecord>, b: seq<OptionRecord>, letters: string)
    requires SameOptions(a, b) && AllFlags(a, letters)
    ensures AllFlags(b, letters)
  {
    forall j | 0 <= j < |letters|
      ensures var h := FindHandler(b, [letters[j]]);
        h.Just? && !b[h.value].positional && !b[h.value].takesArgument
    {
      FindHandlerSameOptions(a, b, [letters[j]]);
    }
  }

  /** A word of flags, such as `-abc`, counts one occurrence of its option per letter and reports nothing. */
  lemma {:induction false} FlagWord(s: Session, letters: string)
    requires AllFlags(s.options, letters)
    ensures var r := SingleDash(s, letters);
      r.ok && r.pending.Nothing? && r.session.reports == s.reports
      && SameOptions(s.options, r.session.options)
      && forall k :: 0 <= k < |s.options| ==>
           r.session.options[k].occurrences == s.options[k].occurrences + Hits(s.options, letters, k)
           && r.session.options[k].values == s.options[k].values
    decreases |letters|
  {
    if letters != [] {
      var h := FindHandler(s.options, [letters[0]]).value;
      var t := Occur(s, h);
      assert SameOptions(s.options, t.options);
      assert AllFlags(s.options, letters[1..]) by {
        assert forall j :: 0 <= j < |letters| - 1 ==> letters[1..][j] == letters[j + 1];
      }
      AllFlagsSameOptions(s.options, t.options, letters[1..]);
      FlagWord(t, letters[1..]);
      forall k | 0 <= k < |s.options|
        ensures Hits(t.options, letters[1..], k) == Hits(s.options, letters[1..], k)
      {
        HitsSameOptions(s.options, t.options, letters[1..], k);
      }
    }
  }

  /** `-ovalue`: a switch taking a value takes the rest of the word; alone, it waits for the next argument. */
  lemma ShortOptionValue(s: Session, c: char, v: string, h: nat)
    requires FindHandler(s.options, [c]) == Just(h)
    requires !s.options[h].positional && s.options[h].takesArgument
    ensures v == [] ==> SingleDash(s, [c] + v) == Step(s, Just(h), true)
    ensures v != [] ==> var (t, b) := HandlerSetValue(s, h, v); SingleDash(s, [c] + v) == Step(t, Nothing, b)
  {
    assert ([c] + v)[0] == c && ([c] + v)[1..] == v;
  }

  // Positional arguments

  /** `find_if` for a positional option: the first at or after `from`, or the number of options. */
  function NextPositional(options: seq<OptionRecord>, from: nat): (k: nat)
    requires from <= |options|
    ensures from <= k <= |options|
    ensures k < |options| ==> options[k].positional
    ensures forall j :: from <= j < k ==> !options[j].positional
    decreases |options| - from
  {
    if from == |options| || options[from].positional then from else NextPositional(options, from + 1)
  }

  /**
   * The loop of `parse_positional_arguments` from argument `i` with the
   * positional option `it`: the options after the arguments are used, and
   * for each argument used whether its option accepted it. An option that
   * cannot take another occurrence hands over to the next positional one.
   */
  function Assignments(s: Session, args: seq<string>, i: nat, it: nat): (r: (Session, seq<bool>))
    requires i <= |args| && it <= |s.options|
    ensures |r.0.options| == |s.options| && r.0.reports == s.reports && |r.1| <= |args| - i
    decreases |args| - i
  {
    if i == |args| || it == |s.options| then (s, [])
    else
      var (t, accepted) := HandlerSetValue(s, it, args[i]);
      var next := if CanAcceptAnother(t.options[it]) then it else NextPositional(t.options, it + 1);
      var (u, rest) := Assignments(t, args, i + 1, next);
      (u, [accepted] + rest)
  }

  /**
   * `ok` as `parse_positional_arguments` computes it: every argument
   * assigns `ok` afresh, so only the last argument's outcome is left.
   */
  function PositionalOkAsWritten(accepted: seq<bool>): bool
  {
    accepted == [] || accepted[|accepted| - 1]
  }

  /** `ok` as evidently intended: every positional argument was accepted. */
  predicate PositionalOk(accepted: seq<bool>)
  {
    forall k :: 0 <= k < |accepted| ==> accepted[k]
  }

  /** A numeric positional option that takes any number of arguments. */
  const Numbers := OptionRecord("numbers", true, true, ZeroOrMore, Parsed([]), 0, [])

  /**
   * The code as written forgets a rejected positional argument when a
   * later one is accepted: given "x" then "1" for a numeric option the scan
   * reports success, though "x" was refused.
   */
  lemma PositionalFailureForgotten()
    ensures var r := Assignments(Session([Numbers], []), ["x", "1"], 0, 0);
      r.1 == [false, true] && PositionalOkAsWritten(r.1) && !PositionalOk(r.1)
  {
    var args := ["x", "1"];
    ValueParser.TrailingJunk("", 'x');
    assert "" + ['x'] == args[0];
    ValueParser.ParseRoundTrip(1);
    assert DecimalDigits.Decimal(1) == args[1];
    var s := Session([Numbers], []);
    var t := HandlerSetValue(s, 0, args[0]).0;
    assert !HandlerSetValue(s, 0, args[0]).1;
    assert CanAcceptAnother(t.options[0]);
    var u := HandlerSetValue(t, 0, args[1]).0;
    assert HandlerSetValue(t, 0, args[1]).1;
    assert Assignments(u, args, 2, 0).1 == [];
    assert Assignments(t, args, 1, 0).1 == [true];
    assert Assignments(s, args, 0, 0).1 == [false] + [true];
    assert !Assignments(s, args, 0, 0).1[0];
  }

  /** One argument of `parse_positional_arguments`. */
  lemma AssignmentsStep(s: Session, args: seq<string>, i: nat, it: nat, t: Session, b: bool, next: nat)
    requires i < |args| && it < |s.options|
    requires (t, b) == HandlerSetValue(s, it, args[i])
    requires next == if CanAcceptAnother(t.options[it]) then it else NextPositional(t.options, it + 1)
    ensures Assignments(s, args, i, it).0 == Assignments(t, args, i + 1, next).0
    ensures Assignments(s, args, i, it).1 == [b] + Assignments(t, args, i + 1, next).1
  {
  }

  /** The loop of `parse_positional_arguments` is on its way to `whole`, with `ok` for the arguments behind it. */
  predicate PositionalProgress(s: Session, args: seq<string>, i: nat, it: nat, ok: bool, whole: (Session, seq<bool>))
    requires i <= |args| && it <= |s.options|
  {
    var r := Assignments(s, args, i, it);
    r.0 == whole.0 && (PositionalOk(whole.1) <==> ok && PositionalOk(r.1))
  }

  lemma PositionalProgressStep(s: Session, args: seq<string>, i: nat, it: nat, ok: bool,
                               t: Session, b: bool, j: nat, next: nat, ok': bool, whole: (Session, seq<bool>))
    requires i < |args| && it < |s.options| && j == i + 1 && ok' == (ok && b)
    requires (t, b) == HandlerSetValue(s, it, args[i])
    requires next == if CanAcceptAnother(t.options[it]) then it else NextPositional(t.options, it + 1)
    requires PositionalProgress(s, args, i, it, ok, whole)
    ensures next <= |t.options| && PositionalProgress(t, args, j, next, ok', whole)
  {
    AssignmentsStep(s, args, i, it, t, b, next);
    PositionalOkCons(b, Assignments(t, args, j, next).1);
  }

  lemma PositionalOkCons(b: bool, rest: seq<bool>)
    ensures PositionalOk([b] + rest) <==> b && PositionalOk(rest)
  {
    assert ([b] + rest)[0] == b;
    assert forall k :: 0 <= k < |rest| ==> ([b] + rest)[k + 1] == rest[k];
  }

  lemma PositionalProgressDone(s: Session, args: seq<string>, i: nat, it: nat, ok: bool, whole: (Session, seq<bool>))
    requires i <= |args| && it <= |s.options| && (i == |args| || it == |s.options|)
    requires PositionalProgress(s, args, i, it, ok, whole)
    ensures s == whole.0 && (ok <==> PositionalOk(whole.1))
  {
  }

  /** With one positional option taking any number of arguments, every argument goes to it. */
  lemma {:induction false} SoleListTakesAll(s: Session, args: seq<string>, i: nat, it: nat)
    requires i <= |args| && it < |s.options|
    requires s.options[it].positional && s.options[it].flag == ZeroOrMore
    ensures var r := Assignments(s, args, i, it);
      |r.1| == |args| - i
      && r.0.options[it].occurrences == s.options[it].occurrences + (|args| - i)
      && forall j :: 0 <= j < |s.options| && j != it ==> r.0.options[j] == s.options[j]
    decreases |args| - i
  {
    if i < |args| {
      var t := HandlerSetValue(s, it, args[i]).0;
      assert CanAcceptAnother(t.options[it]);
      SoleListTakesAll(t, args, i + 1, it);
    }
  }

  /** An option that can take only one positional argument hands the next one to the following positional option. */
  lemma SingleHandsOver(s: Session, args: seq<string>, i: nat, it: nat)
    requires i + 1 < |args| && it < |s.options|
    requires s.options[it].flag == Optional || s.options[it].flag == Required
    ensures var t := HandlerSetValue(s, it, args[i]).0;
      Assignments(s, args, i, it).0 == Assignments(t, args, i + 1, NextPositional(t.options, it + 1)).0
  {
  }

  // The check for missing options

  /** The options that must appear but did not, by name, for those that are not positional. */
  function MissingNamed(options: seq<OptionRecord>): (r: seq<Report>)
    ensures forall k :: 0 <= k < |r| ==> r[k].MustBeSpecified?
    decreases |options|
  {
    if options == [] then []
    else
      var o := options[|options| - 1];
      MissingNamed(options[..|options| - 1])
        + if NeedsOne(o) && o.occurrences == 0 && !o.positional then [MustBeSpecified(o.name)] else []
  }

  /** How many positional options must appear but did not. */
  function MissingPositional(options: seq<OptionRecord>): nat
    decreases |options|
  {
    if options == [] then 0
    else
      var o := options[|options| - 1];
      MissingPositional(options[..|options| - 1])
        + if NeedsOne(o) && o.occurrences == 0 && o.positional then 1 else 0
  }

  /** The report on missing positional arguments, by how many are missing. */
  function PositionalReport(n: nat): seq<Report>
  {
    if n == 0 then [] else if n == 1 then [PositionalMissing] else [PositionalsMissing(n)]
  }

  /** Every option that must appear has appeared. */
  predicate AllPresent(options: seq<OptionRecord>)
  {
    forall k :: 0 <= k < |options| && NeedsOne(options[k]) ==> options[k].occurrences > 0
  }

  /** Nothing is missing exactly when no option that must appear has a zero count, and then nothing is reported. */
  lemma {:induction false} NothingMissing(options: seq<OptionRecord>)
    ensures (MissingNamed(options) == [] && MissingPositional(options) == 0) <==> AllPresent(options)
    decreases |options|
  {
    if options != [] {
      var p := options[..|options| - 1];
      NothingMissing(p);
      assert forall k :: 0 <= k < |p| ==> p[k] == options[k];
    }
  }

  /**
   * `parse_command_line_options` on `argv`: the first argument is the
   * program's name; the switches are read, then the positional arguments,
   * then the options that must appear are checked, each stage only when
   * the one before succeeded.
   */
  function CommandLineRun(s: Session, argv: seq<string>): (r: (Session, bool))
    requires |argv| >= 1
    ensures |r.0.options| == |s.options| && s.reports <= r.0.reports
  {
    var args := argv[1..];
    var sc := ParseOptions(s, args);
    if !sc.ok then (sc.session, false)
    else
      var (t, accepted) := Assignments(sc.session, args, sc.next, NextPositional(sc.session.options, 0));
      if !PositionalOk(accepted) then (t, false)
      else
        var reports := t.reports + MissingNamed(t.options) + PositionalReport(MissingPositional(t.options));
        (t.(reports := reports), AllPresent(t.options))
  }

  /** A run that succeeds reports nothing, and leaves every option that must appear with an occurrence. */
  lemma RunOkIsQuiet(s: Session, argv: seq<string>)
    requires |argv| >= 1
    ensures var r := CommandLineRun(s, argv); r.1 ==> r.0.reports == s.reports && AllPresent(r.0.options)
  {
    var r := CommandLineRun(s, argv);
    if r.1 {
      NothingMissing(r.0.options);
      var sc := FinishOptions(OptionScan(s, argv[1..], 0, Nothing, true));
      assert sc.session.reports == s.reports;
    }
  }

  // The scanner

  /** The registered options being filled in by a scan, and the error stream. */
  class Scanner {
    var options: seq<OptionRecord>
    var reports: seq<Report>

    function State(): Session
      reads this
    {
      Session(options, reports)
    }

    constructor (options: seq<OptionRecord>)
      ensures State() == Session(options, [])
    {
      this.options := options;
      this.reports := [];
    }

    /** `option::add_occurrence`. */
    method AddOccurrence(h: nat) returns (ok: bool)
      requires h < |options|
      modifies this
      ensures State() == Occur(old(State()), h) && ok
    {
      var o := options[h];
      options := options[h := o.(occurrences := o.occurrences + 1)];
      ok := true;
    }

    /** `handler_set_value`. */
    method SetValue(h: nat, v: string) returns (ok: bool)
      requires h < |options|
      modifies this
      ensures (State(), ok) == HandlerSetValue(old(State()), h, v)
    {
      var _ := AddOccurrence(h);
      var o := options[h];
      ok := Accepts(o, v);
      if ok {
        options := options[h := o.(values := o.values + [v])];
      }
    }

    /** `record_value_if_available`. */
    method RecordValueIfAvailable(h: nat, value: Maybe<string>) returns (pending: Maybe<nat>, ok: bool)
      requires h < |options|
      modifies this
      ensures Step(State(), pending, ok) == RecordValue(old(State()), h, value)
    {
      pending := Just(h);
      ok := true;
      if options[h].takesArgument {
        if value.Just? {
          ok := SetValue(h, value.value);
          if !ok {
            reports := reports + [UnknownValue(value.value)];
          }
          pending := Nothing;
        }
      } else {
        if value.Just? {
          reports := reports + [TakesNoValue(options[h].name)];
          ok := false;
        } else {
          ok := AddOccurrence(h);
          pending := Nothing;
        }
      }
    }

    /** `process_single_dash`: the letters after the dash, erased from the front as they are read. */
    method ProcessSingleDash(arg: string) returns (pending: Maybe<nat>, ok: bool)
      requires |arg| >= 1 && arg[0] == '-'
      modifies this
      ensures Step(State(), pending, ok) == SingleDash(old(State()), arg[1..])
    {
      var name := arg[1..];
      pending := Nothing;
      var sticky := new StickyBool(false, true);
      while sticky.Get() && name != []
        invariant |options| == |old(options)|
        invariant sticky.stickTo == false && ValidPending(State(), pending)
        invariant sticky.Get() ==> pending.Nothing? && SingleDash(State(), name) == SingleDash(old(State()), arg[1..])
        invariant !sticky.Get() ==> Step(State(), pending, false) == SingleDash(old(State()), arg[1..])
        decreases |name|
      {
        var h := FindHandler(options, [name[0]]);
        pending := h;
        if h.Nothing? || options[h.value].positional {
          reports := reports + [UnknownArgument([name[0]])];
          sticky.Assign(false);
          break;
        }
        if options[h.value].takesArgument {
          if |name| == 1 {
            name := [];
            break;
          }
          var b := SetValue(h.value, name[1..]);
          sticky.Assign(b);
          name := [];
          if !b {
            pending := Nothing;
            break;
          }
        } else {
          name := name[1..];
          var b := AddOccurrence(h.value);
          sticky.Assign(b);
        }
        pending := Nothing;
      }
      ok := sticky.Get();
    }

    /** One switch of `parse_option_arguments`. */
    method ReadSwitch(arg: string) returns (pending: Maybe<nat>, ok: bool)
      requires arg != "--" && !IsPositionalArgument(arg)
      modifies this
      ensures Step(State(), pending, ok) == OptionStep(old(State()), arg)
    {
      if |arg| >= 2 && arg[..2] == "--" {
        var (name, value) := OptionAndValue(arg);
        pending := FindHandler(options, name);
        if pending.Nothing? || options[pending.value].positional {
          reports := reports + [UnknownArgument(name)];
          ok := false;
        } else {
          pending, ok := RecordValueIfAvailable(pending.value, value);
        }
      } else {
        pending, ok := ProcessSingleDash(arg);
      }
    }

    /**
     * `parse_option_arguments`: reads the switches and returns the index
     * of the first positional argument and whether all went well.
     */
    method ParseOptionArguments(args: seq<string>) returns (next: nat, ok: bool)
      modifies this
      ensures var r := ParseOptions(old(State()), args); State() == r.session && next == r.next && ok == r.ok
    {
      ghost var whole := OptionScan(State(), args, 0, Nothing, true);
      var handler: Maybe<nat> := Nothing;
      var sticky := new StickyBool(false, true);
      var i := 0;
      while i < |args|
        invariant i <= |args| && ValidPending(State(), handler) && sticky.stickTo == false
        invariant OptionScan(State(), args, i, handler, sticky.Get()) == whole
        decreases |args| - i
      {
        ghost var before := (State(), i, handler, sticky.Get());
        var arg := args[i];
        if handler.Just? && options[handler.value].takesArgument {
          var b := SetValue(handler.value, arg);
          sticky.Assign(b);
          handler := Nothing;
          i := i + 1;
          PendingValueStep(before.0, args, before.1, before.2, before.3, State(), b, i, sticky.Get());
          continue;
        }
        if arg == "--" {
          i := i + 1;
          break;
        }
        if IsPositionalArgument(arg) {
          break;
        }
        var b;
        handler, b := ReadSwitch(arg);
        sticky.Assign(b);
        i := i + 1;
        SwitchStep(before.0, args, before.1, before.2, before.3, Step(State(), handler, b), i, sticky.Get());
      }
      assert whole == Scan(State(), i, handler, sticky.Get());
      next := i;
      if handler.Just? && options[handler.value].takesArgument {
        reports := reports + [RequiresValue(options[handler.value].name)];
        sticky.Assign(false);
      }
      ok := sticky.Get();
    }

    /** One positional argument: its option takes it, and hands over to the next positional option once full. */
    method TakePositional(it: nat, arg: string) returns (accepted: bool, next: nat)
      requires it < |options|
      modifies this
      ensures (State(), accepted) == HandlerSetValue(old(State()), it, arg)
      ensures next == if CanAcceptAnother(options[it]) then it else NextPositional(options, it + 1)
    {
      accepted := SetValue(it, arg);
      next := it;
      if !CanAcceptAnother(options[it]) {
        next := NextPositional(options, it + 1);
      }
    }

    /**
     * `parse_positional_arguments` with `ok` kept once it fails: the
     * arguments from `first` go to the positional options in registration
     * order.
     */
    method ParsePositionalArguments(args: seq<string>, first: nat) returns (ok: bool)
      requires first <= |args|
      modifies this
      ensures var r := Assignments(old(State()), args, first, NextPositional(old(options), 0));
        State() == r.0 && (ok <==> PositionalOk(r.1))
    {
      ghost var start := State();
      var it: nat := NextPositional(options, 0);
      ghost var whole := Assignments(start, args, first, it);
      ghost var cur := start;
      var i := first;
      ok := true;
      while i < |args| && it < |options|
        invariant first <= i <= |args| && it <= |cur.options| && |cur.options| == |start.options|
        invariant cur == State()
        invariant PositionalProgress(cur, args, i, it, ok, whole)
        decreases |args| - i
      {
        ghost var before := (cur, i, it, ok);
        var b;
        b, it := TakePositional(it, args[i]);
        ok := ok && b;
        i := i + 1;
        cur := State();
        PositionalProgressStep(before.0, args, before.1, before.2, before.3, cur, b, i, it, ok, whole);
      }
      PositionalProgressDone(cur, args, i, it, ok, whole);
    }

    /** `parse_command_line_options`, with positional failures kept. */
    method ParseCommandLine(argv: seq<string>) returns (ok: bool)
      requires |argv| >= 1
      modifies this
      ensures (State(), ok) == CommandLineRun(old(State()), argv)
    {
      var first;
      first, ok := ParseOptionArguments(argv[1..]);
      if !ok {
        return;
      }
      ok := ParsePositionalArguments(argv[1..], first);
      if !ok {
        return;
      }
      ok := CheckForMissing();
    }

    /** `check_for_missing`: every option that must appear has appeared. */
    method CheckForMissing() returns (ok: bool)
      modifies this
      ensures options == old(options)
      ensures reports == old(reports) + MissingNamed(options) + PositionalReport(MissingPositional(options))
      ensures ok <==> AllPresent(options)
    {
      ok := true;
      var positionalMissing := 0;
      for i := 0 to |options|
        invariant options == old(options)
        invariant reports == old(reports) + MissingNamed(options[..i])
        invariant positionalMissing == MissingPositional(options[..i])
        invariant ok <==> forall k :: 0 <= k < i && NeedsOne(options[k]) ==> options[k].occurrences > 0
      {
        var o := options[i];
        assert options[..i + 1][..i] == options[..i];
        if NeedsOne(o) && o.occurrences == 0 {
          if o.positional {
            positionalMissing := positionalMissing + 1;
          } else {
            reports := reports + [MustBeSpecified(o.name)];
          }
          ok := false;
        }
      }
      assert options[..|options|] == options;
      reports := reports + PositionalReport(positionalMissing);
    }
  }
}

/**
 * Interpretation of the request headers the HTTP server needs to accept a
 * WebSocket opening handshake (section 4.2.1 of RFC 6455): `Connection`,
 * `Upgrade`, `Sec-WebSocket-Key` and `Sec-WebSocket-Version`. Each header
 * the server reads is handed with its value to `header_info::handler`,
 * which returns the updated record.
 */
module HttpHeaders {
  import opened DecimalDigits
  import opened MaybeValues

  /** `header_info`: what the headers read so far say about the request. */
  datatype HeaderInfo = HeaderInfo(
    upgradeToWebsocket: bool,
    connectionUpgrade: bool,
    websocketKey: Maybe<string>,
    websocketVersion: Maybe<nat>)

  /** A default-constructed `header_info`. */
  const NoHeaders := HeaderInfo(false, false, Nothing, Nothing)

  /** `header_info::operator==`: two records are equal exactly when all four fields are. */
  function Equal(a: HeaderInfo, b: HeaderInfo): (r: bool)
    ensures r <==> a == b
  {
    a.upgradeToWebsocket == b.upgradeToWebsocket && a.connectionUpgrade == b.connectionUpgrade
    && a.websocketKey == b.websocketKey && a.websocketVersion == b.websocketVersion
  }

  // Case-insensitive comparison

  /** `std::tolower` in the "C" locale: only the letters A to Z change. */
  function Lower(c: char): char
  {
    if 'A' <= c <= 'Z' then (c as int - 'A' as int + 'a' as int) as char else c
  }

  /** The text with every character passed through `tolower`. */
  function LowerCase(s: string): (r: string)
    ensures |r| == |s|
    ensures forall i :: 0 <= i < |s| ==> r[i] == Lower(s[i])
  {
    if s == [] then [] else [Lower(s[0])] + LowerCase(s[1..])
  }

  /**
   * `case_insensitive_equal`: texts of different lengths differ; otherwise
   * they are compared position by position after `tolower`.
   */
  function CaseInsensitiveEqual(a: string, b: string): (r: bool)
    ensures r <==> |a| == |b| && forall i :: 0 <= i < |a| ==> Lower(a[i]) == Lower(b[i])
  {
    if |a| != |b| then false
    else if a == [] then true
    else
      Lower(a[0]) == Lower(b[0]) && CaseInsensitiveEqual(a[1..], b[1..])
  }

  /** Two texts are equal ignoring case exactly when their lower-case forms are equal. */
  lemma CaseInsensitiveIsLowerCase(a: string, b: string)
    ensures CaseInsensitiveEqual(a, b) <==> LowerCase(a) == LowerCase(b)
  {
    if LowerCase(a) == LowerCase(b) {
      assert |a| == |LowerCase(a)|;
      forall i | 0 <= i < |a|
        ensures Lower(a[i]) == Lower(b[i])
      {
        assert LowerCase(a)[i] == LowerCase(b)[i];
      }
    }
  }

  /** A text without capital letters is its own lower-case form. */
  lemma NoCapitalsLowerCase(s: string)
    requires forall i :: 0 <= i < |s| ==> !('A' <= s[i] <= 'Z')
    ensures LowerCase(s) == s
  {
  }

  lemma CaseInsensitiveSymmetric(a: string, b: string)
    ensures CaseInsensitiveEqual(a, b) == CaseInsensitiveEqual(b, a)
  {
  }

  // Splitting at a separator

  /** `std::find(first, last, sep)`: the index of the first `sep` at or after `first`, or `|s|` when there is none. */
  function FindFrom(s: string, sep: char, first: nat): (r: nat)
    requires first <= |s|
    ensures first <= r <= |s|
    ensures r < |s| ==> s[r] == sep
    decreases |s| - first
  {
    if first == |s| || s[first] == sep then first else FindFrom(s, sep, first + 1)
  }

  /** `std::find` stops at the first separator: none comes between `first` and the index it returns. */
  lemma {:induction false} FindFromFirst(s: string, sep: char, first: nat)
    requires first <= |s|
    ensures forall j :: first <= j < FindFrom(s, sep, first) ==> s[j] != sep
    decreases |s| - first
  {
    if first < |s| && s[first] != sep {
      FindFromFirst(s, sep, first + 1);
    }
  }

  /** The pieces `split` produces from `first` on: the text up to the next `sep`, then the pieces after it. */
  function PiecesFrom(s: string, sep: char, first: nat): (r: seq<string>)
    requires first <= |s|
    ensures |r| >= 1
    decreases |s| - first
  {
    var next := FindFrom(s, sep, first);
    if next == |s| then [s[first..next]] else [s[first..next]] + PiecesFrom(s, sep, next + 1)
  }

  /** The pieces `split` produces: the text before the first `sep`, between each two, and after the last. */
  function SplitPieces(s: string, sep: char): (r: seq<string>)
    ensures |r| >= 1
  {
    PiecesFrom(s, sep, 0)
  }

  /** The pieces put back together with `sep` between each two. */
  function Join(pieces: seq<string>, sep: char): string
  {
    if pieces == [] then []
    else if |pieces| == 1 then pieces[0]
    else pieces[0] + [sep] + Join(pieces[1..], sep)
  }

  predicate SeparatorFree(pieces: seq<string>, sep: char)
  {
    forall k :: 0 <= k < |pieces| ==> sep !in pieces[k]
  }

  /** The text before the next separator holds none. */
  lemma NoSeparatorBefore(s: string, sep: char, first: nat)
    requires first <= |s|
    ensures sep !in s[first..FindFrom(s, sep, first)]
  {
    FindFromFirst(s, sep, first);
  }

  /** A piece followed by a separator or by the end of the text is found as the next piece. */
  lemma FindPastPiece(s: string, sep: char, first: nat, p: string)
    requires first + |p| <= |s| && s[first..first + |p|] == p && sep !in p
    requires first + |p| == |s| || s[first + |p|] == sep
    ensures FindFrom(s, sep, first) == first + |p|
  {
    FindFromFirst(s, sep, first);
  }

  lemma JoinCons(a: string, rest: seq<string>, sep: char)
    requires |rest| >= 1
    ensures Join([a] + rest, sep) == a + [sep] + Join(rest, sep)
  {
    assert ([a] + rest)[1..] == rest;
  }

  lemma SliceAround(s: string, first: nat, next: nat)
    requires first <= next < |s|
    ensures s[first..] == s[first..next] + [s[next]] + s[next + 1..]
  {
  }

  /** A piece, the separator after it and the joined pieces after that make the text from the piece's start. */
  lemma JoinStep(s: string, sep: char, first: nat, next: nat, rest: seq<string>)
    requires first <= next < |s| && s[next] == sep && |rest| >= 1 && Join(rest, sep) == s[next + 1..]
    ensures Join([s[first..next]] + rest, sep) == s[first..]
  {
    JoinCons(s[first..next], rest, sep);
    SliceAround(s, first, next);
  }

  lemma {:induction false} JoinPiecesFrom(s: string, sep: char, first: nat)
    requires first <= |s|
    ensures Join(PiecesFrom(s, sep, first), sep) == s[first..]
    decreases |s| - first
  {
    var next := FindFrom(s, sep, first);
    if next < |s| {
      assert PiecesFrom(s, sep, first) == [s[first..next]] + PiecesFrom(s, sep, next + 1);
      JoinPiecesFrom(s, sep, next + 1);
      JoinStep(s, sep, first, next, PiecesFrom(s, sep, next + 1));
    } else {
      assert PiecesFrom(s, sep, first) == [s[first..next]];
      assert s[first..next] == s[first..];
    }
  }

  /** Joining the pieces with the separator gives back the text that was split. */
  lemma SplitJoin(s: string, sep: char)
    ensures Join(SplitPieces(s, sep), sep) == s
  {
    JoinPiecesFrom(s, sep, 0);
    assert s[0..] == s;
  }

  lemma {:induction false} PiecesFromSeparatorFree(s: string, sep: char, first: nat)
    requires first <= |s|
    ensures SeparatorFree(PiecesFrom(s, sep, first), sep)
    decreases |s| - first
  {
    var next := FindFrom(s, sep, first);
    var r := PiecesFrom(s, sep, first);
    NoSeparatorBefore(s, sep, first);
    if next < |s| {
      PiecesFromSeparatorFree(s, sep, next + 1);
      forall k | 0 <= k < |r|
        ensures sep !in r[k]
      {
        if k > 0 {
          assert r[k] == PiecesFrom(s, sep, next + 1)[k - 1];
        }
      }
    }
  }

  /** No piece contains the separator. */
  lemma SplitSeparatorFree(s: string, sep: char)
    ensures SeparatorFree(SplitPieces(s, sep), sep)
  {
    PiecesFromSeparatorFree(s, sep, 0);
  }

  /** Past a separator-free piece and the separator after it, one separator fewer remains. */
  lemma CountStep(s: string, sep: char, first: nat, next: nat)
    requires first <= next < |s| && s[next] == sep && sep !in s[first..next]
    ensures multiset(s[first..])[sep] == multiset(s[next + 1..])[sep] + 1
  {
    SliceAround(s, first, next);
    assert multiset(s[first..]) == multiset(s[first..next]) + multiset([s[next]]) + multiset(s[next + 1..]);
  }

  lemma {:induction false} PiecesFromCount(s: string, sep: char, first: nat)
    requires first <= |s|
    ensures |PiecesFrom(s, sep, first)| == multiset(s[first..])[sep] + 1
    decreases |s| - first
  {
    var next := FindFrom(s, sep, first);
    NoSeparatorBefore(s, sep, first);
    if next < |s| {
      PiecesFromCount(s, sep, next + 1);
      CountStep(s, sep, first, next);
    } else {
      assert s[first..] == s[first..next];
    }
  }

  /** There is one more piece than there are separators. */
  lemma SplitCount(s: string, sep: char)
    ensures |SplitPieces(s, sep)| == multiset(s)[sep] + 1
  {
    PiecesFromCount(s, sep, 0);
    assert s[0..] == s;
  }

  lemma SeparatorFreeTail(pieces: seq<string>, sep: char)
    requires |pieces| >= 1 && SeparatorFree(pieces, sep)
    ensures sep !in pieces[0] && SeparatorFree(pieces[1..], sep)
  {
    forall k | 0 <= k < |pieces| - 1
      ensures sep !in pieces[1..][k]
    {
      assert pieces[1..][k] == pieces[k + 1];
    }
  }

  /** Where the text from `first` is a piece, a separator and the rest, each part sits at its own place in `s`. */
  lemma PieceThenRest(s: string, sep: char, first: nat, p: string, rest: string)
    requires first <= |s| && s[first..] == p + [sep] + rest
    ensures first + |p| < |s| && s[first..first + |p|] == p && s[first + |p|] == sep
    ensures s[first + |p| + 1..] == rest
  {
    var t := s[first..];
    assert t[..|p|] == p && t[|p|] == sep && t[|p| + 1..] == rest;
  }

  lemma {:induction false} PiecesFromUnique(pieces: seq<string>, s: string, sep: char, first: nat)
    requires first <= |s| && |pieces| >= 1 && SeparatorFree(pieces, sep)
    requires Join(pieces, sep) == s[first..]
    ensures PiecesFrom(s, sep, first) == pieces
    decreases |pieces|
  {
    var p := pieces[0];
    SeparatorFreeTail(pieces, sep);
    if |pieces| == 1 {
      assert s[first..first + |p|] == p;
      FindPastPiece(s, sep, first, p);
      assert pieces == [p];
    } else {
      var rest := pieces[1..];
      assert pieces == [p] + rest;
      JoinCons(p, rest, sep);
      PieceThenRest(s, sep, first, p, Join(rest, sep));
      FindPastPiece(s, sep, first, p);
      PiecesFromUnique(rest, s, sep, first + |p| + 1);
    }
  }

  /**
   * The split is the only way to cut the text into separator-free pieces:
   * any pieces that join back to `s` are the ones `split` produces.
   */
  lemma SplitUnique(pieces: seq<string>, s: string, sep: char)
    requires |pieces| >= 1 && SeparatorFree(pieces, sep) && Join(pieces, sep) == s
    ensures SplitPieces(s, sep) == pieces
  {
    assert s[0..] == s;
    PiecesFromUnique(pieces, s, sep, 0);
  }

  lemma {:induction false} JoinAppend(p: seq<string>, q: seq<string>, sep: char)
    requires |p| >= 1 && |q| >= 1
    ensures Join(p + q, sep) == Join(p, sep) + [sep] + Join(q, sep)
    decreases |p|
  {
    if |p| == 1 {
      assert (p + q)[1..] == q;
    } else {
      assert (p + q)[1..] == p[1..] + q;
      JoinAppend(p[1..], q, sep);
    }
  }

  /** Splitting `a sep b` gives the pieces of `a` followed by those of `b`. */
  lemma SplitConcat(a: string, b: string, sep: char)
    ensures SplitPieces(a + [sep] + b, sep) == SplitPieces(a, sep) + SplitPieces(b, sep)
  {
    var p, q := SplitPieces(a, sep), SplitPieces(b, sep);
    SplitJoin(a, sep);
    SplitJoin(b, sep);
    SplitSeparatorFree(a, sep);
    SplitSeparatorFree(b, sep);
    JoinAppend(p, q, sep);
    assert SeparatorFree(p + q, sep) by {
      forall k | 0 <= k < |p + q|
        ensures sep !in (p + q)[k]
      {
        if k >= |p| {
          assert (p + q)[k] == q[k - |p|];
        }
      }
    }
    SplitUnique(p + q, a + [sep] + b, sep);
  }

  lemma AppendAssoc<T>(a: seq<T>, b: seq<T>, c: seq<T>)
    ensures (a + b) + c == a + (b + c)
  {
  }

  /**
   * `split`: the pieces of `s` between separators, scanned left to right
   * and appended one by one to the output.
   */
  method Split(s: string, sep: char) returns (out: seq<string>)
    ensures out == SplitPieces(s, sep)
  {
    out := [];
    var first := 0;
    while true
      invariant first <= |s|
      invariant out + PiecesFrom(s, sep, first) == SplitPieces(s, sep)
      decreases |s| - first
    {
      var next := FindFrom(s, sep, first);
      var piece := s[first..next];
      if next == |s| {
        out := out + [piece];
        break;
      }
      AppendAssoc(out, [piece], PiecesFrom(s, sep, next + 1));
      out := out + [piece];
      first := next + 1;
    }
  }

  // Trimming white space

  /** `pstore::isspace`: space, tab, line feed, vertical tab, form feed and carriage return. */
  predicate IsSpace(c: char)
  {
    c == ' ' || 9 <= c as int <= 13
  }

  /** Where `find_if_not` over the reversed text stops: one past the last non-space, or 0. */
  function TrimmedEnd(s: string): (e: nat)
    ensures e <= |s|
    ensures forall j :: e <= j < |s| ==> IsSpace(s[j])
    ensures e > 0 ==> !IsSpace(s[e - 1])
  {
    if s == [] || !IsSpace(s[|s| - 1]) then |s| else TrimmedEnd(s[..|s| - 1])
  }

  /** Where `find_if_not` from `i` stops before `e`: the first non-space, or `e`. */
  function TrimmedStart(s: string, i: nat, e: nat): (b: nat)
    requires i <= e <= |s|
    ensures i <= b <= e
    ensures forall j :: i <= j < b ==> IsSpace(s[j])
    ensures b < e ==> !IsSpace(s[b])
    decreases e - i
  {
    if i == e || !IsSpace(s[i]) then i else TrimmedStart(s, i + 1, e)
  }

  /**
   * The bounds `connection` compares between: the text without its
   * leading and trailing white space is `s[b..e]`.
   */
  function Trimmed(s: string): (r: (nat, nat))
    ensures r.0 <= r.1 <= |s|
    ensures forall j :: 0 <= j < r.0 ==> IsSpace(s[j])
    ensures forall j :: r.1 <= j < |s| ==> IsSpace(s[j])
    ensures r.0 < r.1 ==> !IsSpace(s[r.0]) && !IsSpace(s[r.1 - 1])
  {
    var e := TrimmedEnd(s);
    (TrimmedStart(s, 0, e), e)
  }

  predicate AllSpace(s: string)
  {
    forall j :: 0 <= j < |s| ==> IsSpace(s[j])
  }

  /** A text of white space only trims to nothing. */
  lemma TrimBlank(s: string)
    requires AllSpace(s)
    ensures Trimmed(s).0 == Trimmed(s).1
  {
  }

  lemma TrimWord(a: string, w: string, z: string)
    requires AllSpace(a) && AllSpace(z)
    requires w != [] && !IsSpace(w[0]) && !IsSpace(w[|w| - 1])
    ensures var s := a + w + z; Trimmed(s) == (|a|, |a| + |w|)
  {
    var s := a + w + z;
    assert forall j :: 0 <= j < |a| ==> s[j] == a[j];
    assert forall j :: |a| + |w| <= j < |s| ==> s[j] == z[j - |a| - |w|];
    assert s[|a|] == w[0] && s[|a| + |w| - 1] == w[|w| - 1];
  }

  /** Trimming white space around a word that neither starts nor ends with white space gives the word. */
  lemma TrimPadding(a: string, w: string, z: string)
    requires AllSpace(a) && AllSpace(z)
    requires w != [] ==> !IsSpace(w[0]) && !IsSpace(w[|w| - 1])
    ensures var s := a + w + z; var r := Trimmed(s); s[r.0..r.1] == w
  {
    var s := a + w + z;
    if w == [] {
      assert AllSpace(s) by {
        assert forall j :: 0 <= j < |a| ==> s[j] == a[j];
        assert forall j :: |a| <= j < |s| ==> s[j] == z[j - |a|];
      }
      TrimBlank(s);
    } else {
      TrimWord(a, w, z);
      assert s[|a|..|a| + |w|] == w;
    }
  }

  // The four handlers

  /** `upgrade`: the request asks for a WebSocket when the value is "websocket" in any case. */
  function Upgrade(hi: HeaderInfo, value: string): (r: HeaderInfo)
    ensures r == hi.(upgradeToWebsocket := hi.upgradeToWebsocket || LowerCase(value) == "websocket")
  {
    CaseInsensitiveIsLowerCase("websocket", value);
    NoCapitalsLowerCase("websocket");
    if CaseInsensitiveEqual("websocket", value) then hi.(upgradeToWebsocket := true) else hi
  }

  /** A token of a `Connection` value that names the upgrade option, in any case and with any white space around it. */
  predicate IsUpgradeToken(p: string)
  {
    var r := Trimmed(p);
    LowerCase(p[r.0..r.1]) == "upgrade"
  }

  /** Some piece satisfies `f`. */
  predicate Any(pieces: seq<string>, f: string -> bool)
  {
    exists k :: 0 <= k < |pieces| && f(pieces[k])
  }

  lemma AnyAppend(p: seq<string>, q: seq<string>, f: string -> bool)
    ensures Any(p + q, f) <==> Any(p, f) || Any(q, f)
  {
    if Any(p + q, f) {
      var k :| 0 <= k < |p + q| && f((p + q)[k]);
      if k >= |p| {
        assert (p + q)[k] == q[k - |p|];
      }
    }
    if Any(p, f) {
      var k :| 0 <= k < |p| && f(p[k]);
      assert (p + q)[k] == p[k];
    }
    if Any(q, f) {
      var k :| 0 <= k < |q| && f(q[k]);
      assert (p + q)[|p| + k] == q[k];
    }
  }

  lemma AnySingle(x: string, f: string -> bool)
    ensures Any([x], f) <==> f(x)
  {
    assert [x][0] == x;
  }

  lemma AnyPrefix(xs: seq<string>, i: nat, f: string -> bool)
    requires i < |xs|
    ensures Any(xs[..i + 1], f) <==> Any(xs[..i], f) || f(xs[i])
  {
    assert xs[..i + 1] == xs[..i] + [xs[i]];
    AnyAppend(xs[..i], [xs[i]], f);
    AnySingle(xs[i], f);
  }

  /** The comparison `connection` makes is the test for an upgrade token. */
  lemma UpgradeTokenTest(p: string)
    ensures var r := Trimmed(p); IsUpgradeToken(p) <==> CaseInsensitiveEqual("upgrade", p[r.0..r.1])
  {
    var r := Trimmed(p);
    CaseInsensitiveIsLowerCase("upgrade", p[r.0..r.1]);
    NoCapitalsLowerCase("upgrade");
  }

  /** Some comma-separated token of a `Connection` value is "upgrade". */
  predicate AsksForUpgrade(value: string)
  {
    Any(SplitPieces(value, ','), IsUpgradeToken)
  }

  /**
   * `connection`: sets `connection_upgrade` when some comma-separated
   * token is "upgrade"; it never clears the flag.
   */
  method Connection(hi: HeaderInfo, value: string) returns (r: HeaderInfo)
    ensures r == hi.(connectionUpgrade := hi.connectionUpgrade || AsksForUpgrade(value))
  {
    var strings := Split(value, ',');
    r := hi;
    for i := 0 to |strings|
      invariant r == hi.(connectionUpgrade := hi.connectionUpgrade || Any(strings[..i], IsUpgradeToken))
    {
      var bounds := Trimmed(strings[i]);
      UpgradeTokenTest(strings[i]);
      AnyPrefix(strings, i, IsUpgradeToken);
      if CaseInsensitiveEqual("upgrade", strings[i][bounds.0..bounds.1]) {
        r := r.(connectionUpgrade := true);
      }
    }
    assert strings[..|strings|] == strings;
  }

  /**
   * A value without commas is one token: it asks for the upgrade exactly
   * when, with the white space around it removed, it is "upgrade" in any case.
   */
  lemma SingleToken(a: string, w: string, z: string)
    requires ',' !in a + w + z
    requires AllSpace(a) && AllSpace(z)
    requires w != [] ==> !IsSpace(w[0]) && !IsSpace(w[|w| - 1])
    ensures AsksForUpgrade(a + w + z) <==> LowerCase(w) == "upgrade"
  {
    var s := a + w + z;
    assert SeparatorFree([s], ',');
    SplitUnique([s], s, ',');
    AnySingle(s, IsUpgradeToken);
    TrimPadding(a, w, z);
    var r := Trimmed(s);
    assert s[r.0..r.1] == w;
  }

  /** Tokens are looked at independently: `a,b` asks for the upgrade when `a` or `b` does. */
  lemma ConnectionTokens(a: string, b: string)
    ensures AsksForUpgrade(a + "," + b) <==> AsksForUpgrade(a) || AsksForUpgrade(b)
  {
    SplitConcat(a, b, ',');
    assert a + "," + b == a + [','] + b;
    AnyAppend(SplitPieces(a, ','), SplitPieces(b, ','), IsUpgradeToken);
  }

  /** `sec_websocket_key`: the key is kept exactly as sent. */
  function SecWebsocketKey(hi: HeaderInfo, value: string): (r: HeaderInfo)
    ensures r.websocketKey == Just(value)
    ensures r.(websocketKey := hi.websocketKey) == hi
  {
    hi.(websocketKey := Just(value))
  }

  const UIntMax: nat := 0xFFFF_FFFF

  /** `str_to_num` refuses another digit once the value so far exceeds this. */
  const VersionGuard: nat := UIntMax / 10 - 10

  /** The largest version `str_to_num` accepts: the guard followed by a 9. */
  const VersionMax: nat := VersionGuard * 10 + 9

  /**
   * The version number a `Sec-WebSocket-Version` value stands for: the
   * empty text and any all-digit text up to `VersionMax` (which leading
   * zeros do not affect) is read in base 10; anything else is nothing.
   */
  function VersionValue(v: string): (r: Maybe<nat>)
    ensures r.Just? ==> r.value <= VersionMax < UIntMax
  {
    if AllDigits(v) && DigitsValue(v) <= VersionMax then Just(DigitsValue(v)) else Nothing
  }

  /**
   * `str_to_num`: reads digits while the value so far is within the
   * guard; the text must be used up. The `unsigned` accumulator never
   * exceeds `VersionMax`, so it never wraps.
   */
  method StrToNum(v: string) returns (r: Maybe<nat>)
    ensures r == VersionValue(v)
  {
    var pos := 0;
    var num := 0;
    while pos < |v| && IsDigit(v[pos])
      invariant 0 <= pos <= |v|
      invariant forall j :: 0 <= j < pos ==> IsDigit(v[j])
      invariant num == DigitsValue(v[..pos])
      invariant pos > 0 ==> DigitsValue(v[..pos - 1]) <= VersionGuard
      invariant num <= VersionMax
    {
      if num > VersionGuard {
        break;
      }
      assert v[..pos + 1] == v[..pos] + [v[pos]];
      DigitsValueSnoc(v[..pos], v[pos]);
      num := num * 10 + DigitValue(v[pos]);
      pos := pos + 1;
      assert v[..pos - 1] == v[..pos][..pos - 1];
    }
    if pos == |v| {
      assert v[..pos] == v;
      r := Just(num);
    } else {
      if AllDigits(v) {
        assert IsDigit(v[pos]) && num > VersionGuard;
        assert v[..pos + 1] == v[..pos] + [v[pos]];
        DigitsValueSnoc(v[..pos], v[pos]);
        DigitsValuePrefix(v, pos + 1);
      }
      r := Nothing;
    }
  }

  /** `sec_websocket_version`: the version the value stands for, or nothing. */
  method SecWebsocketVersion(hi: HeaderInfo, value: string) returns (r: HeaderInfo)
    ensures r == hi.(websocketVersion := VersionValue(value))
  {
    var n := StrToNum(value);
    r := hi.(websocketVersion := n);
  }

  /** Every number up to `VersionMax`, written in base 10, reads back as itself. */
  lemma VersionRoundTrip(n: nat)
    requires n <= VersionMax
    ensures VersionValue(Digits(n)) == Just(n)
  {
    DigitsShape(n);
    DigitsRoundTrip(n);
  }

  /** An all-digit value is accepted exactly up to `VersionMax`; leading zeros change nothing. */
  lemma VersionLeadingZeros(s: string)
    requires AllDigits(s)
    ensures VersionValue("0" + s) == VersionValue(s)
  {
    LeadingZeroIsNeutral(s);
  }

  /** The keys `handler` acts on; any other key, in any other case, leaves the record alone. */
  const HandledKeys: set<string> := {"connection", "upgrade", "sec-websocket-key", "sec-websocket-version"}

  /** `header_info::handler`: the update for one header, chosen by its exact lower-case name. */
  method Handler(hi: HeaderInfo, key: string, value: string) returns (r: HeaderInfo)
    ensures key == "connection" ==> r == hi.(connectionUpgrade := hi.connectionUpgrade || AsksForUpgrade(value))
    ensures key == "upgrade" ==> r == hi.(upgradeToWebsocket := hi.upgradeToWebsocket || LowerCase(value) == "websocket")
    ensures key == "sec-websocket-key" ==> r == hi.(websocketKey := Just(value))
    ensures key == "sec-websocket-version" ==> r == hi.(websocketVersion := VersionValue(value))
    ensures key !in HandledKeys ==> r == hi
  {
    if key == "connection" {
      r := Connection(hi, value);
    } else if key == "upgrade" {
      r := Upgrade(hi, value);
    } else if key == "sec-websocket-key" {
      r := SecWebsocketKey(hi, value);
    } else if key == "sec-websocket-version" {
      r := SecWebsocketVersion(hi, value);
    } else {
      r := hi;
    }
  }
}

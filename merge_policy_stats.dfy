/**
 * The log-analysis script that reads the benchmark's output line by line,
 * counts the merge-policy invocations it finds and builds a histogram keyed
 * by the segment count each invocation logged.
 */
module MergePolicyStats {
  import opened Wrappers

  /**
   * A decoded JSON value. Numbers are integers only; a JSON object with
   * repeated keys is already reduced to one value per key by the decoder.
   */
  datatype Json =
    | JNull
    | JBool(b: bool)
    | JNumber(n: int)
    | JString(s: string)
    | JArray(items: seq<Json>)
    | JObject(fields: map<string, Json>)

  /**
   * One line of the log file: its text, and what `json.loads` makes of it
   * (`None` when decoding raises).
   */
  datatype Line = Line(text: string, decoded: Option<Json>)

  /**
   * A key of the `lengths` dict. Python's dict identifies `True` with `1` and
   * `False` with `0`, so a boolean count lands on the integer key.
   */
  datatype Key = IntKey(n: int) | StrKey(s: string)

  /** The `stats` dict: `calls` and the `lengths` histogram. */
  datatype Stats = Stats(calls: nat, lengths: map<Key, nat>)

  /** What the loop body does with one line. */
  datatype Outcome =
    | Skipped          // `continue`: 'run' is present but not a string
    | Counted(key: Key) // both updates happen, under this key
    | Rejected         // an exception was raised and a message is printed

  const Initial := Stats(0, map[])

  // ---------------------------------------------------------------------------
  // Python's `str.strip()` and `int()`
  // ---------------------------------------------------------------------------

  /** The characters `str.isspace()` accepts. */
  predicate IsSpace(c: char)
  {
    c == '\t' || c == '\n' || c == '\U{000B}' || c == '\U{000C}' || c == '\r'
    || ('\U{001C}' <= c <= '\U{001F}') || c == ' ' || c == '\U{0085}' || c == '\U{00A0}'
    || c == '\U{1680}' || ('\U{2000}' <= c <= '\U{200A}') || c == '\U{2028}' || c == '\U{2029}'
    || c == '\U{202F}' || c == '\U{205F}' || c == '\U{3000}'
  }

  /**
   * Which whitespace a strip removes. `str.strip()` removes every `isspace()`
   * character. `int()` of a string first turns each non-ASCII whitespace
   * character into a space and then skips only space, tab, newline, vertical
   * tab, form feed and carriage return, so the four ASCII separators
   * U+001C..U+001F, which `isspace()` accepts, make it raise.
   */
  datatype Blanks = StrBlanks | IntBlanks

  predicate IsBlank(b: Blanks, c: char)
  {
    IsSpace(c) && (b == IntBlanks ==> !('\U{001C}' <= c <= '\U{001F}'))
  }

  function StripLeft(b: Blanks, s: string): (r: string)
    ensures |r| <= |s| && r == s[|s| - |r|..]
    ensures forall i :: 0 <= i < |s| - |r| ==> IsBlank(b, s[i])
    ensures r == [] || !IsBlank(b, r[0])
  {
    if s != [] && IsBlank(b, s[0]) then StripLeft(b, s[1..]) else s
  }

  function StripRight(b: Blanks, s: string): (r: string)
    ensures |r| <= |s| && r == s[..|r|]
    ensures forall i :: |r| <= i < |s| ==> IsBlank(b, s[i])
    ensures r == [] || !IsBlank(b, r[|r| - 1])
  {
    if s != [] && IsBlank(b, s[|s| - 1]) then StripRight(b, s[..|s| - 1]) else s
  }

  /** Drops the whitespace at both ends; `Strip(StrBlanks, s)` is `s.strip()`. */
  function Strip(b: Blanks, s: string): (r: string)
    ensures |r| <= |s|
    ensures r == [] || (!IsBlank(b, r[0]) && !IsBlank(b, r[|r| - 1]))
    ensures s == [] || (!IsBlank(b, s[0]) && !IsBlank(b, s[|s| - 1])) ==> r == s
  {
    StripRight(b, StripLeft(b, s))
  }

  /**
   * What `Strip` keeps: a slice of `s`, with only whitespace before and after
   * it, so the middle of the line survives unchanged.
   */
  lemma StripKeepsMiddle(b: Blanks, s: string) returns (i: nat, j: nat)
    ensures i <= j <= |s| && Strip(b, s) == s[i..j]
    ensures forall k :: 0 <= k < i ==> IsBlank(b, s[k])
    ensures forall k :: j <= k < |s| ==> IsBlank(b, s[k])
  {
    var l := StripLeft(b, s);
    var r := StripRight(b, l);
    i, j := |s| - |l|, |s| - |l| + |r|;
    MiddleOf(b, s, l, r);
  }

  /**
   * A suffix `l` of `s` after whitespace, and a prefix `r` of `l` before
   * whitespace: `r` is a slice of `s` with whitespace on both sides.
   */
  lemma MiddleOf(b: Blanks, s: string, l: string, r: string)
    requires |l| <= |s| && l == s[|s| - |l|..]
    requires forall k :: 0 <= k < |s| - |l| ==> IsBlank(b, s[k])
    requires |r| <= |l| && r == l[..|r|]
    requires forall k :: |r| <= k < |l| ==> IsBlank(b, l[k])
    ensures |s| - |l| + |r| <= |s| && r == s[|s| - |l|..|s| - |l| + |r|]
    ensures forall k :: |s| - |l| + |r| <= k < |s| ==> IsBlank(b, s[k])
  {
    var i := |s| - |l|;
    forall k | i + |r| <= k < |s|
      ensures IsBlank(b, s[k])
    {
      assert s[k] == l[k - i];
    }
  }

  /** Text before the first non-whitespace character is exactly what `StripLeft` drops. */
  lemma {:induction false} StripLeftPrefix(b: Blanks, w: string, t: string)
    requires forall k :: 0 <= k < |w| ==> IsBlank(b, w[k])
    requires t == [] || !IsBlank(b, t[0])
    ensures StripLeft(b, w + t) == t
    decreases |w|
  {
    if w == [] {
      assert w + t == t;
    } else {
      assert (w + t)[1..] == w[1..] + t;
      StripLeftPrefix(b, w[1..], t);
    }
  }

  /** Text after the last non-whitespace character is exactly what `StripRight` drops. */
  lemma {:induction false} StripRightSuffix(b: Blanks, t: string, w: string)
    requires forall k :: 0 <= k < |w| ==> IsBlank(b, w[k])
    requires t == [] || !IsBlank(b, t[|t| - 1])
    ensures StripRight(b, t + w) == t
    decreases |w|
  {
    if w == [] {
      assert t + w == t;
    } else {
      assert (t + w)[..|t + w| - 1] == t + w[..|w| - 1];
      StripRightSuffix(b, t, w[..|w| - 1]);
    }
  }

  predicate IsDigit(c: char)
  {
    '0' <= c <= '9'
  }

  /**
   * The digit part `int()` accepts in base 10: ASCII digits, where an
   * underscore may stand only between two digits.
   */
  predicate WellFormedDigits(d: string)
  {
    && |d| > 0
    && IsDigit(d[0]) && IsDigit(d[|d| - 1])
    && (forall i :: 0 <= i < |d| ==> IsDigit(d[i]) || d[i] == '_')
    && (forall i :: 0 < i < |d| && d[i] == '_' ==> d[i - 1] != '_')
  }

  /** The value of a digit string, skipping underscores. */
  function DigitsValue(d: string): nat
  {
    if d == [] then 0
    else
      var c := d[|d| - 1];
      if IsDigit(c) then DigitsValue(d[..|d| - 1]) * 10 + (c as int - '0' as int)
      else DigitsValue(d[..|d| - 1])
  }

  /** `int(s)` for a string: whitespace, an optional sign, then digits; `None` when it raises. */
  function ParseInt(s: string): (r: Option<int>)
    ensures Strip(IntBlanks, s) == [] ==> r.None?
    ensures r.Some? ==> IsDigit(Strip(IntBlanks, s)[|Strip(IntBlanks, s)| - 1])
    ensures r.Some? && r.value < 0 ==> Strip(IntBlanks, s)[0] == '-'
  {
    var t := Strip(IntBlanks, s);
    if t != [] && (t[0] == '+' || t[0] == '-') then
      if WellFormedDigits(t[1..]) then
        assert t[1..][|t| - 2] == t[|t| - 1];
        var v: int := DigitsValue(t[1..]);
        Some(if t[0] == '-' then -v else v)
      else None
    else if WellFormedDigits(t) then
      Some(DigitsValue(t))
    else None
  }

  /** `int(v)` for a decoded JSON value: booleans are 0 and 1, `None`, lists and dicts raise. */
  function IntArg(v: Json): (r: Option<int>)
    ensures r.Some? ==> v.JBool? || v.JNumber? || v.JString?
    ensures v.JBool? ==> r == Some(if v.b then 1 else 0)
    ensures v.JNumber? ==> r == Some(v.n)
  {
    match v
    case JBool(b) => Some(if b then 1 else 0)
    case JNumber(n) => Some(n)
    case JString(s) => ParseInt(s)
    case _ => None
  }

  /** The dict key a `count` value is stored under. */
  function HistogramKey(v: Json): (k: Key)
    requires v.JBool? || v.JNumber? || v.JString?
    ensures v.JString? ==> k == StrKey(v.s)
    ensures !v.JString? ==> k == IntKey(IntArg(v).value)
  {
    match v
    case JBool(b) => IntKey(if b then 1 else 0)
    case JNumber(n) => IntKey(n)
    case JString(s) => StrKey(s)
  }

  // ---------------------------------------------------------------------------
  // One line, and the whole file
  // ---------------------------------------------------------------------------

  /**
   * The fate of one decoded line: indexing a non-object or a missing key
   * raises, a non-string 'run' is skipped, and a record with a string 'run'
   * is counted exactly when it has a 'count' that `int()` accepts; every
   * other record raises.
   */
  function LineOutcome(decoded: Option<Json>): (r: Outcome)
    ensures r.Counted? <==>
      decoded.Some? && decoded.value.JObject?
      && "run" in decoded.value.fields && decoded.value.fields["run"].JString?
      && "count" in decoded.value.fields && IntArg(decoded.value.fields["count"]).Some?
    ensures r.Counted? ==> r.key == HistogramKey(decoded.value.fields["count"])
    ensures r == Skipped <==>
      decoded.Some? && decoded.value.JObject? && "run" in decoded.value.fields && !decoded.value.fields["run"].JString?
    ensures decoded.None? || !decoded.value.JObject? || "run" !in decoded.value.fields ==> r == Rejected
  {
    if decoded.None? || !decoded.value.JObject? then Rejected
    else
      var record := decoded.value.fields;
      if "run" !in record then Rejected
      else if !record["run"].JString? then Skipped
      else if "count" !in record then Rejected
      else if IntArg(record["count"]).None? then Rejected
      else Counted(HistogramKey(record["count"]))
  }

  function Get(m: map<Key, nat>, k: Key): nat
  {
    if k in m then m[k] else 0
  }

  /** The effect of one outcome on `stats`: only a counted line changes it. */
  function Step(stats: Stats, outcome: Outcome): (r: Stats)
    ensures !outcome.Counted? ==> r == stats
    ensures outcome.Counted? ==>
      r.calls == stats.calls + 1
      && r.lengths.Keys == stats.lengths.Keys + {outcome.key}
      && r.lengths[outcome.key] == Get(stats.lengths, outcome.key) + 1
      && forall k :: k in stats.lengths && k != outcome.key ==> r.lengths[k] == stats.lengths[k]
  {
    match outcome
    case Counted(k) => Stats(stats.calls + 1, stats.lengths[k := Get(stats.lengths, k) + 1])
    case _ => stats
  }

  /** The message printed for a line that raised. */
  function NonStatMessage(text: string): (m: string)
    ensures |m| == |Prefix| + |Strip(StrBlanks, text)| + 1
    ensures m[..|Prefix|] == Prefix && m[|Prefix|..|m| - 1] == Strip(StrBlanks, text) && m[|m| - 1] == '"'
  {
    Prefix + Strip(StrBlanks, text) + "\""
  }

  const Prefix := "Non merge policy stat line: \""

  /** `stats` after the loop has seen `lines`, in order. */
  function Aggregate(lines: seq<Line>): Stats
  {
    if lines == [] then Initial
    else Step(Aggregate(lines[..|lines| - 1]), LineOutcome(lines[|lines| - 1].decoded))
  }

  /** The messages printed while the loop sees `lines`, in order. */
  function Messages(lines: seq<Line>): seq<string>
  {
    if lines == [] then []
    else
      var last := lines[|lines| - 1];
      Messages(lines[..|lines| - 1]) + (if LineOutcome(last.decoded).Rejected? then [NonStatMessage(last.text)] else [])
  }

  /** One more line extends the stats and the messages by that line's outcome. */
  lemma {:induction false} NextLine(lines: seq<Line>, i: nat)
    requires i < |lines|
    ensures Aggregate(lines[..i + 1]) == Step(Aggregate(lines[..i]), LineOutcome(lines[i].decoded))
    ensures Messages(lines[..i + 1]) == Messages(lines[..i])
      + (if LineOutcome(lines[i].decoded).Rejected? then [NonStatMessage(lines[i].text)] else [])
  {
    assert lines[..i + 1][..i] == lines[..i];
  }

  /** The script's "create at 0, then add 1" is one increment of the key's entry. */
  lemma CreateThenIncrement(m: map<Key, nat>, key: Key)
    ensures var m' := if key in m then m else m[key := 0];
      key in m' && m'[key := m'[key] + 1] == m[key := Get(m, key) + 1]
  {
  }

  /**
   * The two updates for a counted line: one more call, and one more under the
   * raw count, whose entry is created at 0 first.
   */
  method CountRecord(stats: Stats, count: Json) returns (next: Stats)
    requires count.JBool? || count.JNumber? || count.JString?
    ensures next == Step(stats, Counted(HistogramKey(count)))
  {
    var key := HistogramKey(count);
    CreateThenIncrement(stats.lengths, key);
    next := stats.(calls := stats.calls + 1);
    if key !in next.lengths {
      next := next.(lengths := next.lengths[key := 0]);
    }
    next := next.(lengths := next.lengths[key := next.lengths[key] + 1]);
  }

  /**
   * The body of the loop for one line: the `try` block, and whether it raised
   * (the `except` branch prints a message).
   */
  method CountLine(stats: Stats, line: Line) returns (next: Stats, raised: bool)
    ensures next == Step(stats, LineOutcome(line.decoded))
    ensures raised <==> LineOutcome(line.decoded).Rejected?
  {
    next := stats;
    raised := true;
    if line.decoded.Some? && line.decoded.value.JObject? && "run" in line.decoded.value.fields {
      var record := line.decoded.value.fields;
      if !record["run"].JString? {
        assert LineOutcome(line.decoded) == Skipped;
        return next, false;
      }
      if "count" in record && IntArg(record["count"]).Some? {
        assert LineOutcome(line.decoded) == Counted(HistogramKey(record["count"]));
        next := CountRecord(stats, record["count"]);
        return next, false;
      }
    }
    assert LineOutcome(line.decoded) == Rejected;
  }

  /** The aggregation loop of the script, over the already-split lines of the log file. */
  method ParseStats(lines: seq<Line>) returns (stats: Stats, messages: seq<string>)
    ensures stats == Aggregate(lines) && messages == Messages(lines)
    ensures Consistent(stats)
  {
    stats := Stats(0, map[]);
    messages := [];
    for i := 0 to |lines|
      invariant stats == Aggregate(lines[..i]) && messages == Messages(lines[..i])
    {
      NextLine(lines, i);
      var raised;
      stats, raised := CountLine(stats, lines[i]);
      if raised {
        messages := messages + [NonStatMessage(lines[i].text)];
      }
    }
    assert lines[..|lines|] == lines;
    AggregateConsistent(lines);
  }

  // ---------------------------------------------------------------------------
  // Properties
  // ---------------------------------------------------------------------------

  /** Some key of a non-empty set, always the same one for the same set. */
  ghost function Pick(keys: set<Key>): Key
    requires keys != {}
  {
    var k :| k in keys; k
  }

  /** The sum of the histogram's values. */
  ghost function SumValues(m: map<Key, nat>): nat
    decreases |m.Keys|
  {
    if m.Keys == {} then 0
    else
      var k := Pick(m.Keys);
      assert |(m - {k}).Keys| < |m.Keys| by {
        assert (m - {k}).Keys == m.Keys - {k};
      }
      m[k] + SumValues(m - {k})
  }

  /** `calls` matches the histogram: each counted line raises both by one. */
  ghost predicate Consistent(stats: Stats)
  {
    stats.calls == SumValues(stats.lengths)
  }

  /** Any key's value can be split off the sum, not only the one `SumValues` picks. */
  lemma {:induction false} SumValuesRemove(m: map<Key, nat>, k: Key)
    requires k in m
    ensures SumValues(m) == m[k] + SumValues(m - {k})
    decreases |m.Keys|
  {
    var j := Pick(m.Keys);
    assert (m - {k}).Keys == m.Keys - {k};
    if j != k {
      assert (m - {j}).Keys == m.Keys - {j};
      SumValuesRemove(m - {j}, k);
      SumValuesRemove(m - {k}, j);
      assert m - {j} - {k} == m - {k} - {j};
    }
  }

  /** Setting one key to `v` changes the sum by the difference. */
  lemma {:induction false} SumValuesUpdate(m: map<Key, nat>, k: Key, v: nat)
    ensures SumValues(m[k := v]) + Get(m, k) == SumValues(m) + v
  {
    SumValuesRemove(m[k := v], k);
    assert m[k := v] - {k} == m - {k};
    if k in m {
      SumValuesRemove(m, k);
    } else {
      assert m - {k} == m;
    }
  }

  /** The stats start at zero calls and an empty histogram, which are consistent. */
  lemma InitialConsistent()
    ensures Initial.calls == 0 && Initial.lengths == map[]
    ensures Consistent(Initial)
  {
  }

  /** Every outcome keeps `calls` equal to the sum of the histogram. */
  lemma {:induction false} StepConsistent(stats: Stats, outcome: Outcome)
    requires Consistent(stats)
    ensures Consistent(Step(stats, outcome))
  {
    if outcome.Counted? {
      SumValuesUpdate(stats.lengths, outcome.key, Get(stats.lengths, outcome.key) + 1);
    }
  }

  /** So `calls` equals the sum of the histogram after every line. */
  lemma {:induction false} AggregateConsistent(lines: seq<Line>)
    ensures Consistent(Aggregate(lines))
  {
    if lines != [] {
      AggregateConsistent(lines[..|lines| - 1]);
      StepConsistent(Aggregate(lines[..|lines| - 1]), LineOutcome(lines[|lines| - 1].decoded));
    }
  }

  /** How many of the lines are skipped. */
  function NumSkipped(lines: seq<Line>): nat
  {
    if lines == [] then 0
    else NumSkipped(lines[..|lines| - 1]) + (if LineOutcome(lines[|lines| - 1].decoded) == Skipped then 1 else 0)
  }

  /** Every line is counted, skipped or reported: exactly one of the three. */
  lemma {:induction false} EveryLineAccounted(lines: seq<Line>)
    ensures Aggregate(lines).calls + NumSkipped(lines) + |Messages(lines)| == |lines|
  {
    if lines != [] {
      EveryLineAccounted(lines[..|lines| - 1]);
    }
  }

  // ---------------------------------------------------------------------------
  // The lines the merge policies write
  // ---------------------------------------------------------------------------

  function DigitChar(d: nat): (c: char)
    requires d < 10
    ensures IsDigit(c) && c as int - '0' as int == d
  {
    ('0' as int + d) as char
  }

  /** Rust's `Display` of an unsigned count: decimal, no sign, no leading zero. */
  function DecimalString(n: nat): (r: string)
    ensures |r| > 0 && forall i :: 0 <= i < |r| ==> IsDigit(r[i])
    ensures |r| == 1 || r[0] != '0'
    ensures DigitsValue(r) == n
  {
    if n < 10 then [DigitChar(n)]
    else
      var r := DecimalString(n / 10) + [DigitChar(n % 10)];
      assert r[..|r| - 1] == DecimalString(n / 10);
      r
  }

  /** A plain run of ASCII digits is read by `int()` as its decimal value. */
  lemma DigitsParse(d: string)
    requires |d| > 0 && forall i :: 0 <= i < |d| ==> IsDigit(d[i])
    ensures ParseInt(d) == Some(DigitsValue(d))
  {
    assert !IsBlank(IntBlanks, d[0]) by {
      assert IsDigit(d[0]);
    }
    assert !IsBlank(IntBlanks, d[|d| - 1]) by {
      assert IsDigit(d[|d| - 1]);
    }
    assert StripLeft(IntBlanks, d) == d;
    assert StripRight(IntBlanks, d) == d;
    assert d[0] != '+' && d[0] != '-';
    assert WellFormedDigits(d);
  }

  /** Whitespace around a text without whitespace at its ends is exactly what `Strip` removes. */
  lemma StripFramed(b: Blanks, w1: string, t: string, w2: string)
    requires forall k :: 0 <= k < |w1| ==> IsBlank(b, w1[k])
    requires forall k :: 0 <= k < |w2| ==> IsBlank(b, w2[k])
    requires t != [] && !IsBlank(b, t[0]) && !IsBlank(b, t[|t| - 1])
    ensures Strip(b, w1 + t + w2) == t
  {
    assert w1 + t + w2 == w1 + (t + w2);
    assert (t + w2)[0] == t[0];
    StripLeftPrefix(b, w1, t + w2);
    StripRightSuffix(b, t, w2);
  }

  /**
   * The texts `int()` accepts, with their values: `int()` whitespace, an
   * optional sign, well-formed digits (underscores between digits allowed),
   * and `int()` whitespace again.
   */
  lemma ParseIntAccepts(w1: string, sign: string, d: string, w2: string)
    requires forall k :: 0 <= k < |w1| ==> IsBlank(IntBlanks, w1[k])
    requires forall k :: 0 <= k < |w2| ==> IsBlank(IntBlanks, w2[k])
    requires sign == "" || sign == "+" || sign == "-"
    requires WellFormedDigits(d)
    ensures ParseInt(w1 + sign + d + w2) == Some(if sign == "-" then -(DigitsValue(d) as int) else DigitsValue(d))
  {
    var t := sign + d;
    assert w1 + sign + d + w2 == w1 + t + w2;
    assert t[0] == (if sign == "" then d[0] else sign[0]) && t[|t| - 1] == d[|d| - 1];
    StripFramed(IntBlanks, w1, t, w2);
    if sign == "" {
      assert t == d;
      ParseUnsigned(w1 + sign + d + w2, d);
    } else {
      assert t == [sign[0]] + d;
      ParseSigned(w1 + sign + d + w2, sign[0], d);
    }
  }

  /** `int()` of any text that strips to well-formed digits. */
  lemma ParseUnsigned(s: string, d: string)
    requires WellFormedDigits(d)
    requires Strip(IntBlanks, s) == d
    ensures ParseInt(s) == Some(DigitsValue(d))
  {
    assert IsDigit(d[0]);
  }

  /** `int()` of any text that strips to a sign followed by well-formed digits. */
  lemma ParseSigned(s: string, c: char, d: string)
    requires c == '+' || c == '-'
    requires WellFormedDigits(d)
    requires Strip(IntBlanks, s) == [c] + d
    ensures ParseInt(s) == Some(if c == '-' then -(DigitsValue(d) as int) else DigitsValue(d))
  {
    assert ([c] + d)[0] == c && ([c] + d)[1..] == d;
  }

  /** An optional sign followed by well-formed digits: the stripped texts `int()` accepts. */
  predicate SignedDigits(t: string)
  {
    WellFormedDigits(t) || (t != [] && (t[0] == '+' || t[0] == '-') && WellFormedDigits(t[1..]))
  }

  /** `int()` of a string succeeds exactly when the stripped text is a signed digit string. */
  lemma ParseIntDomain(s: string)
    ensures ParseInt(s).Some? <==> SignedDigits(Strip(IntBlanks, s))
  {
  }

  /**
   * The converse of `ParseIntAccepts`: every text `int()` accepts is `int()`
   * whitespace, an optional sign, well-formed digits and whitespace again, and
   * its value is the signed value of the digits.
   */
  lemma ParseIntShape(s: string) returns (w1: string, sign: string, d: string, w2: string)
    requires ParseInt(s).Some?
    ensures s == w1 + sign + d + w2
    ensures forall k :: 0 <= k < |w1| ==> IsBlank(IntBlanks, w1[k])
    ensures forall k :: 0 <= k < |w2| ==> IsBlank(IntBlanks, w2[k])
    ensures sign == "" || sign == "+" || sign == "-"
    ensures WellFormedDigits(d)
    ensures ParseInt(s) == Some(if sign == "-" then -(DigitsValue(d) as int) else DigitsValue(d))
  {
    ParseIntDomain(s);
    var t := Strip(IntBlanks, s);
    w1, w2 := StripSplit(IntBlanks, s);
    sign, d := SignSplit(t);
    Regroup(w1, sign, d, w2);
    if sign == "" {
      ParseUnsigned(s, d);
    } else {
      ParseSigned(s, t[0], d);
    }
  }

  /** A line is the whitespace `Strip` drops in front, what it keeps, and the whitespace it drops behind. */
  lemma StripSplit(b: Blanks, s: string) returns (w1: string, w2: string)
    ensures s == w1 + Strip(b, s) + w2
    ensures forall k :: 0 <= k < |w1| ==> IsBlank(b, w1[k])
    ensures forall k :: 0 <= k < |w2| ==> IsBlank(b, w2[k])
  {
    var i, j := StripKeepsMiddle(b, s);
    w1, w2 := s[..i], s[j..];
    SplitThree(s, i, j);
  }

  lemma SplitThree(s: string, i: nat, j: nat)
    requires i <= j <= |s|
    ensures s == s[..i] + s[i..j] + s[j..]
  {
    assert s[..i] + s[i..j] == s[..j];
  }

  /** A signed digit string is a sign of at most one character followed by well-formed digits. */
  lemma SignSplit(t: string) returns (sign: string, d: string)
    requires SignedDigits(t)
    ensures t == sign + d && WellFormedDigits(d)
    ensures sign == "" || sign == "+" || sign == "-"
    ensures sign == "" ==> d == t
    ensures sign != "" ==> t == [t[0]] + d && sign == [t[0]]
  {
    if WellFormedDigits(t) {
      sign, d := "", t;
      assert t == sign + d;
    } else {
      sign, d := t[..1], t[1..];
      assert t == [t[0]] + d && t == sign + d;
    }
  }

  lemma Regroup(w1: string, sign: string, d: string, w2: string)
    ensures w1 + (sign + d) + w2 == w1 + sign + d + w2
  {
    assert w1 + (sign + d) == w1 + sign + d;
  }

  /** `str.strip()` removes U+001C, but `int()` rejects a count framed by it. */
  lemma SeparatorRejectedByInt()
    ensures Strip(StrBlanks, "\U{001C}7") == "7"
    ensures ParseInt("\U{001C}7") == None
  {
    assert StripLeft(StrBlanks, "\U{001C}7") == "7" by {
      assert "\U{001C}7"[1..] == "7";
    }
    assert StripLeft(IntBlanks, "\U{001C}7") == "\U{001C}7";
    assert StripRight(IntBlanks, "\U{001C}7") == "\U{001C}7";
  }

  /** `int()` reads a count back from its decimal text. */
  lemma DecimalRoundTrip(n: nat)
    ensures ParseInt(DecimalString(n)) == Some(n)
  {
    DigitsParse(DecimalString(n));
  }

  /**
   * A run id the policies' `println!` can embed without escaping. The format
   * string inserts the id verbatim, so an id holding a quote, a backslash or
   * a control character gives a line `json.loads` rejects or reads
   * differently; such ids are outside the lines modelled here.
   */
  predicate PlainRunId(runId: string)
  {
    forall c :: c in runId ==> c != '"' && c != '\\' && c >= ' '
  }

  /** The line a policy prints for each call: one line, ended by its only newline. */
  function PolicyLogText(runId: string, count: nat): (t: string)
    requires PlainRunId(runId)
    ensures t != [] && t[|t| - 1] == '\n'
    ensures '\n' !in t[..|t| - 1]
  {
    var digits := DecimalString(count);
    var body := "{\"run\":\"" + runId + "\",\"count\":\"" + digits + "\"}";
    assert '\n' !in runId;
    assert '\n' !in digits by {
      forall i | 0 <= i < |digits| ensures digits[i] != '\n' {
        assert IsDigit(digits[i]);
      }
    }
    assert (body + "\n")[..|body|] == body;
    body + "\n"
  }

  /**
   * That line together with the record `json.loads` decodes it to; the
   * decoder itself is not modelled, only its result for such a line.
   */
  function PolicyLogLine(runId: string, count: nat): (line: Line)
    requires PlainRunId(runId)
    ensures line.decoded.Some? && line.decoded.value.JObject?
    ensures "run" in line.decoded.value.fields && line.decoded.value.fields["run"] == JString(runId)
    ensures "count" in line.decoded.value.fields && IntArg(line.decoded.value.fields["count"]) == Some(count)
  {
    var countText := JString(DecimalString(count));
    DecimalRoundTrip(count);
    assert IntArg(countText) == Some(count);
    var fields := map["run" := JString(runId), "count" := countText];
    assert "count" in fields && fields["count"] == countText;
    Line(PolicyLogText(runId, count), Some(JObject(fields)))
  }

  /** Any record with a string 'run' and a 'count' text that `int()` accepts is counted under that text. */
  lemma RecordCounted(record: map<string, Json>, countText: string)
    requires "run" in record && record["run"].JString?
    requires "count" in record && record["count"] == JString(countText)
    requires ParseInt(countText).Some?
    ensures LineOutcome(Some(JObject(record))) == Counted(StrKey(countText))
  {
  }

  /** A policy's log line is counted under its count's text, not under the integer. */
  lemma {:induction false} PolicyLineCounted(runId: string, count: nat, stats: Stats)
    requires PlainRunId(runId)
    ensures LineOutcome(PolicyLogLine(runId, count).decoded) == Counted(StrKey(DecimalString(count)))
    ensures Step(stats, LineOutcome(PolicyLogLine(runId, count).decoded)).lengths[StrKey(DecimalString(count))]
      == Get(stats.lengths, StrKey(DecimalString(count))) + 1
  {
    DecimalRoundTrip(count);
    var record := map["run" := JString(runId), "count" := JString(DecimalString(count))];
    assert "run" in record && record["run"] == JString(runId);
    assert "count" in record && record["count"] == JString(DecimalString(count));
    RecordCounted(record, DecimalString(count));
  }

  /** `int()` ignores leading zeros. */
  lemma LeadingZerosExample()
    ensures "7" != "007" && ParseInt("7") == ParseInt("007") == Some(7)
  {
    assert "007"[0] == '0' && "007"[1] == '0' && "007"[2] == '7';
    assert DigitsValue("007") == 7 by {
      assert "007"[..2] == "00" && "00"[..1] == "0" && "0"[..0] == "";
      assert "7"[..0] == "";
    }
    assert DigitsValue("7") == 7 by {
      assert "7"[..0] == "";
    }
    DigitsParse("7");
    DigitsParse("007");
  }

  /**
   * Two count texts are two histogram keys even when `int()` reads them as
   * the same number ("7" and "007"): each line raises only its own text's entry.
   */
  lemma RawTextKeys(stats: Stats, a: string, b: string)
    requires a != b
    ensures var after := Step(Step(stats, Counted(StrKey(a))), Counted(StrKey(b)));
      after.calls == stats.calls + 2
      && after.lengths[StrKey(a)] == Get(stats.lengths, StrKey(a)) + 1
      && after.lengths[StrKey(b)] == Get(stats.lengths, StrKey(b)) + 1
  {
    var afterA := Step(stats, Counted(StrKey(a)));
    assert Get(afterA.lengths, StrKey(b)) == Get(stats.lengths, StrKey(b));
  }

  /** A count of `true` and a count of `1` land on the same dict key. */
  lemma BoolCountAliasesOne(runId: string)
    ensures LineOutcome(Some(JObject(map["run" := JString(runId), "count" := JBool(true)])))
      == LineOutcome(Some(JObject(map["run" := JString(runId), "count" := JNumber(1)])))
      == Counted(IntKey(1))
  {
    var t := map["run" := JString(runId), "count" := JBool(true)];
    var one := map["run" := JString(runId), "count" := JNumber(1)];
    assert "run" in t && t["run"].JString? && "count" in t;
    assert "run" in one && one["run"].JString? && "count" in one;
  }
}

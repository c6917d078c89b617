/**
 * The duration probe of src/utils/process-video.ts: `getMetadata` gathers the
 * engine's log messages until one contains "Aborted()", and `getDuration`
 * reads the first `Duration: HH:MM:SS...` in that log.
 */
module Metadata {
  import opened Wrappers
  import opened JsText
  import TimeToSeconds

  /** The message that makes `getMetadata` resolve. */
  const AbortMarker := "Aborted()"

  /** The label the duration pattern starts with. */
  const DurationLabel := "Duration:"

  /** The messages concatenated in order (`log += message` from ''). */
  function Concat(messages: seq<string>): string {
    if |messages| == 0 then "" else Concat(messages[..|messages| - 1]) + messages[|messages| - 1]
  }

  /** The index of the first message that contains the marker, if any. */
  function FirstMarker(messages: seq<string>): (k: Option<nat>)
    ensures k.Some? ==> k.value < |messages| && Contains(messages[k.value], AbortMarker)
    ensures k.Some? ==> forall j :: 0 <= j < k.value ==> !Contains(messages[j], AbortMarker)
    ensures k.None? ==> forall j :: 0 <= j < |messages| ==> !Contains(messages[j], AbortMarker)
  {
    if |messages| == 0 then None
    else if Contains(messages[0], AbortMarker) then Some(0)
    else match FirstMarker(messages[1..])
      case None => None
      case Some(k) => Some(k + 1)
  }

  /**
   * The string the `getMetadata` promise resolves with; `None` when no message
   * contains the marker, in which case the promise never resolves.
   */
  function ResolvedLog(messages: seq<string>): Option<string> {
    match FirstMarker(messages)
    case None => None
    case Some(k) => Some(Concat(messages[..k + 1]))
  }

  /**
   * `getMetadata`: the log listener appends every message to `log` and
   * resolves with it on the first message containing "Aborted()"; after that
   * the listener is removed and later messages are not appended.
   */
  method GetMetadata(messages: seq<string>) returns (resolved: Option<string>)
    ensures resolved == ResolvedLog(messages)
    ensures resolved.Some? <==> exists k :: 0 <= k < |messages| && Contains(messages[k], AbortMarker)
  {
    var log := "";
    var i := 0;
    while i < |messages|
      invariant 0 <= i <= |messages|
      invariant log == Concat(messages[..i])
      invariant forall j :: 0 <= j < i ==> !Contains(messages[j], AbortMarker)
    {
      log := log + messages[i];
      assert messages[..i + 1][..i] == messages[..i];
      if Contains(messages[i], AbortMarker) {
        return Some(log);
      }
      i := i + 1;
    }
    return None;
  }

  /** The three capture groups of the duration pattern; group 3 is `seconds + [separator] + fraction`. */
  datatype Captures = Captures(hours: string, minutes: string, seconds: string, separator: char, fraction: string)
  {
    /** What the pattern guarantees about its groups. */
    predicate Valid() {
      |hours| == 2 && AllDigits(hours)
      && |minutes| == 2 && AllDigits(minutes)
      && |seconds| == 2 && AllDigits(seconds)
      && !IsLineTerminator(separator)
      && |fraction| <= 2 && AllDigits(fraction)
    }
  }

  /** The end of the greedy `[0-9]{0,2}` at the start of u. */
  function FractionLength(u: string): (n: nat)
    ensures n <= 2 && n <= |u|
    ensures forall i :: 0 <= i < n ==> IsDigit(u[i])
  {
    if |u| > 0 && IsDigit(u[0]) then (if |u| > 1 && IsDigit(u[1]) then 2 else 1) else 0
  }

  /** `([0-9]{2}):([0-9]{2}):([0-9]{2}.` at the start of u (the `.` is unescaped: any character but a line terminator). */
  predicate TimeAt(u: string) {
    && |u| >= 9
    && IsDigit(u[0]) && IsDigit(u[1]) && u[2] == ':'
    && IsDigit(u[3]) && IsDigit(u[4]) && u[5] == ':'
    && IsDigit(u[6]) && IsDigit(u[7])
    && !IsLineTerminator(u[8])
  }

  /** The groups after `Duration:\s*`, anchored at the start of u. */
  function MatchTime(u: string): (r: Option<Captures>)
    ensures r.Some? ==> r.value.Valid()
  {
    if TimeAt(u) then
      var n := FractionLength(u[9..]);
      Some(Captures(u[..2], u[3..5], u[6..8], u[8], u[9..9 + n]))
    else None
  }

  /**
   * The pattern `Duration:\s*([0-9]{2}):([0-9]{2}):([0-9]{2}.[0-9]{0,2})`
   * anchored at the start of t.  `\s*` is greedy and no white space is a
   * digit, so backtracking it never helps: it consumes exactly what
   * `TrimStart` drops.  `[0-9]{0,2}` is greedy and always succeeds.
   */
  function MatchPrefix(t: string): (r: Option<Captures>)
    ensures r.Some? ==> r.value.Valid()
    ensures r.Some? ==> OccursAt(t, DurationLabel, 0)
  {
    if |DurationLabel| <= |t| && t[..|DurationLabel|] == DurationLabel
    then MatchTime(TrimStart(t[|DurationLabel|..]))
    else None
  }

  /** `patt.exec(text)` on a fresh pattern (lastIndex 0): the leftmost match at or after p. */
  function FirstMatch(text: string, p: nat): (r: Option<Captures>)
    requires p <= |text|
    ensures r.Some? ==> r.value.Valid()
    decreases |text| - p
  {
    if MatchPrefix(text[p..]).Some? then MatchPrefix(text[p..])
    else if p == |text| then None
    else FirstMatch(text, p + 1)
  }

  /**
   * `parseFloat(m[3])` for a group of the form SS c F (two digits, any
   * character c, up to two digits F): the longest prefix that is a decimal
   * literal.  With a digit c the group is one integer; with '.' it is SS.F;
   * with 'e' or 'E' followed by digits it is SS * 10^F; otherwise it is SS.
   */
  function ParseSeconds(c: Captures): (s: real)
    requires c.Valid()
    ensures s >= 0.0
  {
    if IsDigit(c.separator) then Value(c.seconds + [c.separator] + c.fraction) as real
    else if c.separator == '.' then
      Value(c.seconds) as real + Value(c.fraction) as real / Pow10(|c.fraction|) as real
    else if (c.separator == 'e' || c.separator == 'E') && |c.fraction| > 0 then
      (Value(c.seconds) * Pow10(Value(c.fraction))) as real
    else Value(c.seconds) as real
  }

  /** `getDuration`: hours * 3600 + minutes * 60 + seconds of the first match, or 0 without one. */
  function Duration(log: string): (d: real)
    ensures d >= 0.0
  {
    match FirstMatch(log, 0)
    case None => 0.0
    case Some(c) => (Value(c.hours) * 3600 + Value(c.minutes) * 60) as real + ParseSeconds(c)
  }

  /** `Math.floor(duration / 10)`: the number of candidate ordinals. */
  function FrameCount(duration: real): (n: int)
    requires duration >= 0.0
    ensures n >= 0
    ensures n as real <= duration / 10.0 < n as real + 1.0
  {
    (duration / 10.0).Floor
  }

  /** Positions where the pattern cannot start are skipped by the search. */
  lemma {:induction false} FirstMatchFrom(text: string, p: nat, k: nat)
    requires p <= k <= |text|
    requires forall i :: p <= i < k ==> MatchPrefix(text[i..]).None?
    ensures FirstMatch(text, p) == FirstMatch(text, k)
    decreases k - p
  {
    if p < k {
      FirstMatchFrom(text, p + 1, k);
    }
  }

  lemma OccursAtSuffix(s: string, t: string, i: nat)
    requires i <= |s|
    ensures OccursAt(s[i..], t, 0) ==> OccursAt(s, t, i)
  {
    if OccursAt(s[i..], t, 0) {
      assert s[i..][..|t|] == s[i..i + |t|];
    }
  }

  /** Without a "Duration:" label anywhere in the log the duration is 0. */
  lemma NoLabelNoDuration(log: string)
    requires !Contains(log, DurationLabel)
    ensures Duration(log) == 0.0
  {
    forall i | 0 <= i <= |log| ensures MatchPrefix(log[i..]).None? {
      OccursAtSuffix(log, DurationLabel, i);
    }
    FirstMatchFrom(log, 0, |log|);
  }

  /** "HH:MM:SS" + c + F + "<post>" */
  function TimeText(h: string, m: string, s: string, sep: char, f: string, post: string): string {
    h + ":" + m + ":" + s + [sep] + f + post
  }

  /** A log "<pre>Duration: HH:MM:SS" + c + F + "<post>". */
  function DurationLine(pre: string, h: string, m: string, s: string, sep: char, f: string, post: string): string {
    pre + (DurationLabel + ([' '] + TimeText(h, m, s, sep, f, post)))
  }

  /** The groups read from "HH:MM:SS" + c + F + "<post>". */
  lemma {:induction false} TimeMatch(h: string, m: string, s: string, sep: char, f: string, post: string)
    requires |h| == 2 && |m| == 2 && |s| == 2 && AllDigits(h) && AllDigits(m) && AllDigits(s)
    requires !IsLineTerminator(sep)
    requires |f| <= 2 && AllDigits(f)
    requires |f| < 2 && |post| > 0 ==> !IsDigit(post[0])
    ensures MatchTime(TimeText(h, m, s, sep, f, post)) == Some(Captures(h, m, s, sep, f))
  {
    var u := TimeText(h, m, s, sep, f, post);
    assert u == h + (":" + (m + (":" + (s + ([sep] + (f + post))))));
    assert u[..2] == h && u[2] == ':' && u[3..5] == m && u[5] == ':';
    assert u[6..8] == s && u[8] == sep;
    assert u[9..] == f + post;
    assert TimeAt(u);
    assert FractionLength(f + post) == |f| by {
      if |f| < 2 && |post| > 0 {
        assert (f + post)[|f|] == post[0];
      }
    }
    assert u[9..9 + |f|] == f;
  }

  /** The pattern matches "Duration: HH:MM:SS" + c + F + "<post>" at its start. */
  lemma LineMatch(h: string, m: string, s: string, sep: char, f: string, post: string)
    requires |h| == 2 && |m| == 2 && |s| == 2 && AllDigits(h) && AllDigits(m) && AllDigits(s)
    requires !IsLineTerminator(sep)
    requires |f| <= 2 && AllDigits(f)
    requires |f| < 2 && |post| > 0 ==> !IsDigit(post[0])
    ensures MatchPrefix(DurationLabel + ([' '] + TimeText(h, m, s, sep, f, post))) == Some(Captures(h, m, s, sep, f))
  {
    var u := TimeText(h, m, s, sep, f, post);
    var t := DurationLabel + ([' '] + u);
    assert t[..|DurationLabel|] == DurationLabel;
    assert t[|DurationLabel|..] == [' '] + u;
    assert ([' '] + u)[1..] == u;
    assert u[0] == h[0] && IsDigit(u[0]);
    assert !IsWhiteSpace(u[0]);
    assert TrimStart(u) == u;
    assert TrimStart([' '] + u) == u;
    TimeMatch(h, m, s, sep, f, post);
  }

  /** In a log of the shape `DurationLine` whose `pre` has no "Duration:", the first match is that line. */
  lemma DurationLineCaptures(pre: string, h: string, m: string, s: string, sep: char, f: string, post: string)
    requires !Contains(pre, DurationLabel)
    requires |h| == 2 && |m| == 2 && |s| == 2 && AllDigits(h) && AllDigits(m) && AllDigits(s)
    requires !IsLineTerminator(sep)
    requires |f| <= 2 && AllDigits(f)
    requires |f| < 2 && |post| > 0 ==> !IsDigit(post[0])
    ensures FirstMatch(DurationLine(pre, h, m, s, sep, f, post), 0) == Some(Captures(h, m, s, sep, f))
  {
    var t := DurationLabel + ([' '] + TimeText(h, m, s, sep, f, post));
    var text := pre + t;
    assert OccursAt(t, DurationLabel, 0) by {
      assert t[..|DurationLabel|] == DurationLabel;
    }
    NoMatchInPre(pre, t);
    FirstMatchFrom(text, 0, |pre|);
    assert text[|pre|..] == t;
    LineMatch(h, m, s, sep, f, post);
  }

  /** The label's first character, 'D', does not recur in it. */
  lemma LabelStartsOnce()
    ensures forall j :: 0 < j < |DurationLabel| ==> DurationLabel[j] != DurationLabel[0]
  {
    assert DurationLabel[0] == 'D' && 'D' !in DurationLabel[1..];
    assert forall j :: 0 < j < |DurationLabel| ==> DurationLabel[j] == DurationLabel[1..][j - 1];
  }

  /**
   * No match starts inside a prefix without "Duration:" when the label
   * follows it: "Duration:" has no 'D' after its first character, so no
   * occurrence can straddle the two parts.
   */
  lemma NoMatchInPre(pre: string, t: string)
    requires !Contains(pre, DurationLabel)
    requires OccursAt(t, DurationLabel, 0)
    ensures forall i :: 0 <= i < |pre| ==> MatchPrefix((pre + t)[i..]).None?
  {
    LabelStartsOnce();
    forall i | 0 <= i < |pre| ensures MatchPrefix((pre + t)[i..]).None? {
      NoStraddle(pre, t, DurationLabel, i);
      OccursAtSuffix(pre + t, DurationLabel, i);
    }
  }

  /** When no 'D' follows position p, no match starts there or later. */
  lemma NoLabelFrom(text: string, p: nat)
    requires p <= |text|
    requires 'D' !in text[p..]
    ensures FirstMatch(text, p) == None
  {
    forall i | p <= i <= |text| ensures MatchPrefix(text[i..]).None? {
      if i < |text| {
        assert text[i..][0] == text[p..][i - p];
      }
      NotLabelStart(text[i..]);
    }
    FirstMatchFrom(text, p, |text|);
  }

  /** No match starts where there is no 'D'. */
  lemma NotLabelStart(t: string)
    requires |t| == 0 || t[0] != 'D'
    ensures MatchPrefix(t) == None
  {
    if |DurationLabel| <= |t| {
      assert t[..|DurationLabel|][0] != DurationLabel[0];
    }
  }

  /** The whole value of a well-formed duration line, for every separator character. */
  lemma LineDuration(pre: string, h: string, m: string, s: string, sep: char, f: string, post: string)
    requires !Contains(pre, DurationLabel)
    requires |h| == 2 && |m| == 2 && |s| == 2 && AllDigits(h) && AllDigits(m) && AllDigits(s)
    requires !IsLineTerminator(sep)
    requires |f| <= 2 && AllDigits(f)
    requires |f| < 2 && |post| > 0 ==> !IsDigit(post[0])
    ensures Duration(DurationLine(pre, h, m, s, sep, f, post)) ==
      (Value(h) * 3600 + Value(m) * 60) as real + ParseSeconds(Captures(h, m, s, sep, f))
  {
    DurationLineCaptures(pre, h, m, s, sep, f, post);
  }

  /**
   * The line ffmpeg prints, "Duration: HH:MM:SS.FF": the duration is
   * HH * 3600 + MM * 60 + SS plus the fraction FF / 10^|FF|.
   */
  lemma StandardDuration(pre: string, h: string, m: string, s: string, f: string, post: string)
    requires !Contains(pre, DurationLabel)
    requires |h| == 2 && |m| == 2 && |s| == 2 && AllDigits(h) && AllDigits(m) && AllDigits(s)
    requires |f| <= 2 && AllDigits(f)
    requires |f| < 2 && |post| > 0 ==> !IsDigit(post[0])
    ensures Duration(DurationLine(pre, h, m, s, '.', f, post)) ==
      (Value(h) * 3600 + Value(m) * 60 + Value(s)) as real + Value(f) as real / Pow10(|f|) as real
  {
    LineDuration(pre, h, m, s, '.', f, post);
  }

  /** An integer plus a fraction below one gives the integer's frame count. */
  lemma FrameCountOfWhole(w: nat, fraction: real)
    requires 0.0 <= fraction < 1.0
    ensures FrameCount(w as real + fraction) == w / 10
  {
    var q, r := w / 10, w % 10;
    assert w == 10 * q + r && 0 <= r < 10;
    assert (w as real + fraction) / 10.0 == q as real + (r as real + fraction) / 10.0;
  }

  /**
   * `getDuration` and `convertTimeToSeconds` combine the same fields the same
   * way: on a standard duration line the whole seconds are the time string's
   * value, and the frame count is that value divided by 10.
   */
  lemma DurationAgreesWithTimeString(pre: string, h: string, m: string, s: string, f: string, post: string)
    requires !Contains(pre, DurationLabel)
    requires |h| == 2 && |m| == 2 && |s| == 2 && AllDigits(h) && AllDigits(m) && AllDigits(s)
    requires |f| <= 2 && AllDigits(f)
    requires |f| < 2 && |post| > 0 ==> !IsDigit(post[0])
    ensures TimeToSeconds.ConvertTimeToSeconds(h + ":" + m + ":" + s).Some?
    ensures var t := TimeToSeconds.ConvertTimeToSeconds(h + ":" + m + ":" + s).value;
      && t >= 0
      && (t as real) <= Duration(DurationLine(pre, h, m, s, '.', f, post)) < t as real + 1.0
      && FrameCount(Duration(DurationLine(pre, h, m, s, '.', f, post))) == t / 10
  {
    StandardDuration(pre, h, m, s, f, post);
    TimeToSeconds.DigitFields(h, m, s);
    var w := Value(h) * 3600 + Value(m) * 60 + Value(s);
    FractionBelowOne(f);
    FrameCountOfWhole(w, Value(f) as real / Pow10(|f|) as real);
  }

  /** F / 10^|F| lies in [0, 1). */
  lemma FractionBelowOne(f: string)
    requires AllDigits(f)
    ensures 0.0 <= Value(f) as real / Pow10(|f|) as real < 1.0
  {
    ValueBound(f);
    QuotientBelowOne(Value(f) as real, Pow10(|f|) as real);
  }

  lemma QuotientBelowOne(a: real, b: real)
    requires 0.0 <= a < b
    ensures 0.0 <= a / b < 1.0
  {
  }

  /** "Duration: 00:01:30.00" is 90 seconds, nine frames; 95 seconds are nine frames too. */
  lemma NinetySeconds(h: string, m: string, s: string, f: string)
    // The literals arrive as parameters: with literal arguments the verifier unfolds the string functions on them far beyond its budget.
    requires h == "00" && m == "01" && s == "30" && f == "00"
    ensures Duration(DurationLine("", h, m, s, '.', f, "")) == 90.0
    ensures FrameCount(90.0) == 9 && FrameCount(95.0) == 9
  {
    StandardDuration("", h, m, s, f, "");
    TwoDigitValue(h);
    TwoDigitValue(m);
    TwoDigitValue(s);
    TwoDigitValue(f);
  }

  /** The `.` after the seconds is unescaped: "Duration: 00:00:1234" reads 1234 seconds. */
  lemma DigitAfterSeconds(h: string, s: string, f: string)
    // The literals arrive as parameters: with literal arguments the verifier unfolds the string functions on them far beyond its budget.
    requires h == "00" && s == "12" && f == "4"
    ensures Duration(DurationLine("", h, h, s, '3', f, "")) == 1234.0
  {
    LineDuration("", h, h, s, '3', f, "");
    var c := Captures(h, h, s, '3', f);
    assert ParseSeconds(c) == Value(s + ['3'] + f) as real;
    TwoDigitValue(h);
    TwoDigitValue(s);
    assert f == [] + ['4'];
    ValueSnoc(s, '3');
    ValueSnoc(s + ['3'], '4');
    assert s + ['3'] + f == (s + ['3']) + ['4'];
  }

  /** The `.` after the seconds is unescaped: "Duration: 00:00:12e3" reads 12 * 10^3 seconds. */
  lemma ExponentAfterSeconds(h: string, s: string, f: string)
    // The literals arrive as parameters: with literal arguments the verifier unfolds the string functions on them far beyond its budget.
    requires h == "00" && s == "12" && f == "3"
    ensures Duration(DurationLine("", h, h, s, 'e', f, "")) == 12000.0
  {
    LineDuration("", h, h, s, 'e', f, "");
    var c := Captures(h, h, s, 'e', f);
    assert ParseSeconds(c) == (Value(s) * Pow10(Value(f))) as real;
    TwoDigitValue(h);
    TwoDigitValue(s);
    ValueSnoc([], '3');
    assert [] + ['3'] == f;
    assert Value(f) == 3;
    assert Pow10(3) == 1000;
  }

  /** The `.` after the seconds is unescaped: in "Duration: 00:01:30,99" the comma ends the number at 90. */
  lemma CommaAfterSeconds(h: string, m: string, s: string, f: string)
    // The literals arrive as parameters: with literal arguments the verifier unfolds the string functions on them far beyond its budget.
    requires h == "00" && m == "01" && s == "30" && f == "99"
    ensures Duration(DurationLine("", h, m, s, ',', f, "")) == 90.0
  {
    LineDuration("", h, m, s, ',', f, "");
    TwoDigitValue(h);
    TwoDigitValue(m);
    TwoDigitValue(s);
  }

  /** Text without a 'D' in front of a label-free text keeps it label-free. */
  lemma PlainPrefix(a: string, b: string)
    requires 'D' !in a && !Contains(b, DurationLabel)
    ensures !Contains(a + b, DurationLabel)
  {
    var n := |DurationLabel|;
    var ab := a + b;
    forall i: nat ensures !OccursAt(ab, DurationLabel, i) {
      if i < |a| {
        if i + n <= |ab| {
          assert a[i] in a;
          assert ab[i..i + n][0] == a[i] != DurationLabel[0];
        }
      } else if i + n <= |ab| {
        var j := i - |a|;
        assert ab[i..i + n] == b[j..j + n];
        assert !OccursAt(b, DurationLabel, j);
      }
    }
  }

  /** Searching `a + b` from where `b` starts is searching `b`. */
  lemma {:induction false} FirstMatchSuffix(a: string, b: string, i: nat)
    requires i <= |b|
    ensures FirstMatch(a + b, |a| + i) == FirstMatch(b, i)
    decreases |b| - i
  {
    assert (a + b)[|a| + i..] == b[i..];
    if i < |b| {
      FirstMatchSuffix(a, b, i + 1);
    }
  }

  /** The pattern fails at a label whose text (after one space and any further white space) is not a time. */
  lemma LabelRejected(u: string)
    requires !TimeAt(TrimStart(u))
    ensures MatchPrefix(DurationLabel + ([' '] + u)).None?
  {
    var t := DurationLabel + ([' '] + u);
    assert t[..|DurationLabel|] == DurationLabel;
    assert t[|DurationLabel|..] == [' '] + u;
    assert ([' '] + u)[1..] == u;
  }

  /** No match starts inside label-free text `u` that is followed by nothing or by the next label. */
  lemma LabelFreeText(u: string, rest: string)
    requires !Contains(u, DurationLabel)
    requires |rest| == 0 || OccursAt(rest, DurationLabel, 0)
    ensures forall j :: 0 <= j < |u| ==> MatchPrefix((u + rest)[j..]).None?
  {
    if |rest| > 0 {
      NoMatchInPre(u, rest);
    } else {
      assert u + rest == u;
      forall j | 0 <= j < |u| ensures MatchPrefix(u[j..]).None? {
        OccursAtSuffix(u, DurationLabel, j);
      }
    }
  }

  /** A log `pre` + "Duration: " + `u` + `rest`, where the label is not read. */
  ghost predicate RejectedLine(pre: string, u: string, rest: string, text: string) {
    && text == pre + (DurationLabel + ([' '] + u)) + rest
    && !Contains(pre, DurationLabel) && !Contains(u, DurationLabel)
    && (|rest| == 0 || OccursAt(rest, DurationLabel, 0))
    && MatchPrefix(DurationLabel + ([' '] + u) + rest).None?
  }

  /** In such a log no match starts before the label or at it. */
  lemma RejectedLineHead(pre: string, u: string, rest: string, text: string)
    requires RejectedLine(pre, u, rest, text)
    ensures forall i :: 0 <= i <= |pre| ==> MatchPrefix(text[i..]).None?
  {
    var t := DurationLabel + ([' '] + u) + rest;
    assert text == pre + t;
    assert text[|pre|..] == t;
    assert OccursAt(t, DurationLabel, 0) by {
      assert t[..|DurationLabel|] == DurationLabel;
    }
    NoMatchInPre(pre, t);
  }

  /** ... nor at the characters of "Duration: " after its 'D'. */
  lemma RejectedLineLabel(pre: string, u: string, rest: string, text: string)
    requires RejectedLine(pre, u, rest, text)
    ensures forall i :: |pre| < i <= |pre| + |DurationLabel| ==> MatchPrefix(text[i..]).None?
  {
    var k := |pre|;
    var y := DurationLabel + [' '];
    assert text == pre + y + (u + rest);
    LabelStartsOnce();
    forall i | k < i <= k + |DurationLabel| ensures MatchPrefix(text[i..]).None? {
      assert text[i..][0] == y[i - k];
      NotLabelStart(text[i..]);
    }
  }

  /** ... nor inside `u`. */
  lemma RejectedLineText(pre: string, u: string, rest: string, text: string)
    requires RejectedLine(pre, u, rest, text)
    ensures forall i :: |pre| + |DurationLabel| < i <= |pre| + |DurationLabel| + |u| ==> MatchPrefix(text[i..]).None?
  {
    var k := |pre| + |DurationLabel| + 1;
    assert text == (pre + (DurationLabel + [' '])) + (u + rest);
    LabelFreeText(u, rest);
    forall i | k <= i < k + |u| ensures MatchPrefix(text[i..]).None? {
      assert text[i..] == (u + rest)[i - k..];
    }
  }

  /**
   * A "Duration:" that the pattern rejects in place is passed over: with no
   * other label before it or inside its text `u`, and `rest` empty or
   * starting with the next label, the search goes on in `rest`.
   */
  lemma RejectedLineSkipped(pre: string, u: string, rest: string)
    requires !Contains(pre, DurationLabel) && !Contains(u, DurationLabel)
    requires |rest| == 0 || OccursAt(rest, DurationLabel, 0)
    requires MatchPrefix(DurationLabel + ([' '] + u) + rest).None?
    ensures FirstMatch(pre + (DurationLabel + ([' '] + u)) + rest, 0) == FirstMatch(rest, 0)
  {
    var line := pre + (DurationLabel + ([' '] + u));
    var text := line + rest;
    RejectedLineHead(pre, u, rest, text);
    RejectedLineLabel(pre, u, rest, text);
    RejectedLineText(pre, u, rest, text);
    assert |line| == |pre| + |DurationLabel| + 1 + |u|;
    forall i | 0 <= i < |line| ensures MatchPrefix(text[i..]).None? {
      if i <= |pre| {
      } else if i <= |pre| + |DurationLabel| {
      } else {
      }
    }
    FirstMatchFrom(text, 0, |line|);
    FirstMatchSuffix(line, rest, 0);
  }

  /** A "Duration:" followed by text the time pattern rejects, and no other label in the log: the duration is 0. */
  lemma RejectedAfterLabel(pre: string, u: string)
    requires !Contains(pre, DurationLabel) && !Contains(u, DurationLabel)
    requires !TimeAt(TrimStart(u))
    ensures Duration(pre + (DurationLabel + ([' '] + u))) == 0.0
  {
    var line := DurationLabel + ([' '] + u);
    LabelRejected(u);
    assert line + [] == line;
    assert pre + line + [] == pre + line;
    RejectedLineSkipped(pre, u, []);
  }

  /** The pattern fails at a label followed by something other than white space or a digit, whatever follows. */
  lemma NotTimeRejected(u: string, rest: string)
    requires |u| > 0 && !IsWhiteSpace(u[0]) && !IsDigit(u[0])
    ensures MatchPrefix(DurationLabel + ([' '] + u) + rest).None?
  {
    var t := DurationLabel + ([' '] + u) + rest;
    assert t[..|DurationLabel|] == DurationLabel;
    assert t[|DurationLabel|..] == [' '] + (u + rest);
    assert ([' '] + (u + rest))[1..] == u + rest;
    assert (u + rest)[0] == u[0];
    assert TrimStart(u + rest) == u + rest;
  }

  /**
   * After a label whose text starts with neither white space nor a digit,
   * such as "Duration: N/A", the duration is the one read from the rest of
   * the log, which starts with the next label.
   */
  lemma SkippedLineDuration(pre: string, u: string, rest: string)
    requires !Contains(pre, DurationLabel) && !Contains(u, DurationLabel)
    requires |u| > 0 && !IsWhiteSpace(u[0]) && !IsDigit(u[0])
    requires OccursAt(rest, DurationLabel, 0)
    ensures Duration(pre + (DurationLabel + ([' '] + u)) + rest) == Duration(rest)
  {
    NotTimeRejected(u, rest);
    RejectedLineSkipped(pre, u, rest);
  }

  /** "Duration: N/A", which ffmpeg prints when it does not know the length, gives duration 0. */
  lemma NotAvailable(pre: string, na: string, post: string)
    requires na == "N/A"
    requires !Contains(pre, DurationLabel) && !Contains(post, DurationLabel)
    ensures Duration(pre + (DurationLabel + ([' '] + (na + post)))) == 0.0
  {
    var u := na + post;
    PlainPrefix(na, post);
    assert u[0] == 'N';
    assert TrimStart(u) == u;
    RejectedAfterLabel(pre, u);
  }

  /** A one-digit hours field ("Duration: 0:01:30") does not match, and the duration is 0. */
  lemma OneDigitHour(pre: string, h: char, rest: string)
    requires IsDigit(h)
    requires !Contains(pre, DurationLabel) && !Contains(rest, DurationLabel)
    ensures Duration(pre + (DurationLabel + ([' '] + ([h, ':'] + rest)))) == 0.0
  {
    var u := [h, ':'] + rest;
    PlainPrefix([h, ':'], rest);
    assert u[0] == h && u[1] == ':';
    assert !IsWhiteSpace(u[0]);
    assert TrimStart(u) == u;
    RejectedAfterLabel(pre, u);
  }

  /**
   * Nothing but the end of the log or a line break after the two seconds
   * digits ("Duration: 00:01:30"): the unescaped `.` has nothing to match,
   * and the duration is 0.
   */
  lemma NothingAfterSeconds(pre: string, h: string, m: string, s: string, tail: string)
    requires |h| == 2 && |m| == 2 && |s| == 2 && AllDigits(h) && AllDigits(m) && AllDigits(s)
    requires |tail| == 0 || IsLineTerminator(tail[0])
    requires !Contains(pre, DurationLabel) && !Contains(tail, DurationLabel)
    ensures Duration(pre + (DurationLabel + ([' '] + (h + ":" + m + ":" + s + tail)))) == 0.0
  {
    var v := h + ":" + m + ":" + s;
    var u := v + tail;
    assert 'D' !in v by {
      assert forall i :: 0 <= i < |v| ==> v[i] == ':' || IsDigit(v[i]);
    }
    PlainPrefix(v, tail);
    assert u[0] == h[0];
    assert !IsWhiteSpace(u[0]);
    assert TrimStart(u) == u;
    if |tail| > 0 {
      assert u[8] == tail[0];
    }
    RejectedAfterLabel(pre, u);
  }
}

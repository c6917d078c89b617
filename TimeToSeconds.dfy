/**
 * `convertTimeToSeconds` of src/utils/timetoseconds.ts: split a time string
 * on ':' and combine the first three fields as hh * 3600 + mm * 60 + ss,
 * each field converted with JavaScript's unary `+`.
 */
module TimeToSeconds {
  import opened Wrappers
  import opened JsText

  /**
   * Unary `+` on a string, for the integer forms: white space around an
   * optionally signed run of digits.  White space alone (or nothing) is 0.
   * `None` stands for NaN, and also for the numeric forms the model does not
   * interpret (fractions, exponents, hex/octal/binary prefixes, Infinity).
   */
  function ToNumber(field: string): (r: Option<int>) {
    var t := TrimEnd(TrimStart(field));
    if t == "" then Some(0)
    else if AllDigits(t) then Some(Value(t))
    else if |t| > 1 && t[0] == '+' && AllDigits(t[1..]) then Some(Value(t[1..]))
    else if |t| > 1 && t[0] == '-' && AllDigits(t[1..]) then Some(0 - Value(t[1..]))
    else None
  }

  /**
   * `convertTimeToSeconds(timeStr)`; `None` is NaN, which is what the source
   * computes when a field is missing (`+undefined`) or not a number.
   */
  function ConvertTimeToSeconds(timeStr: string): Option<int> {
    var fields := Split(timeStr, ':');
    if |fields| < 3 then None else Combine(fields[0], fields[1], fields[2])
  }

  /** `(+hh) * 3600 + (+mm) * 60 + (+ss)`, NaN when any of the three is NaN. */
  function Combine(hh: string, mm: string, ss: string): Option<int> {
    Seconds(ToNumber(hh), ToNumber(mm), ToNumber(ss))
  }

  /** `h * 3600 + m * 60 + s`, NaN when any of the three is NaN. */
  function Seconds(h: Option<int>, m: Option<int>, s: Option<int>): Option<int> {
    if h.Some? && m.Some? && s.Some? then Some(h.value * 3600 + m.value * 60 + s.value) else None
  }

  /** The time string "h:m:s" written with `Show`. */
  function Format(h: nat, m: nat, s: nat): string {
    Show(h) + ":" + Show(m) + ":" + Show(s)
  }

  /** No field of a time string contains the separator. */
  predicate IsField(f: string) {
    ':' !in f
  }

  /**
   * The result depends on the first three fields only: any further fields
   * are ignored, and it is hh * 3600 + mm * 60 + ss when all three are numbers.
   */
  lemma FirstThreeFields(fields: seq<string>)
    requires |fields| >= 3
    requires forall k :: 0 <= k < |fields| ==> IsField(fields[k])
    ensures ConvertTimeToSeconds(Join(fields, ':')) == Combine(fields[0], fields[1], fields[2])
  {
    SplitJoin(fields, ':');
  }

  /** "hh:mm:ss" with three fields. */
  lemma ThreeFields(hh: string, mm: string, ss: string)
    requires IsField(hh) && IsField(mm) && IsField(ss)
    ensures ConvertTimeToSeconds(hh + ":" + mm + ":" + ss) == Combine(hh, mm, ss)
  {
    var fields := Split(hh + ":" + mm + ":" + ss, ':');
    SplitThree(hh, mm, ss);
    assert |fields| == 3 && fields[0] == hh && fields[1] == mm && fields[2] == ss;
  }

  /** Splitting "hh:mm:ss" on ':' gives the three fields. */
  lemma SplitThree(hh: string, mm: string, ss: string)
    requires IsField(hh) && IsField(mm) && IsField(ss)
    ensures Split(hh + ":" + mm + ":" + ss, ':') == [hh, mm, ss]
  {
    var tail := mm + [':'] + ss;
    SplitNoSeparator(ss, ':');
    SplitField(mm, ':', ss);
    SplitField(hh, ':', tail);
    assert hh + ":" + mm + ":" + ss == hh + [':'] + tail;
  }

  /** Fields of plain digits (an empty one included) give hh * 3600 + mm * 60 + ss of their values. */
  lemma DigitFields(hh: string, mm: string, ss: string)
    requires AllDigits(hh) && AllDigits(mm) && AllDigits(ss)
    ensures ConvertTimeToSeconds(hh + ":" + mm + ":" + ss) == Some(Value(hh) * 3600 + Value(mm) * 60 + Value(ss))
  {
    DigitsAreField(hh);
    DigitsAreField(mm);
    DigitsAreField(ss);
    ThreeFields(hh, mm, ss);
    CombineDigits(hh, mm, ss);
  }

  lemma CombineDigits(hh: string, mm: string, ss: string)
    requires AllDigits(hh) && AllDigits(mm) && AllDigits(ss)
    ensures Combine(hh, mm, ss) == Some(Value(hh) * 3600 + Value(mm) * 60 + Value(ss))
  {
    ToNumberDigits(hh);
    ToNumberDigits(mm);
    ToNumberDigits(ss);
    CombineNumbers(hh, mm, ss, Value(hh), Value(mm), Value(ss));
  }

  /** `+` of a run of digits is its decimal value ("" is 0). */
  lemma ToNumberDigits(t: string)
    requires AllDigits(t)
    ensures ToNumber(t) == Some(Value(t))
  {
    TrimDigits(t);
  }

  /** With fewer than two ':' there is no third field, and the result is NaN. */
  lemma FewerThanThreeFields(timeStr: string)
    requires Count(timeStr, ':') < 2
    ensures ConvertTimeToSeconds(timeStr) == None
  {
    SplitFields(timeStr, ':');
  }

  /** An empty field counts as 0 (`+""` is 0). */
  lemma EmptyFieldIsZero(hh: string, empty: string, ss: string, zero: string)
    requires IsField(hh) && IsField(ss)
    // The literals arrive as parameters: with literal arguments the verifier unfolds the string functions on them far beyond its budget.
    requires empty == "" && zero == "0"
    ensures ConvertTimeToSeconds(hh + ":" + empty + ":" + ss) == ConvertTimeToSeconds(hh + ":" + zero + ":" + ss)
  {
    ThreeFields(hh, empty, ss);
    ThreeFields(hh, zero, ss);
    EmptyAndZero(empty, zero);
  }

  /** `+""` and `+"0"` are both 0. */
  lemma EmptyAndZero(empty: string, zero: string)
    // The literals arrive as parameters: with literal arguments the verifier unfolds the string functions on them far beyond its budget.
    requires empty == "" && zero == "0"
    ensures ToNumber(empty) == ToNumber(zero) == Some(0)
  {
    ToNumberDigits(zero);
    assert Value(zero) == Value(zero[..0]) * 10 + DigitValue('0');
  }

  /** `+` reads back what `toString` wrote. */
  lemma ToNumberShow(n: nat)
    ensures ToNumber(Show(n)) == Some(n)
  {
    TrimDigits(Show(n));
    ValueOfShow(n);
  }

  /** A time written with `Show` converts to h * 3600 + m * 60 + s. */
  lemma FormatRoundTrip(h: nat, m: nat, s: nat)
    ensures ConvertTimeToSeconds(Format(h, m, s)) == Some(h * 3600 + m * 60 + s)
  {
    var hh, mm, ss := Show(h), Show(m), Show(s);
    ToNumberShow(h);
    ToNumberShow(m);
    ToNumberShow(s);
    DigitsAreField(hh);
    DigitsAreField(mm);
    DigitsAreField(ss);
    ThreeFields(hh, mm, ss);
    CombineNumbers(hh, mm, ss, h, m, s);
  }

  /** Three fields that are numbers combine to their weighted sum. */
  lemma CombineNumbers(hh: string, mm: string, ss: string, h: int, m: int, s: int)
    requires ToNumber(hh) == Some(h) && ToNumber(mm) == Some(m) && ToNumber(ss) == Some(s)
    ensures Combine(hh, mm, ss) == Some(h * 3600 + m * 60 + s)
  {
  }

  lemma DigitsAreField(f: string)
    requires AllDigits(f)
    ensures IsField(f)
  {
  }

  /** A number plus d; NaN stays NaN. */
  function Shift(r: Option<int>, d: int): Option<int> {
    if r.Some? then Some(r.value + d) else None
  }

  /** Raising one field's number by k raises the result by k times that field's weight. */
  lemma SecondsShift(h: Option<int>, m: Option<int>, s: Option<int>, h': Option<int>, m': Option<int>, dh: int, dm: int)
    requires h.Some? && h' == Some(h.value + dh)
    requires m.Some? ==> m' == Some(m.value + dm)
    requires m.None? ==> m' == None
    ensures Seconds(h', m', s) == Shift(Seconds(h, m, s), dh * 3600 + dm * 60)
  {
  }

  /** Replacing the hour field by one whose number is one more adds 3600. */
  lemma HourFieldShift(hh: string, hh': string, mm: string, ss: string, h: int)
    requires IsField(hh) && IsField(hh') && IsField(mm) && IsField(ss)
    requires ToNumber(hh) == Some(h) && ToNumber(hh') == Some(h + 1)
    ensures ConvertTimeToSeconds(hh' + ":" + mm + ":" + ss) == Shift(ConvertTimeToSeconds(hh + ":" + mm + ":" + ss), 3600)
  {
    ThreeFields(hh, mm, ss);
    ThreeFields(hh', mm, ss);
    CombineShift(hh, hh', mm, mm, ss, 1, 0);
  }

  /** Replacing the minute field by one whose number is one more adds 60. */
  lemma MinuteFieldShift(hh: string, mm: string, mm': string, ss: string, m: int)
    requires IsField(hh) && IsField(mm) && IsField(mm') && IsField(ss)
    requires ToNumber(mm) == Some(m) && ToNumber(mm') == Some(m + 1)
    ensures ConvertTimeToSeconds(hh + ":" + mm' + ":" + ss) == Shift(ConvertTimeToSeconds(hh + ":" + mm + ":" + ss), 60)
  {
    ThreeFields(hh, mm, ss);
    ThreeFields(hh, mm', ss);
    if ToNumber(hh).Some? {
      CombineShift(hh, hh, mm, mm', ss, 0, 1);
    }
  }

  /** `SecondsShift` for the fields' numbers: the result moves by dh * 3600 + dm * 60. */
  lemma CombineShift(hh: string, hh': string, mm: string, mm': string, ss: string, dh: int, dm: int)
    requires ToNumber(hh).Some? && ToNumber(hh') == Some(ToNumber(hh).value + dh)
    requires ToNumber(mm).Some? ==> ToNumber(mm') == Some(ToNumber(mm).value + dm)
    requires ToNumber(mm).None? ==> ToNumber(mm') == None
    ensures Combine(hh', mm', ss) == Shift(Combine(hh, mm, ss), dh * 3600 + dm * 60)
  {
    SecondsShift(ToNumber(hh), ToNumber(mm), ToNumber(ss), ToNumber(hh'), ToNumber(mm'), dh, dm);
  }

  /** One more hour is 3600 seconds more, whatever the other two fields hold. */
  lemma NextHour(h: nat, mm: string, ss: string)
    requires IsField(mm) && IsField(ss)
    ensures ConvertTimeToSeconds(Show(h + 1) + ":" + mm + ":" + ss) ==
            Shift(ConvertTimeToSeconds(Show(h) + ":" + mm + ":" + ss), 3600)
  {
    ToNumberShow(h);
    ToNumberShow(h + 1);
    DigitsAreField(Show(h));
    DigitsAreField(Show(h + 1));
    HourFieldShift(Show(h), Show(h + 1), mm, ss, h);
  }

  /** One more minute is 60 seconds more, whatever the other two fields hold. */
  lemma NextMinute(hh: string, m: nat, ss: string)
    requires IsField(hh) && IsField(ss)
    ensures ConvertTimeToSeconds(hh + ":" + Show(m + 1) + ":" + ss) ==
            Shift(ConvertTimeToSeconds(hh + ":" + Show(m) + ":" + ss), 60)
  {
    ToNumberShow(m);
    ToNumberShow(m + 1);
    DigitsAreField(Show(m));
    DigitsAreField(Show(m + 1));
    MinuteFieldShift(hh, Show(m), Show(m + 1), ss, m);
  }
}

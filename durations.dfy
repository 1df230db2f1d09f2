/**
  `format_seconds` of utils.py over whole seconds: `divmod` by 60, 60 and 24,
  then the days, hours and minutes parts written only when positive and the
  seconds part always, with two decimals.
*/
module Durations {
  import opened Wrappers
  import opened PyStr

  const SECONDS_PER_DAY := 86_400
  const SECONDS_PER_HOUR := 3_600
  const SECONDS_PER_MINUTE := 60

  datatype Span = Span(days: int, hours: nat, minutes: nat, seconds: nat)

  predicate InRange(p: Span) {
    p.hours < 24 && p.minutes < 60 && p.seconds < 60
  }

  function TotalSeconds(p: Span): int {
    p.days * SECONDS_PER_DAY + p.hours * SECONDS_PER_HOUR + p.minutes * SECONDS_PER_MINUTE + p.seconds
  }

  /**
    The three `divmod` calls. Python's `divmod` floors, which for a positive
    divisor is Dafny's Euclidean `/` and `%`, so negative counts are covered too.
  */
  function SplitSeconds(seconds: int): (p: Span)
    ensures TotalSeconds(p) == seconds && InRange(p)
  {
    var minutes, secs := seconds / 60, seconds % 60;
    var hours, mins := minutes / 60, minutes % 60;
    var days, hrs := hours / 24, hours % 24;
    Span(days, hrs, mins, secs)
  }

  /** The split is the only in-range one. */
  lemma SplitSecondsUnique(seconds: int, p: Span)
    requires InRange(p) && TotalSeconds(p) == seconds
    ensures SplitSeconds(seconds) == p
  {
    var q := SplitSeconds(seconds);
    var rest := p.hours * SECONDS_PER_HOUR + p.minutes * SECONDS_PER_MINUTE + p.seconds;
    var restQ := q.hours * SECONDS_PER_HOUR + q.minutes * SECONDS_PER_MINUTE + q.seconds;
    assert 0 <= rest < SECONDS_PER_DAY && 0 <= restQ < SECONDS_PER_DAY;
    assert p.days == q.days;
    assert p.hours == q.hours;
    assert p.minutes == q.minutes;
  }

  /** `"{:d} <unit>, ".format(n)` when `n > 0`, nothing otherwise. */
  function Part(n: int, unit: string): string {
    if n > 0 then NatToString(n) + unit else ""
  }

  function FormatSeconds(seconds: int): string {
    var p := SplitSeconds(seconds);
    Part(p.days, " days, ") + Part(p.hours, " hours, ") + Part(p.minutes, " minutes, ")
      + NatToString(p.seconds) + ".00 seconds"
  }

  /** The parts a reader finds in a duration text; an absent part is None. */
  datatype Fields = Fields(days: Option<nat>, hours: Option<nat>, minutes: Option<nat>, seconds: nat)

  function Shown(n: int): Option<nat> {
    if n > 0 then Some(n) else None
  }

  /** Reads `<digits><unit>` at the front of `s`, if it is there. */
  function ReadField(s: string, unit: string): (Option<nat>, string) {
    var k := DigitSpan(s);
    if k > 0 && k + |unit| <= |s| && s[k..k + |unit|] == unit then (Some(DigitsValue(s[..k])), s[k + |unit|..])
    else (None, s)
  }

  /** Reads `[D days, ][H hours, ][M minutes, ]S.00 seconds`. */
  function ReadDuration(s: string): Option<Fields> {
    var (days, afterDays) := ReadField(s, " days, ");
    var (hours, afterHours) := ReadField(afterDays, " hours, ");
    var (minutes, afterMinutes) := ReadField(afterHours, " minutes, ");
    var k := DigitSpan(afterMinutes);
    if k > 0 && afterMinutes[k..] == ".00 seconds" then Some(Fields(days, hours, minutes, DigitsValue(afterMinutes[..k])))
    else None
  }

  function FieldSeconds(f: Fields): int {
    (if f.days.Some? then f.days.value * SECONDS_PER_DAY else 0)
    + (if f.hours.Some? then f.hours.value * SECONDS_PER_HOUR else 0)
    + (if f.minutes.Some? then f.minutes.value * SECONDS_PER_MINUTE else 0)
    + f.seconds
  }

  /** A text that starts with a number followed by a unit word or the seconds suffix. */
  predicate Leads(t: string, w: nat, next: string, rest: string) {
    t == NatToString(w) + next + rest && |next| >= 2 && !IsDigit(next[0])
  }

  /** Putting a part in front keeps the text led by a number. */
  lemma PartLeads(v: int, unit: string, t: string, w: nat, next: string, rest: string)
    returns (w': nat, next': string, rest': string)
    requires |unit| >= 2 && !IsDigit(unit[0]) && Leads(t, w, next, rest)
    ensures Leads(Part(v, unit) + t, w', next', rest')
    ensures next' == if v > 0 then unit else next
  {
    if v > 0 {
      w', next', rest' := v, unit, t;
    } else {
      w', next', rest' := w, next, rest;
      assert Part(v, unit) + t == t;
    }
  }

  lemma ReadFieldOf(digits: string, unit: string, t: string)
    requires IsNumeric(digits) && |unit| >= 1 && !IsDigit(unit[0])
    ensures ReadField(digits + (unit + t), unit) == (Some(DigitsValue(digits)), t)
  {
    DigitSpanOf(digits, unit + t);
    Pieces(digits, unit, t);
  }

  /** Where the three pieces of `a + (b + c)` sit. */
  lemma Pieces(a: string, b: string, c: string)
    ensures var s := a + (b + c);
      s[..|a|] == a && s[|a|..|a| + |b|] == b && s[|a| + |b|..] == c
  {
  }

  lemma ReadFieldMismatch(digits: string, next: string, rest: string, unit: string)
    requires IsNumeric(digits) && |next| >= 2 && !IsDigit(next[0]) && |unit| >= 2 && next[1] != unit[1]
    ensures ReadField(digits + (next + rest), unit) == (None, digits + (next + rest))
  {
    var s := digits + (next + rest);
    DigitSpanOf(digits, next + rest);
    var k := |digits|;
    assert k + 1 < |s| && s[k + 1] == next[1];
    assert k + |unit| <= |s| ==> s[k..k + |unit|][1] == next[1];
  }

  lemma ReadShownPart(v: int, unit: string, t: string)
    requires v > 0 && |unit| >= 2 && !IsDigit(unit[0])
    ensures ReadField(Part(v, unit) + t, unit) == (Some(v as nat), t)
  {
    assert Part(v, unit) + t == NatToString(v) + (unit + t);
    ReadFieldOf(NatToString(v), unit, t);
  }

  lemma ReadHiddenPart(v: int, unit: string, t: string, w: nat, next: string, rest: string)
    requires v <= 0 && |unit| >= 2 && Leads(t, w, next, rest) && next[1] != unit[1]
    ensures ReadField(Part(v, unit) + t, unit) == (None, t)
  {
    assert Part(v, unit) + t == t;
    assert t == NatToString(w) + (next + rest);
    ReadFieldMismatch(NatToString(w), next, rest, unit);
  }

  /** A part is read back exactly when it was written; reading stops in front of what follows it. */
  lemma ReadPart(v: int, unit: string, t: string, w: nat, next: string, rest: string)
    requires |unit| >= 2 && !IsDigit(unit[0]) && Leads(t, w, next, rest) && next[1] != unit[1]
    ensures ReadField(Part(v, unit) + t, unit) == (Shown(v), t)
  {
    if v > 0 {
      ReadShownPart(v, unit, t);
    } else {
      ReadHiddenPart(v, unit, t, w, next, rest);
    }
  }

  lemma Associate(a: string, b: string, c: string, d: string, e: string)
    ensures a + b + c + d + e == a + (b + (c + (d + e)))
  {
  }

  /**
    What a reader finds in the text: the days, hours and minutes parts exactly
    when they are positive, with their values, and always the seconds.
  */
  lemma {:induction false} ReadFormatSeconds(seconds: int)
    ensures var p := SplitSeconds(seconds);
      ReadDuration(FormatSeconds(seconds)) == Some(Fields(Shown(p.days), Shown(p.hours), Shown(p.minutes), p.seconds))
  {
    var p := SplitSeconds(seconds);
    var s := NatToString(p.seconds) + ".00 seconds";
    assert Leads(s, p.seconds, ".00 seconds", "");
    var m := Part(p.minutes, " minutes, ") + s;
    var wm, nm, rm := PartLeads(p.minutes, " minutes, ", s, p.seconds, ".00 seconds", "");
    var h := Part(p.hours, " hours, ") + m;
    var wh, nh, rh := PartLeads(p.hours, " hours, ", m, wm, nm, rm);
    var d := Part(p.days, " days, ") + h;
    Associate(Part(p.days, " days, "), Part(p.hours, " hours, "), Part(p.minutes, " minutes, "),
      NatToString(p.seconds), ".00 seconds");
    ReadPart(p.days, " days, ", h, wh, nh, rh);
    ReadPart(p.hours, " hours, ", m, wm, nm, rm);
    ReadPart(p.minutes, " minutes, ", s, p.seconds, ".00 seconds", "");
    var digits := NatToString(p.seconds);
    DigitSpanOf(digits, ".00 seconds");
    assert s[..|digits|] == digits && s[|digits|..] == ".00 seconds";
  }

  /** For a non-negative count, the parts read back add up to the count. */
  lemma FormatSecondsRoundTrip(seconds: int)
    requires seconds >= 0
    ensures ReadDuration(FormatSeconds(seconds)).Some?
    ensures FieldSeconds(ReadDuration(FormatSeconds(seconds)).value) == seconds
  {
    ReadFormatSeconds(seconds);
    var p := SplitSeconds(seconds);
    assert p.days >= 0;
  }

  /** A negative count has no days part: it is written as the count modulo one day. */
  lemma FormatSecondsNegative(seconds: int)
    requires seconds < 0
    ensures FormatSeconds(seconds) == FormatSeconds(seconds % SECONDS_PER_DAY)
  {
    var p := SplitSeconds(seconds);
    var q := Span(0, p.hours, p.minutes, p.seconds);
    assert p.days < 0;
    assert TotalSeconds(q) == seconds % SECONDS_PER_DAY;
    SplitSecondsUnique(seconds % SECONDS_PER_DAY, q);
  }

  /** Under a minute only the seconds part is written. */
  lemma FormatSecondsExampleSeconds()
    ensures FormatSeconds(59) == "59.00 seconds"
  {
    assert SplitSeconds(59) == Span(0, 0, 0, 59);
    assert NatToString(59) == "59";
  }

  /** A zero minutes part is left out, the zero seconds part is not. */
  lemma FormatSecondsExampleHour()
    ensures FormatSeconds(3_600) == "1 hours, 0.00 seconds"
  {
    assert SplitSeconds(3_600) == Span(0, 1, 0, 0);
    assert Part(1, " hours, ") == "1 hours, ";
    assert NatToString(0) == "0";
  }

  /** Every part is written when all four are positive. */
  lemma FormatSecondsExampleDay()
    ensures FormatSeconds(90_061) == "1 days, 1 hours, 1 minutes, 1.00 seconds"
  {
    SplitSecondsUnique(90_061, Span(1, 1, 1, 1));
    FormatAllOnes(90_061);
  }

  lemma FormatAllOnes(seconds: int)
    requires SplitSeconds(seconds) == Span(1, 1, 1, 1)
    ensures FormatSeconds(seconds) == "1 days, 1 hours, 1 minutes, 1.00 seconds"
  {
    FormatSecondsOf(seconds, Span(1, 1, 1, 1));
    OnePart(" days, ");
    OnePart(" hours, ");
    OnePart(" minutes, ");
    assert NatToString(1) == "1";
  }

  lemma OnePart(unit: string)
    ensures Part(1, unit) == "1" + unit
  {
    assert NatToString(1) == "1";
  }

  lemma FormatSecondsOf(seconds: int, p: Span)
    requires SplitSeconds(seconds) == p
    ensures FormatSeconds(seconds) == Part(p.days, " days, ") + Part(p.hours, " hours, ")
      + Part(p.minutes, " minutes, ") + NatToString(p.seconds) + ".00 seconds"
  {
  }
}

/**
  `format_timestamp` of utils.py: a non-negative millisecond count split into
  hours, minutes, seconds and milliseconds by successive integer division and
  rendered as `[HH:]MM:SS,mmm`, together with a reader for that text.
*/
module Timestamps {
  import opened Wrappers
  import opened PyStr

  const MS_PER_HOUR := 3_600_000
  const MS_PER_MINUTE := 60_000
  const MS_PER_SECOND := 1_000

  datatype Clock = Clock(hours: nat, minutes: nat, seconds: nat, millis: nat)

  /** The fields a clock reading must keep below their limits. */
  predicate InRange(c: Clock) {
    c.minutes < 60 && c.seconds < 60 && c.millis < 1000
  }

  function Millis(c: Clock): int {
    c.hours * MS_PER_HOUR + c.minutes * MS_PER_MINUTE + c.seconds * MS_PER_SECOND + c.millis
  }

  /** The successive `//` and `-=` steps of the source. */
  function Decompose(ms: int): (c: Clock)
    requires ms >= 0
    ensures Millis(c) == ms && InRange(c)
  {
    var hours := ms / MS_PER_HOUR;
    var afterHours := ms - hours * MS_PER_HOUR;
    var minutes := afterHours / MS_PER_MINUTE;
    var afterMinutes := afterHours - minutes * MS_PER_MINUTE;
    var seconds := afterMinutes / MS_PER_SECOND;
    Clock(hours, minutes, seconds, afterMinutes - seconds * MS_PER_SECOND)
  }

  /** Any in-range clock reading of `ms` is the one Decompose finds. */
  lemma DecomposeUnique(ms: int, c: Clock)
    requires ms >= 0 && InRange(c) && Millis(c) == ms
    ensures Decompose(ms) == c
  {
    var d := Decompose(ms);
    var rest := c.minutes * MS_PER_MINUTE + c.seconds * MS_PER_SECOND + c.millis;
    var restD := d.minutes * MS_PER_MINUTE + d.seconds * MS_PER_SECOND + d.millis;
    assert 0 <= rest < MS_PER_HOUR && 0 <= restD < MS_PER_HOUR;
    assert c.hours == d.hours;
    assert c.minutes == d.minutes;
    assert c.seconds == d.seconds;
  }

  /** The hours field is non-zero exactly from one hour on. */
  lemma HoursPositive(ms: int)
    requires ms >= 0
    ensures Decompose(ms).hours > 0 <==> ms >= MS_PER_HOUR
  {
  }

  /** The hours field with its colon, present when asked for or when `hours > 0`. */
  function HoursMarker(c: Clock, alwaysIncludeHours: bool): string {
    if alwaysIncludeHours || c.hours > 0 then ZeroPad(c.hours, 2) + ":" else ""
  }

  /** `MM:SS,mmm`, the part that is always present. */
  function MinutesToMillis(c: Clock): string {
    ZeroPad(c.minutes, 2) + ":" + ZeroPad(c.seconds, 2) + "," + ZeroPad(c.millis, 3)
  }

  /** `format_timestamp(ms / 1000, alwaysIncludeHours)`, for an already rounded millisecond count. */
  function FormatTimestamp(ms: int, alwaysIncludeHours: bool): string
    requires ms >= 0
  {
    var c := Decompose(ms);
    HoursMarker(c, alwaysIncludeHours) + MinutesToMillis(c)
  }

  /** Reads `[H..H:]MM:SS,mmm` back to milliseconds; the hours field, when present, has two digits or more. */
  function ParseTimestamp(s: string): Option<nat> {
    if |s| < 9 then None
    else
      var head, tail := s[..|s| - 9], s[|s| - 9..];
      if !(AllDigits(tail[..2]) && tail[2] == ':' && AllDigits(tail[3..5]) && tail[5] == ','
           && AllDigits(tail[6..]))
      then None
      else
        var minutes, seconds, millis := DigitsValue(tail[..2]), DigitsValue(tail[3..5]), DigitsValue(tail[6..]);
        if minutes >= 60 || seconds >= 60 then None
        else if head == [] then Some(Millis(Clock(0, minutes, seconds, millis)))
        else if |head| >= 3 && head[|head| - 1] == ':' && AllDigits(head[..|head| - 1]) then
          Some(Millis(Clock(DigitsValue(head[..|head| - 1]), minutes, seconds, millis)))
        else None
  }

  /** Two-digit and three-digit fields have exactly that width. */
  lemma FieldWidths(c: Clock)
    requires InRange(c)
    ensures |ZeroPad(c.minutes, 2)| == 2 && |ZeroPad(c.seconds, 2)| == 2 && |ZeroPad(c.millis, 3)| == 3
    ensures |ZeroPad(c.hours, 2)| >= 2
  {
    assert Pow10(2) == 100 && Pow10(3) == 1000 by {
      assert Pow10(1) == 10;
    }
    NatToStringLength(c.minutes, 2);
    NatToStringLength(c.seconds, 2);
    NatToStringLength(c.millis, 3);
  }

  /** Where the three fields sit in `MM:SS,mmm`. */
  lemma TailFields(m: string, sec: string, x: string)
    requires |m| == 2 && |sec| == 2 && |x| == 3
    ensures var t := m + ":" + sec + "," + x;
      && |t| == 9 && t[..2] == m && t[2] == ':' && t[3..5] == sec && t[5] == ',' && t[6..] == x
  {
  }

  /** The last nine characters of `head + t`, for `t` of length nine. */
  lemma SplitTail(head: string, t: string)
    requires |t| == 9
    ensures var r := head + t; |r| >= 9 && r[..|r| - 9] == head && r[|r| - 9..] == t
  {
  }

  /** The hours marker is the hours digits and a colon. */
  lemma MarkerFields(h: string)
    requires |h| >= 2
    ensures var head := h + ":"; |head| >= 3 && head[|head| - 1] == ':' && head[..|head| - 1] == h
  {
  }

  /** The reader on a text with the expected shape. */
  lemma ParseOf(head: string, m: string, sec: string, x: string)
    requires |m| == 2 && |sec| == 2 && |x| == 3 && AllDigits(m) && AllDigits(sec) && AllDigits(x)
    requires DigitsValue(m) < 60 && DigitsValue(sec) < 60
    requires head == [] || (|head| >= 3 && head[|head| - 1] == ':' && AllDigits(head[..|head| - 1]))
    ensures ParseTimestamp(head + (m + ":" + sec + "," + x)) == Some(Millis(Clock(
      if head == [] then 0 else DigitsValue(head[..|head| - 1]), DigitsValue(m), DigitsValue(sec), DigitsValue(x))))
  {
    var t := m + ":" + sec + "," + x;
    TailFields(m, sec, x);
    SplitTail(head, t);
  }

  /** The fields of a formatted timestamp. */
  lemma FormatFields(ms: int, alwaysIncludeHours: bool)
    requires ms >= 0
    ensures var c := Decompose(ms);
      var m, sec, x := ZeroPad(c.minutes, 2), ZeroPad(c.seconds, 2), ZeroPad(c.millis, 3);
      var head := HoursMarker(c, alwaysIncludeHours);
      && FormatTimestamp(ms, alwaysIncludeHours) == head + (m + ":" + sec + "," + x)
      && |m| == 2 && |sec| == 2 && |x| == 3
      && (head == [] <==> !alwaysIncludeHours && ms < MS_PER_HOUR)
      && (head != [] ==> |head| >= 3 && head[|head| - 1] == ':' && head[..|head| - 1] == ZeroPad(c.hours, 2))
  {
    var c := Decompose(ms);
    FieldWidths(c);
    if alwaysIncludeHours || c.hours > 0 {
      MarkerFields(ZeroPad(c.hours, 2));
    }
  }

  /**
    The layout of the text: minutes, seconds and milliseconds in the last nine
    characters as `MM:SS,mmm` with exactly 2, 2 and 3 digits; before them the hours
    field of at least two digits and a colon, present exactly when it is asked
    for or the count reaches one hour.
  */
  lemma TimestampLayout(ms: int, alwaysIncludeHours: bool)
    requires ms >= 0
    ensures var r, c := FormatTimestamp(ms, alwaysIncludeHours), Decompose(ms);
      && |r| >= 9
      && var t := r[|r| - 9..];
      && AllDigits(t[..2]) && t[2] == ':' && AllDigits(t[3..5]) && t[5] == ',' && AllDigits(t[6..])
      && DigitsValue(t[..2]) == c.minutes && DigitsValue(t[3..5]) == c.seconds
      && DigitsValue(t[6..]) == c.millis
      && (|r| > 9 <==> alwaysIncludeHours || ms >= MS_PER_HOUR)
      && (|r| > 9 ==> |r| >= 12 && r[|r| - 10] == ':' && AllDigits(r[..|r| - 10])
                      && DigitsValue(r[..|r| - 10]) == c.hours)
  {
    FormatFields(ms, alwaysIncludeHours);
    var c := Decompose(ms);
    var m, sec, x := ZeroPad(c.minutes, 2), ZeroPad(c.seconds, 2), ZeroPad(c.millis, 3);
    var head := HoursMarker(c, alwaysIncludeHours);
    TailFields(m, sec, x);
    SplitTail(head, m + ":" + sec + "," + x);
    var r := head + (m + ":" + sec + "," + x);
    assert |head| > 0 ==> r[..|r| - 10] == head[..|head| - 1] && r[|r| - 10] == head[|head| - 1];
  }

  /** Reading a formatted timestamp gives back the millisecond count. */
  lemma ParseFormatTimestamp(ms: int, alwaysIncludeHours: bool)
    requires ms >= 0
    ensures ParseTimestamp(FormatTimestamp(ms, alwaysIncludeHours)) == Some(ms)
  {
    FormatFields(ms, alwaysIncludeHours);
    var c := Decompose(ms);
    var m, sec, x := ZeroPad(c.minutes, 2), ZeroPad(c.seconds, 2), ZeroPad(c.millis, 3);
    var head := HoursMarker(c, alwaysIncludeHours);
    ParseOf(head, m, sec, x);
    assert head == [] ==> c.hours == 0;
  }

  /** Two counts with the same text are equal, whatever the hours setting. */
  lemma FormatTimestampInjective(a: int, b: int, alwaysA: bool, alwaysB: bool)
    requires a >= 0 && b >= 0
    requires FormatTimestamp(a, alwaysA) == FormatTimestamp(b, alwaysB)
    ensures a == b
  {
    ParseFormatTimestamp(a, alwaysA);
    ParseFormatTimestamp(b, alwaysB);
  }

  predicate TimestampChar(c: char) {
    IsDigit(c) || c == ':' || c == ','
  }

  /** The text uses digits, `:` and `,` only (no space, no newline). */
  lemma TimestampChars(ms: int, alwaysIncludeHours: bool)
    requires ms >= 0
    ensures forall k :: 0 <= k < |FormatTimestamp(ms, alwaysIncludeHours)| ==>
      TimestampChar(FormatTimestamp(ms, alwaysIncludeHours)[k])
  {
    var c := Decompose(ms);
    var h, m, s, x := ZeroPad(c.hours, 2), ZeroPad(c.minutes, 2), ZeroPad(c.seconds, 2), ZeroPad(c.millis, 3);
    var r := FormatTimestamp(ms, alwaysIncludeHours);
    var head := HoursMarker(c, alwaysIncludeHours);
    assert r == head + (m + ":" + s + "," + x);
    assert forall k :: 0 <= k < |head| ==> TimestampChar(head[k]);
  }

  /** The text of a count given by an in-range clock reading. */
  lemma FormatOfClock(ms: int, c: Clock, alwaysIncludeHours: bool, text: string)
    requires ms >= 0 && InRange(c) && Millis(c) == ms
    requires HoursMarker(c, alwaysIncludeHours) + MinutesToMillis(c) == text
    ensures FormatTimestamp(ms, alwaysIncludeHours) == text
  {
    DecomposeUnique(ms, c);
  }

  /** A one-digit field is padded with one zero. */
  lemma PadDigit(d: nat)
    requires d < 10
    ensures ZeroPad(d, 2) == ['0', DigitChar(d)]
  {
    assert NatToString(d) == [DigitChar(d)];
    assert Zeros(1) == "0";
  }

  /** The text of a clock reading from the texts of its fields. */
  lemma ClockText(c: Clock, alwaysIncludeHours: bool, h: string, m: string, sec: string, x: string)
    requires ZeroPad(c.hours, 2) == h && ZeroPad(c.minutes, 2) == m
    requires ZeroPad(c.seconds, 2) == sec && ZeroPad(c.millis, 3) == x
    ensures HoursMarker(c, alwaysIncludeHours) + MinutesToMillis(c)
      == (if alwaysIncludeHours || c.hours > 0 then h + ":" else "") + (m + ":" + sec + "," + x)
  {
  }

  lemma Pad400()
    ensures ZeroPad(400, 3) == "400"
  {
    assert NatToString(40) == "40";
  }

  lemma Pad4()
    ensures ZeroPad(4, 3) == "004"
  {
    assert NatToString(4) == "4";
    assert Zeros(2) == "00";
  }

  lemma TextOfHoursClock()
    ensures HoursMarker(Clock(1, 2, 5, 400), false) + MinutesToMillis(Clock(1, 2, 5, 400)) == "01:02:05,400"
    ensures HoursMarker(Clock(1, 2, 5, 400), true) + MinutesToMillis(Clock(1, 2, 5, 400)) == "01:02:05,400"
  {
    PadDigit(1);
    PadDigit(2);
    PadDigit(5);
    Pad400();
    ClockText(Clock(1, 2, 5, 400), false, "01", "02", "05", "400");
    ClockText(Clock(1, 2, 5, 400), true, "01", "02", "05", "400");
  }

  lemma TextOfMinutesClock()
    ensures HoursMarker(Clock(0, 1, 5, 4), false) + MinutesToMillis(Clock(0, 1, 5, 4)) == "01:05,004"
    ensures HoursMarker(Clock(0, 1, 5, 4), true) + MinutesToMillis(Clock(0, 1, 5, 4)) == "00:01:05,004"
  {
    PadDigit(0);
    PadDigit(1);
    PadDigit(5);
    Pad4();
    ClockText(Clock(0, 1, 5, 4), false, "00", "01", "05", "004");
    ClockText(Clock(0, 1, 5, 4), true, "00", "01", "05", "004");
  }

  /** 3 725 400 ms is one hour, two minutes, five seconds and 400 ms. */
  lemma FormatTimestampExampleHours()
    ensures FormatTimestamp(3_725_400, false) == "01:02:05,400"
    ensures FormatTimestamp(3_725_400, true) == "01:02:05,400"
  {
    TextOfHoursClock();
    FormatOfClock(3_725_400, Clock(1, 2, 5, 400), false, "01:02:05,400");
    FormatOfClock(3_725_400, Clock(1, 2, 5, 400), true, "01:02:05,400");
  }

  /** Under an hour the hours field is written only when asked for. */
  lemma FormatTimestampExampleMinutes()
    ensures FormatTimestamp(65_004, false) == "01:05,004"
    ensures FormatTimestamp(65_004, true) == "00:01:05,004"
  {
    TextOfMinutesClock();
    FormatOfClock(65_004, Clock(0, 1, 5, 4), false, "01:05,004");
    FormatOfClock(65_004, Clock(0, 1, 5, 4), true, "00:01:05,004");
  }
}

/**
 * The pure parts of the slot generator in src/lib/booking-logic.ts: the weekday key,
 * the "H:MM-H:MM" business-hours string, the hour-by-hour candidate starts, the
 * zero-padded "HH:MM" rendering of a start, and the time-of-day preference filter.
 */
module Hours {
  import opened Wrappers
  import opened Strings

  datatype Weekday = Mon | Tue | Wed | Thu | Fri | Sat | Sun

  /** The key under which a business stores the hours of a weekday. */
  function DayKey(d: Weekday): string
  {
    match d
    case Mon => "mon"
    case Tue => "tue"
    case Wed => "wed"
    case Thu => "thu"
    case Fri => "fri"
    case Sat => "sat"
    case Sun => "sun"
  }

  datatype Preference = Morning | Afternoon | Evening | Any

  /** A time of day as the numbers read out of an hours string (not range-checked, as in the source). */
  datatype Time = Time(hour: nat, minute: nat)

  /** `t` comes strictly before `u`: the slot loop's condition. */
  predicate Before(t: Time, u: Time)
  {
    t.hour < u.hour || (t.hour == u.hour && t.minute < u.minute)
  }

  /** `const [h, m] = s.split(':').map(Number)`, refusing the text when it has
   *  no `:` or when either of the first two parts is not a non-empty digit string; later parts are ignored. */
  function ParseTime(s: string): Option<Time>
  {
    var parts := Split(s, ':');
    if |parts| < 2 then None
    else
      var hour, minute := ParseNumber(parts[0]), ParseNumber(parts[1]);
      if hour.Some? && minute.Some? then Some(Time(hour.value, minute.value)) else None
  }

  /** `const [open, close] = hours.split('-')` followed by `ParseTime` of each half. */
  function ParseHours(s: string): Option<(Time, Time)>
  {
    var parts := Split(s, '-');
    if |parts| < 2 then None
    else
      var open, close := ParseTime(parts[0]), ParseTime(parts[1]);
      if open.Some? && close.Some? then Some((open.value, close.value)) else None
  }

  /** Hours text without a '-' has no closing time and is refused. */
  lemma ParseHoursNeedsDash(s: string)
    requires '-' !in s
    ensures ParseHours(s) == None
  {
    SplitWithout(s, '-');
  }

  /** A time without a ':' has no minute and is refused. */
  lemma ParseTimeNeedsColon(s: string)
    requires ':' !in s
    ensures ParseTime(s) == None
  {
    SplitWithout(s, ':');
  }

  lemma DigitsExclude(s: string, c: char)
    requires AllDigits(s) && !IsDigit(c)
    ensures c !in s
  {
  }

  lemma ParseTimeOfDigits(a: string, b: string)
    requires a != [] && b != [] && AllDigits(a) && AllDigits(b)
    ensures '-' !in a + ":" + b
    ensures ParseTime(a + ":" + b) == Some(Time(DigitsValue(a), DigitsValue(b)))
  {
    DigitsExclude(a, ':');
    DigitsExclude(b, ':');
    DigitsExclude(a, '-');
    DigitsExclude(b, '-');
    assert a + ":" + b == a + [':'] + b;
    SplitAt(a, ':', b);
    SplitWithout(b, ':');
  }

  lemma ParseHoursAt(open: string, close: string)
    requires '-' !in open && '-' !in close
    ensures ParseHours(open + ['-'] + close)
         == if ParseTime(open).Some? && ParseTime(close).Some?
            then Some((ParseTime(open).value, ParseTime(close).value)) else None
  {
    SplitAt(open, '-', close);
    SplitWithout(close, '-');
  }

  /** The text "a:b-c:d" of an hours entry with the four given digit groups. */
  function HoursText(a: string, b: string, c: string, d: string): string
  {
    a + ":" + b + "-" + c + ":" + d
  }

  /** Four digit groups written "a:b-c:d" parse to the opening and closing times they denote. */
  lemma ParseHoursOfDigits(a: string, b: string, c: string, d: string)
    requires a != [] && b != [] && c != [] && d != []
    requires AllDigits(a) && AllDigits(b) && AllDigits(c) && AllDigits(d)
    ensures ParseHours(HoursText(a, b, c, d))
         == Some((Time(DigitsValue(a), DigitsValue(b)), Time(DigitsValue(c), DigitsValue(d))))
  {
    var open, close := a + ":" + b, c + ":" + d;
    ParseTimeOfDigits(a, b);
    ParseTimeOfDigits(c, d);
    assert HoursText(a, b, c, d) == open + ['-'] + close;
    ParseHoursAt(open, close);
  }

  /** How a business writes its opening hours for a day, e.g. "9:00-17:00". */
  function FormatHours(open: Time, close: Time): string
  {
    HoursText(Decimal(open.hour), Pad2(open.minute), Decimal(close.hour), Pad2(close.minute))
  }

  /** Parsing an hours entry written in that form gives back its opening and closing times. */
  lemma ParseFormatHours(open: Time, close: Time)
    ensures ParseHours(FormatHours(open, close)) == Some((open, close))
  {
    ParseHoursOfDigits(Decimal(open.hour), Pad2(open.minute), Decimal(close.hour), Pad2(close.minute));
    DecimalRoundTrip(open.hour);
    DecimalRoundTrip(close.hour);
    Pad2RoundTrip(open.minute);
    Pad2RoundTrip(close.minute);
  }

  /** The slot string: `${hour.toString().padStart(2,'0')}:${minute.toString().padStart(2,'0')}`. */
  function FormatTime(hour: nat, minute: nat): string
  {
    Pad2(hour) + ":" + Pad2(minute)
  }

  /** `parseInt(time.split(':')[0])`, `None` standing for `NaN`. */
  function HourOf(time: string): Option<nat>
  {
    ParseInt(Split(time, ':')[0])
  }

  /** Whether a slot string falls in the requested part of the day (`matchesTimePreference`). */
  function MatchesTimePreference(time: string, pref: Option<Preference>): (ok: bool)
    ensures pref.None? || pref == Some(Any) ==> ok
    ensures HourOf(time).None? ==> (ok <==> pref.None? || pref == Some(Any))
    ensures ok && pref.Some? && pref.value != Any ==> HourOf(time).Some? && 6 <= HourOf(time).value < 21
  {
    if pref.None? || pref == Some(Any) then true
    else
      match HourOf(time)
      // every comparison with NaN is false
      case None => false
      case Some(hour) =>
        match pref.value
        case Morning => 6 <= hour < 12
        case Afternoon => 12 <= hour < 17
        case Evening => 17 <= hour < 21
        case Any => true
  }

  lemma FormattedParts(hour: nat, minute: nat)
    ensures Split(FormatTime(hour, minute), ':') == [Pad2(hour), Pad2(minute)]
  {
    var h, m := Pad2(hour), Pad2(minute);
    assert ':' !in h by { assert forall i :: 0 <= i < |h| ==> IsDigit(h[i]); }
    assert ':' !in m by { assert forall i :: 0 <= i < |m| ==> IsDigit(m[i]); }
    assert FormatTime(hour, minute) == h + [':'] + m;
    SplitAt(h, ':', m);
    SplitWithout(m, ':');
  }

  /** Reading the hour back out of a formatted slot gives the hour it was made from. */
  lemma HourOfFormatTime(hour: nat, minute: nat)
    ensures HourOf(FormatTime(hour, minute)) == Some(hour)
  {
    FormattedParts(hour, minute);
    LeadingDigitsOfDigits(Pad2(hour));
    Pad2RoundTrip(hour);
  }

  /** A formatted start below hour 100 is exactly two digits, a colon and two digits, zero-padded. */
  lemma FormatTimeShape(hour: nat, minute: nat)
    requires hour < 100 && minute < 100
    ensures var t := FormatTime(hour, minute);
      && |t| == 5 && t[2] == ':'
      && IsDigit(t[0]) && IsDigit(t[1]) && IsDigit(t[3]) && IsDigit(t[4])
      && DigitsValue(t[..2]) == hour && DigitsValue(t[3..]) == minute
  {
    var t := FormatTime(hour, minute);
    assert t[..2] == Pad2(hour);
    assert t[3..] == Pad2(minute);
    Pad2RoundTrip(hour);
    Pad2RoundTrip(minute);
  }

  /** The preference windows, in hours, for a slot the generator formats. */
  lemma PreferenceWindows(hour: nat, minute: nat)
    ensures var t := FormatTime(hour, minute);
      && MatchesTimePreference(t, None)
      && MatchesTimePreference(t, Some(Any))
      && (MatchesTimePreference(t, Some(Morning)) <==> 6 <= hour < 12)
      && (MatchesTimePreference(t, Some(Afternoon)) <==> 12 <= hour < 17)
      && (MatchesTimePreference(t, Some(Evening)) <==> 17 <= hour < 21)
  {
    HourOfFormatTime(hour, minute);
  }

  /** One past the last hour the slot loop visits: the minute is held at the opening minute. */
  function EndHour(open: Time, close: Time): nat
  {
    if open.minute < close.minute then close.hour + 1 else close.hour
  }

  /** The hours `currentHour` takes in the slot loop, from the opening hour, one apart. */
  function CandidateHours(open: Time, close: Time): (hours: seq<nat>)
    ensures forall i :: 0 <= i < |hours| ==> hours[i] == open.hour + i
    ensures forall h: nat :: open.hour <= h ==> (Before(Time(h, open.minute), close) <==> h < open.hour + |hours|)
  {
    var n := if open.hour < EndHour(open, close) then EndHour(open, close) - open.hour else 0;
    seq(n, i => open.hour + i)
  }

  /** Every candidate start is strictly before closing time and carries the opening minute. */
  lemma CandidatesBeforeClose(open: Time, close: Time)
    ensures var hours := CandidateHours(open, close);
      && (forall i :: 0 <= i < |hours| ==> Before(Time(hours[i], open.minute), close))
      && (forall i, j :: 0 <= i < j < |hours| ==> hours[i] < hours[j])
      && (forall i :: 0 <= i < |hours| - 1 ==> hours[i + 1] == hours[i] + 1)
  {
  }

  /** The candidate starts rendered as slot strings. */
  function FormatAll(hours: seq<nat>, minute: nat): (times: seq<string>)
    ensures |times| == |hours|
    ensures forall i :: 0 <= i < |hours| ==> times[i] == FormatTime(hours[i], minute)
  {
    seq(|hours|, i requires 0 <= i < |hours| => FormatTime(hours[i], minute))
  }

  /** Formatting one more hour appends its slot. */
  lemma FormatAllAppend(hours: seq<nat>, hour: nat, minute: nat)
    ensures FormatAll(hours + [hour], minute) == FormatAll(hours, minute) + [FormatTime(hour, minute)]
  {
  }

  /** The worked example: "9:00-17:00" opens at 9:00 and closes at 17:00 ... */
  lemma NineToFiveHours()
    ensures ParseHours("9:00-17:00") == Some((Time(9, 0), Time(17, 0)))
  {
    assert Pad2(0) == "00";
    assert Decimal(17) == "17" by { assert Decimal(17) == Decimal(1) + [DigitChar(7)]; }
    assert FormatHours(Time(9, 0), Time(17, 0)) == "9:00-17:00";
    ParseFormatHours(Time(9, 0), Time(17, 0));
  }

  lemma TwoDigits(n: nat)
    requires 10 <= n < 100
    ensures Pad2(n) == [DigitChar(n / 10), DigitChar(n % 10)]
  {
    assert Decimal(n) == Decimal(n / 10) + [DigitChar(n % 10)];
  }

  /** A two-digit hour on the full hour is rendered "HH:00". */
  lemma FullHourSlot(h: nat)
    requires 10 <= h < 100
    ensures FormatTime(h, 0) == [DigitChar(h / 10), DigitChar(h % 10), ':', '0', '0']
  {
    TwoDigits(h);
    assert Pad2(0) == "00";
  }

  /** ... and gives the eight starts 09:00 to 16:00. */
  lemma NineToFiveSlots()
    ensures FormatAll(CandidateHours(Time(9, 0), Time(17, 0)), 0)
         == ["09:00", "10:00", "11:00", "12:00", "13:00", "14:00", "15:00", "16:00"]
  {
    var hours := CandidateHours(Time(9, 0), Time(17, 0));
    assert hours == [9, 10, 11, 12, 13, 14, 15, 16];
    assert FormatTime(9, 0) == "09:00" by {
      assert Pad2(0) == "00";
      assert Pad2(9) == "09";
    }
    FullHourSlot(10);
    FullHourSlot(11);
    FullHourSlot(12);
    FullHourSlot(13);
    FullHourSlot(14);
    FullHourSlot(15);
    FullHourSlot(16);
    hide FormatTime;
    var slots := FormatAll(hours, 0);
    assert slots[0] == "09:00";
    assert slots[1] == "10:00";
    assert slots[2] == "11:00";
    assert slots[3] == "12:00";
    assert slots[4] == "13:00";
    assert slots[5] == "14:00";
    assert slots[6] == "15:00";
    assert slots[7] == "16:00";
  }
}

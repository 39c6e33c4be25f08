/**
 * `formatBusinessHours` of src/lib/chat-handler.ts: the weekly-hours map rendered as one line,
 * Monday to Sunday, for the assistant's prompt.
 */
module ChatHandler {
  import opened Wrappers
  import opened Strings

  const DayNames: seq<string> := ["Monday", "Tuesday", "Wednesday", "Thursday", "Friday", "Saturday", "Sunday"]
  const DayKeys: seq<string> := ["mon", "tue", "wed", "thu", "fri", "sat", "sun"]

  /** `hours[key]`; a missing key reads as `undefined`. */
  function Lookup(hours: map<string, string>, key: string): Option<string>
  {
    if key in hours then Some(hours[key]) else None
  }

  /** What a template literal prints for the looked-up value. */
  function Shown(value: Option<string>): string
  {
    if value.Some? then value.value else "undefined"
  }

  /** What an entry shows after the day name: `Closed` for the value `"closed"`, otherwise the value. */
  function Rendered(value: Option<string>): string
  {
    if value == Some("closed") then "Closed" else Shown(value)
  }

  /** One day's entry, `"<Day>: Closed"` or `"<Day>: <value>"`. */
  function Entry(dayName: string, value: Option<string>): string
  {
    dayName + ": " + Rendered(value)
  }

  /** The entries, one per weekday key, in the order of `DayKeys`. */
  function Entries(hours: map<string, string>): (es: seq<string>)
    ensures |es| == 7
  {
    seq(7, i requires 0 <= i < 7 => Entry(DayNames[i], Lookup(hours, DayKeys[i])))
  }

  /** `formatBusinessHours(hours)`. */
  function FormatBusinessHours(hours: map<string, string>): (line: string)
    ensures Entry(DayNames[0], Lookup(hours, "mon")) <= line
  {
    Join(Entries(hours), ", ")
  }

  /** The pieces `split(',')` gives back from a ", "-join: the first entry, then each later one after a space. */
  function Spaced(es: seq<string>): (parts: seq<string>)
    requires es != []
  {
    [es[0]] + seq(|es| - 1, k requires 0 <= k < |es| - 1 => " " + es[k + 1])
  }

  /** Splitting a ", "-join of comma-free entries at the commas recovers the entries. */
  lemma {:induction false} SplitJoin(es: seq<string>)
    requires es != []
    requires forall i :: 0 <= i < |es| ==> ',' !in es[i]
    ensures Split(Join(es, ", "), ',') == Spaced(es)
  {
    if |es| > 1 {
      var rest := es[1..];
      SplitJoin(rest);
      var tail := Join(rest, ", ");
      assert Join(es, ", ") == es[0] + [','] + (" " + tail);
      SplitAt(es[0], ',', " " + tail);
      var parts := Split(tail, ',');
      assert (" " + tail)[1..] == tail;
      assert Split(" " + tail, ',') == [" " + parts[0]] + parts[1..];
      assert parts == Spaced(rest);
      assert Split(Join(es, ", "), ',') == [es[0]] + ([" " + parts[0]] + parts[1..]);
      assert Spaced(es) == [es[0]] + ([" " + parts[0]] + parts[1..]);
    } else {
      SplitWithout(es[0], ',');
    }
  }

  /** No day name holds a comma, so an entry holds one only when its value does. */
  lemma EntryCommaFree(i: nat, value: Option<string>)
    requires i < 7
    requires value.Some? ==> ',' !in value.value
    ensures ',' !in Entry(DayNames[i], value)
  {
    assert ',' !in DayNames[i];
  }

  /** With no comma in the weekday values, no entry holds a comma. */
  lemma EntriesCommaFree(hours: map<string, string>)
    requires forall k :: k in DayKeys && k in hours ==> ',' !in hours[k]
    ensures forall i :: 0 <= i < 7 ==> ',' !in Entries(hours)[i]
  {
    forall i | 0 <= i < 7 ensures ',' !in Entries(hours)[i] {
      assert DayKeys[i] in DayKeys;
      EntryCommaFree(i, Lookup(hours, DayKeys[i]));
    }
  }

  /**
   * When no weekday value holds a comma, splitting the line at the commas gives exactly seven parts, in
   * the order Monday to Sunday, each `"<Day>: Closed"` where the value is `"closed"` and `"<Day>: <value>"`
   * otherwise, the parts after the first preceded by the space of the ", " separator.
   */
  lemma FormatBusinessHoursSpec(hours: map<string, string>)
    requires forall k :: k in DayKeys && k in hours ==> ',' !in hours[k]
    ensures var parts := Split(FormatBusinessHours(hours), ',');
      && |parts| == 7
      && parts[0] == DayNames[0] + ": " + Rendered(Lookup(hours, DayKeys[0]))
      && forall i :: 1 <= i < 7 ==> parts[i] == " " + DayNames[i] + ": " + Rendered(Lookup(hours, DayKeys[i]))
  {
    hide Split, Join, Rendered;
    var es := Entries(hours);
    EntriesCommaFree(hours);
    SplitJoin(es);
    var parts := Spaced(es);
    assert parts[0] == es[0];
    forall i | 1 <= i < 7 ensures parts[i] == " " + DayNames[i] + ": " + Rendered(Lookup(hours, DayKeys[i])) {
      assert parts[i] == " " + es[i];
    }
  }

  /** Only the seven weekday keys matter: maps that agree on them render the same line. */
  lemma OnlyWeekdayKeysMatter(h1: map<string, string>, h2: map<string, string>)
    requires forall k :: k in DayKeys ==> Lookup(h1, k) == Lookup(h2, k)
    ensures FormatBusinessHours(h1) == FormatBusinessHours(h2)
  {
    forall i | 0 <= i < 7 ensures Entries(h1)[i] == Entries(h2)[i] {
      assert DayKeys[i] in DayKeys;
    }
    assert Entries(h1) == Entries(h2);
  }
}

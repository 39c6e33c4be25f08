/**
 * `BookingService` of src/lib/booking-logic.ts over an in-memory store: the outcome of
 * each operation as a function of the tables, the lemmas that say what those outcomes
 * are, and the store class whose methods change the tables step by step.
 */
module Booking {
  import opened Wrappers
  import opened Hours
  import opened Rows

  // ---- slot generator ----

  /** The two tests the slot loop applies to the start at `hour`: the preference, then availability. */
  predicate SlotKept(rows: seq<Appointment>, businessId: string, date: int, minute: nat, pref: Option<Preference>,
                     hour: nat)
  {
    var slot := FormatTime(hour, minute);
    MatchesTimePreference(slot, pref) && IsTimeSlotAvailable(rows, businessId, date, slot)
  }

  /** The test as a function of the hour, for a fixed table, day, opening minute and preference. */
  function SlotTest(rows: seq<Appointment>, businessId: string, date: int, minute: nat, pref: Option<Preference>): nat -> bool
  {
    (h: nat) => SlotKept(rows, businessId, date, minute, pref, h)
  }

  /** The hours in [lo, hi) that pass `keep`, in order: what the slot loop keeps. */
  function Kept(keep: nat -> bool, lo: nat, hi: nat): (kept: seq<nat>)
    ensures lo <= hi ==> |kept| <= hi - lo
    ensures hi <= lo ==> kept == []
    decreases hi
  {
    if hi <= lo then [] else Kept(keep, lo, hi - 1) + (if keep(hi - 1) then [hi - 1] else [])
  }

  /** Keeps exactly the hours of the range that pass the test. */
  lemma {:induction false} KeptMembers(keep: nat -> bool, lo: nat, hi: nat)
    ensures forall h :: h in Kept(keep, lo, hi) <==> lo <= h < hi && keep(h)
  {
    if lo < hi {
      KeptMembers(keep, lo, hi - 1);
    }
  }

  predicate Ascending(hours: seq<nat>)
  {
    forall i, j :: 0 <= i < j < |hours| ==> hours[i] < hours[j]
  }

  /** The kept hours ascend strictly. */
  lemma {:induction false} KeptAscending(keep: nat -> bool, lo: nat, hi: nat)
    ensures Ascending(Kept(keep, lo, hi))
  {
    if lo < hi {
      var last := hi - 1;
      KeptAscending(keep, lo, last);
      KeptMembers(keep, lo, last);
      var keptInit := Kept(keep, lo, last);
      forall i | 0 <= i < |keptInit| ensures keptInit[i] < last {
        assert keptInit[i] in keptInit;
      }
      var kept := Kept(keep, lo, hi);
      assert kept == keptInit + (if keep(last) then [last] else []);
      forall i, j | 0 <= i < j < |kept| ensures kept[i] < kept[j] {
        assert kept[i] == keptInit[i];
        if j >= |keptInit| {
          assert kept[j] == last;
        } else {
          assert kept[j] == keptInit[j];
        }
      }
    }
  }

  /** The slot loop runs while the start is before closing time, i.e. for the hours below `EndHour`. */
  lemma BeforeCloseIsBelowEnd(open: Time, close: Time, h: nat)
    ensures Before(Time(h, open.minute), close) <==> h < EndHour(open, close)
  {
  }

  /**
   * The kept starts are strictly ascending, no more than the candidates, each from the opening hour on and
   * before closing time, each passing both tests; and every such hour that passes both tests is kept.
   */
  lemma KeptCandidatesSpec(rows: seq<Appointment>, businessId: string, date: int, open: Time, close: Time,
                           pref: Option<Preference>)
    ensures var kept := Kept(SlotTest(rows, businessId, date, open.minute, pref), open.hour, EndHour(open, close));
      && |kept| <= |CandidateHours(open, close)|
      && Ascending(kept)
      && (forall i :: 0 <= i < |kept| ==>
            open.hour <= kept[i] && Before(Time(kept[i], open.minute), close)
            && SlotKept(rows, businessId, date, open.minute, pref, kept[i]))
      && (forall h: nat ::
            (open.hour <= h && Before(Time(h, open.minute), close) && SlotKept(rows, businessId, date, open.minute, pref, h))
            ==> h in kept)
  {
    hide SlotKept;
    var end := EndHour(open, close);
    var test := SlotTest(rows, businessId, date, open.minute, pref);
    var kept := Kept(test, open.hour, end);
    KeptMembers(test, open.hour, end);
    KeptAscending(test, open.hour, end);
    assert open.hour <= end ==> |CandidateHours(open, close)| == end - open.hour;
    forall i | 0 <= i < |kept|
      ensures open.hour <= kept[i] && Before(Time(kept[i], open.minute), close)
      ensures SlotKept(rows, businessId, date, open.minute, pref, kept[i])
    {
      assert kept[i] in kept;
      assert test(kept[i]);
      BeforeCloseIsBelowEnd(open, close, kept[i]);
    }
    forall h: nat | open.hour <= h && Before(Time(h, open.minute), close)
      ensures h < end
    {
      BeforeCloseIsBelowEnd(open, close, h);
    }
  }

  /** The outcome of `getAvailableSlots` for a business whose weekly hours are `hours`. */
  function AvailableSlots(rows: seq<Appointment>, businessId: string, date: int, hours: map<string, string>,
                          day: Weekday, pref: Option<Preference>): (r: Result<seq<string>, Error>)
    ensures r.Err? <==> DayKey(day) !in hours
                        || (hours[DayKey(day)] != "closed" && ParseHours(hours[DayKey(day)]).None?)
    ensures r.Err? ==> r.error == MalformedHours
  {
    var key := DayKey(day);
    if key !in hours then Err(MalformedHours)
    else if hours[key] == "closed" then Ok([])
    else
      match ParseHours(hours[key])
      case None => Err(MalformedHours)
      case Some((open, close)) =>
        Ok(FormatAll(Kept(SlotTest(rows, businessId, date, open.minute, pref), open.hour, EndHour(open, close)), open.minute))
  }

  /** A closed day has no slots, whatever the preference and the rows. */
  lemma ClosedDayHasNoSlots(rows: seq<Appointment>, businessId: string, date: int, hours: map<string, string>,
                            day: Weekday, pref: Option<Preference>)
    requires DayKey(day) in hours && hours[DayKey(day)] == "closed"
    ensures AvailableSlots(rows, businessId, date, hours, day, pref) == Ok([])
  {
  }

  /**
   * On an open day whose hours parse: every slot is a start from the opening hour on, before closing,
   * formatted with the opening minute, passing the preference and free; the slots ascend by hour; they are
   * no more than the candidates; and every such start that passes both tests is among them.
   */
  lemma AvailableSlotsSpec(rows: seq<Appointment>, businessId: string, date: int, hours: map<string, string>,
                           day: Weekday, pref: Option<Preference>, open: Time, close: Time)
    requires DayKey(day) in hours && hours[DayKey(day)] != "closed"
    requires ParseHours(hours[DayKey(day)]) == Some((open, close))
    ensures var r := AvailableSlots(rows, businessId, date, hours, day, pref);
      && r.Ok?
      && |r.value| <= |CandidateHours(open, close)|
      && (forall i :: 0 <= i < |r.value| ==>
            && HourOf(r.value[i]).Some?
            && r.value[i] == FormatTime(HourOf(r.value[i]).value, open.minute)
            && open.hour <= HourOf(r.value[i]).value && Before(Time(HourOf(r.value[i]).value, open.minute), close)
            && MatchesTimePreference(r.value[i], pref) && IsTimeSlotAvailable(rows, businessId, date, r.value[i]))
      && (forall i, j :: 0 <= i < j < |r.value| ==> HourOf(r.value[i]).value < HourOf(r.value[j]).value)
      && (forall h: nat ::
            && open.hour <= h && Before(Time(h, open.minute), close)
            && SlotKept(rows, businessId, date, open.minute, pref, h)
            ==> FormatTime(h, open.minute) in r.value)
  {
    var kept := Kept(SlotTest(rows, businessId, date, open.minute, pref), open.hour, EndHour(open, close));
    var slots := FormatAll(kept, open.minute);
    assert AvailableSlots(rows, businessId, date, hours, day, pref) == Ok(slots);
    KeptCandidatesSpec(rows, businessId, date, open, close, pref);
    forall i | 0 <= i < |slots| ensures HourOf(slots[i]) == Some(kept[i]) {
      HourOfFormatTime(kept[i], open.minute);
    }
    forall h: nat | open.hour <= h && Before(Time(h, open.minute), close)
        && SlotKept(rows, businessId, date, open.minute, pref, h)
      ensures FormatTime(h, open.minute) in slots
    {
      var i :| 0 <= i < |kept| && kept[i] == h;
      assert slots[i] == FormatTime(h, open.minute);
    }
  }

  // ---- client statistics ----

  /** `.update({ total_appointments, last_visit }).eq('id', clientId)`. */
  function SetStats(clients: seq<Client>, clientId: nat, total: nat, lastVisit: int): (r: seq<Client>)
    ensures SameKeys(clients, r)
  {
    seq(|clients|, i requires 0 <= i < |clients| =>
      if clients[i].id == clientId then clients[i].(totalAppointments := total, lastVisit := Some(lastVisit))
      else clients[i])
  }

  /** What `updateClientStats(clientId)` leaves in the clients table. */
  function WithStats(clients: seq<Client>, rows: seq<Appointment>, clientId: nat): (r: seq<Client>)
    ensures SameKeys(clients, r)
    ensures forall i :: 0 <= i < |clients| && clients[i].id != clientId ==> r[i] == clients[i]
  {
    var active := Select(rows, StatsQuery(clientId));
    if active == [] then clients else SetStats(clients, clientId, |active|, MaxDate(active))
  }

  /** A client's statistics agree with its non-cancelled rows: their count, and the latest of their dates. */
  predicate StatsCurrent(c: Client, rows: seq<Appointment>)
  {
    && c.totalAppointments == |Select(rows, StatsQuery(c.id))|
    && c.lastVisit.Some?
    && (forall i :: 0 <= i < |rows| && Matches(rows[i], StatsQuery(c.id)) ==> rows[i].date <= c.lastVisit.value)
    && (exists i :: 0 <= i < |rows| && Matches(rows[i], StatsQuery(c.id)) && rows[i].date == c.lastVisit.value)
  }

  /** With no non-cancelled row of the client, the statistics update writes nothing (stale values stay). */
  lemma WithStatsNoActiveRows(clients: seq<Client>, rows: seq<Appointment>, clientId: nat)
    requires forall i :: 0 <= i < |rows| ==> !Matches(rows[i], StatsQuery(clientId))
    ensures WithStats(clients, rows, clientId) == clients
  {
    SelectEmpty(rows, StatsQuery(clientId));
  }

  /** When the client has a non-cancelled row, its statistics become current and nothing else in its row changes. */
  lemma WithStatsCurrent(clients: seq<Client>, rows: seq<Appointment>, clientId: nat, i: nat)
    requires i < |clients| && clients[i].id == clientId
    requires exists j :: 0 <= j < |rows| && Matches(rows[j], StatsQuery(clientId))
    ensures var c := WithStats(clients, rows, clientId)[i];
      && StatsCurrent(c, rows)
      && c == clients[i].(totalAppointments := c.totalAppointments, lastVisit := c.lastVisit)
  {
    var q := StatsQuery(clientId);
    var active := Select(rows, q);
    SelectEmpty(rows, q);
    SelectMembers(rows, q);
    var latest := MaxDate(active);
    var c := WithStats(clients, rows, clientId)[i];
    assert c == clients[i].(totalAppointments := |active|, lastVisit := Some(latest));
    forall j | 0 <= j < |rows| && Matches(rows[j], q) ensures rows[j].date <= latest {
      assert rows[j] in active;
    }
    var k :| 0 <= k < |active| && active[k].date == latest;
    assert active[k] in rows;
  }

  // ---- cancellation ----

  /** The row `cancelAppointment` picks, or why it picks none. */
  function CancellationTarget(rows: seq<Appointment>, clients: seq<Client>, businessId: string, email: string,
                              appointmentId: Option<nat>, today: int): (r: Result<Appointment, Error>)
    ensures r.Ok? ==> r.value in rows && r.value.businessId == businessId && Active(r.value)
    ensures r.Err? ==> r.error == ClientNotFound || r.error == NoUpcomingAppointments
    ensures r == Err(ClientNotFound) <==> appointmentId.None? && FindClient(clients, businessId, email).None?
  {
    if appointmentId.Some? then
      var hits := Select(rows, CancelByIdQuery(businessId, appointmentId.value));
      SelectMembers(rows, CancelByIdQuery(businessId, appointmentId.value));
      if hits == [] then Err(NoUpcomingAppointments) else assert hits[0] in hits; Ok(hits[0])
    else
      match FindClient(clients, businessId, email)
      case None => Err(ClientNotFound)
      case Some(client) =>
        var hits := Select(rows, CancelByClientQuery(businessId, client.id, today));
        var upcoming := SortByDate(hits);
        SelectMembers(rows, CancelByClientQuery(businessId, client.id, today));
        SortByDateCorrect(hits);
        if upcoming == [] then Err(NoUpcomingAppointments)
        else assert upcoming[0] in multiset(hits); Ok(upcoming[0])
  }

  /**
   * With an id: a non-cancelled row of the business with that id is picked if there is one, whatever the
   * email and the date; otherwise (also when that id is already cancelled) there are no upcoming appointments.
   */
  lemma CancelByIdSpec(rows: seq<Appointment>, clients: seq<Client>, businessId: string, email: string,
                       id: nat, today: int)
    ensures var target := CancellationTarget(rows, clients, businessId, email, Some(id), today);
      && (target.Ok? <==> exists i :: 0 <= i < |rows| && rows[i].businessId == businessId && rows[i].id == id && Active(rows[i]))
      && (target.Err? ==> target.error == NoUpcomingAppointments)
      && (target.Ok? ==> target.value in rows && target.value.businessId == businessId
                         && target.value.id == id && Active(target.value))
  {
    var q := CancelByIdQuery(businessId, id);
    SelectEmpty(rows, q);
    SelectMembers(rows, q);
    if Select(rows, q) != [] {
      assert Select(rows, q)[0] in Select(rows, q);
    }
  }

  /**
   * Without an id: no client for (business, email) is "client not found"; a client with no non-cancelled
   * row of the business dated today or later has no upcoming appointments; otherwise one of those rows
   * with the smallest date is picked (the date is the only sort key).
   */
  lemma CancelByEmailSpec(rows: seq<Appointment>, clients: seq<Client>, businessId: string, email: string, today: int)
    ensures var target := CancellationTarget(rows, clients, businessId, email, None, today);
      && (FindClient(clients, businessId, email).None? ==> target == Err(ClientNotFound))
      && (FindClient(clients, businessId, email).Some? ==>
            var q := CancelByClientQuery(businessId, FindClient(clients, businessId, email).value.id, today);
            && (target.Ok? <==> exists i :: 0 <= i < |rows| && Matches(rows[i], q))
            && (target.Err? ==> target.error == NoUpcomingAppointments)
            && (target.Ok? ==> target.value in rows && Matches(target.value, q)
                               && forall i :: 0 <= i < |rows| && Matches(rows[i], q) ==> target.value.date <= rows[i].date))
  {
    var found := FindClient(clients, businessId, email);
    if found.Some? {
      var q := CancelByClientQuery(businessId, found.value.id, today);
      var hits := Select(rows, q);
      SelectEmpty(rows, q);
      SelectMembers(rows, q);
      SortByDateCorrect(hits);
      if hits != [] {
        FirstOfSortedIsEarliest(hits);
        assert forall i :: 0 <= i < |rows| && Matches(rows[i], q) ==> rows[i] in hits;
      } else {
        assert SortByDate(hits) == [];
      }
    }
  }

  /** The row once `cancelAppointment` has updated it. */
  function CancelledRow(a: Appointment, now: int): Appointment
  {
    a.(status := Cancelled, cancelledAt := Some(now), cancellationReason := Some(CancellationReason))
  }

  /** `.update({ status: 'cancelled', cancelled_at, cancellation_reason }).eq('id', id)`. */
  function MarkCancelled(rows: seq<Appointment>, id: nat, now: int): (r: seq<Appointment>)
    ensures |r| == |rows|
    ensures forall i :: 0 <= i < |rows| ==> r[i].id == rows[i].id && r[i].businessId == rows[i].businessId
    ensures forall i :: 0 <= i < |rows| && rows[i].id != id ==> r[i] == rows[i]
    ensures forall i :: 0 <= i < |rows| && rows[i].id == id ==> r[i].status == Cancelled
  {
    seq(|rows|, i requires 0 <= i < |rows| => if rows[i].id == id then CancelledRow(rows[i], now) else rows[i])
  }

  /** With unique ids, cancelling changes the one row with that id and no other. */
  lemma MarkCancelledChangesOneRow(rows: seq<Appointment>, k: nat, now: int)
    requires UniqueAppointmentIds(rows) && k < |rows|
    ensures var r := MarkCancelled(rows, rows[k].id, now);
      && r[k] == CancelledRow(rows[k], now)
      && r[k].status == Cancelled && r[k].cancellationReason == Some("Cancelled by client via chat")
      && forall j :: 0 <= j < |rows| && j != k ==> r[j] == rows[j]
  {
  }

  /** Cancelling keeps the no-double-booking invariant and keeps ids unique. */
  lemma MarkCancelledKeepsInvariant(rows: seq<Appointment>, id: nat, now: int)
    requires NoDoubleBooking(rows) && UniqueAppointmentIds(rows)
    ensures NoDoubleBooking(MarkCancelled(rows, id, now)) && UniqueAppointmentIds(MarkCancelled(rows, id, now))
  {
    var r := MarkCancelled(rows, id, now);
    forall i, j | 0 <= i < j < |r| && Active(r[i]) && Active(r[j])
      ensures (r[i].businessId, r[i].date, r[i].time) != (r[j].businessId, r[j].date, r[j].time)
    {
      assert r[i] == rows[i] && r[j] == rows[j];
    }
  }

  /** After the picked row is cancelled its slot is free again: under the invariant it was the only occupant. */
  lemma CancelFreesSlot(rows: seq<Appointment>, a: Appointment, now: int)
    requires NoDoubleBooking(rows)
    requires a in rows && Active(a)
    ensures IsTimeSlotAvailable(MarkCancelled(rows, a.id, now), a.businessId, a.date, a.time)
  {
    var r := MarkCancelled(rows, a.id, now);
    var k :| 0 <= k < |rows| && rows[k] == a;
    forall j | 0 <= j < |rows| && j != k ensures !Occupies(rows[j], a.businessId, a.date, a.time) {
      if j < k {
        assert Active(rows[k]);
      } else {
        assert Active(rows[k]);
      }
    }
    assert !Active(r[k]);
  }

  /** Cancelling a prefix of the table is the prefix of the cancelled table. */
  lemma MarkCancelledPrefix(rows: seq<Appointment>, id: nat, now: int)
    requires rows != []
    ensures MarkCancelled(rows, id, now)
         == MarkCancelled(rows[..|rows| - 1], id, now) + [MarkCancelled(rows, id, now)[|rows| - 1]]
  {
  }

  /** Some row with the given id satisfies the query. */
  predicate HasMatchingId(rows: seq<Appointment>, id: nat, q: Query)
  {
    exists i :: 0 <= i < |rows| && rows[i].id == id && Matches(rows[i], q)
  }

  /** Whether a row with the id matches, split at the last row; with unique ids only one of the two can hold. */
  lemma HasMatchingIdLast(rows: seq<Appointment>, id: nat, q: Query)
    requires rows != [] && UniqueAppointmentIds(rows)
    ensures var init, last := rows[..|rows| - 1], rows[|rows| - 1];
      && HasMatchingId(rows, id, q) == (HasMatchingId(init, id, q) || (last.id == id && Matches(last, q)))
      && (last.id == id ==> !HasMatchingId(init, id, q))
  {
    var init := rows[..|rows| - 1];
    if HasMatchingId(init, id, q) {
      var i :| 0 <= i < |init| && init[i].id == id && Matches(init[i], q);
      assert rows[i] == init[i];
    }
    if HasMatchingId(rows, id, q) {
      var i :| 0 <= i < |rows| && rows[i].id == id && Matches(rows[i], q);
      if i < |init| {
        assert init[i] == rows[i];
      }
    }
  }

  /**
   * A query of non-cancelled rows returns one row fewer once a matching row is cancelled, and as many
   * when the cancelled id matches nothing.
   */
  lemma {:induction false} CancelShrinksSelect(rows: seq<Appointment>, id: nat, now: int, q: Query)
    requires UniqueAppointmentIds(rows) && q.activeOnly
    ensures |Select(rows, q)| == |Select(MarkCancelled(rows, id, now), q)| + if HasMatchingId(rows, id, q) then 1 else 0
  {
    if rows != [] {
      var init, last := rows[..|rows| - 1], rows[|rows| - 1];
      var after := MarkCancelled(rows, id, now);
      assert UniqueAppointmentIds(init);
      CancelShrinksSelect(init, id, now, q);
      HasMatchingIdLast(rows, id, q);
      MarkCancelledPrefix(rows, id, now);
      assert after[..|rows| - 1] == MarkCancelled(init, id, now);
      assert |Select(after, q)| == |Select(MarkCancelled(init, id, now), q)| + if Matches(after[|rows| - 1], q) then 1 else 0;
      assert |Select(rows, q)| == |Select(init, q)| + if Matches(last, q) then 1 else 0;
      assert Matches(after[|rows| - 1], q) == (last.id != id && Matches(last, q));
    }
  }

  /**
   * Cancelling the picked row keeps the invariants, frees its slot, leaves the returned row in the table,
   * and takes one row off its client's non-cancelled count.
   */
  lemma CancellationSpec(rows: seq<Appointment>, a: Appointment, now: int)
    requires NoDoubleBooking(rows) && UniqueAppointmentIds(rows)
    requires a in rows && Active(a)
    ensures var after := MarkCancelled(rows, a.id, now);
      && NoDoubleBooking(after) && UniqueAppointmentIds(after)
      && IsTimeSlotAvailable(after, a.businessId, a.date, a.time)
      && CancelledRow(a, now) in after
      && (a.clientId.Some? ==>
            |Select(after, StatsQuery(a.clientId.value))| + 1 == |Select(rows, StatsQuery(a.clientId.value))|)
  {
    MarkCancelledKeepsInvariant(rows, a.id, now);
    CancelFreesSlot(rows, a, now);
    var k :| 0 <= k < |rows| && rows[k] == a;
    MarkCancelledChangesOneRow(rows, k, now);
    assert MarkCancelled(rows, a.id, now)[k] == CancelledRow(a, now);
    if a.clientId.Some? {
      CancelShrinksSelect(rows, a.id, now, StatsQuery(a.clientId.value));
      assert rows[k].id == a.id && Matches(rows[k], StatsQuery(a.clientId.value));
      assert HasMatchingId(rows, a.id, StatsQuery(a.clientId.value));
    }
  }

  // ---- lookup ----

  /**
   * `findClientAppointments`: "client not found" exactly when no client has (business, email); otherwise
   * the client's non-cancelled rows dated today or later, each once, in ascending date order.
   */
  function FindClientAppointments(rows: seq<Appointment>, clients: seq<Client>, businessId: string, email: string,
                                  today: int): (r: Result<seq<Appointment>, Error>)
    ensures FindClient(clients, businessId, email).None? <==> r == Err(ClientNotFound)
    ensures r.Ok? ==>
      var q := UpcomingQuery(FindClient(clients, businessId, email).value.id, today);
      && SortedByDate(r.value)
      && multiset(r.value) == multiset(Select(rows, q))
      && forall a :: a in r.value <==> a in rows && Matches(a, q)
  {
    match FindClient(clients, businessId, email)
    case None => Err(ClientNotFound)
    case Some(client) =>
      var upcoming := Select(rows, UpcomingQuery(client.id, today));
      SortByDateCorrect(upcoming);
      SelectMembers(rows, UpcomingQuery(client.id, today));
      assert forall a :: a in SortByDate(upcoming) <==> a in multiset(upcoming);
      Ok(SortByDate(upcoming))
  }

  // ---- client lookup and update ----

  /** `clientInfo.phone && clientInfo.phone !== existingClient.phone`: a non-empty phone that differs. */
  predicate PhoneChanged(phone: Option<string>, stored: Option<string>)
  {
    phone.Some? && phone.value != "" && phone != stored
  }

  /** `.update({ phone, name }).eq('id', clientId)`. */
  function SetContact(clients: seq<Client>, clientId: nat, phone: Option<string>, name: string): (r: seq<Client>)
    ensures SameKeys(clients, r)
  {
    seq(|clients|, i requires 0 <= i < |clients| =>
      if clients[i].id == clientId then clients[i].(phone := phone, name := name) else clients[i])
  }

  /** Tables whose rows agree on ids, businesses and emails satisfy the same identity invariants. */
  lemma SameKeysKeepIdentity(cs: seq<Client>, ds: seq<Client>)
    requires SameKeys(cs, ds)
    ensures UniqueClientKeys(cs) ==> UniqueClientKeys(ds)
    ensures UniqueClientIds(cs) ==> UniqueClientIds(ds)
    ensures forall i :: 0 <= i < |ds| ==> ds[i].id == cs[i].id
  {
  }

  /** Overwriting a stored client's contact fields keeps the invariants, and the lookup finds the new row. */
  lemma FindAfterSetContact(clients: seq<Client>, businessId: string, email: string, k: nat,
                            phone: Option<string>, name: string)
    requires UniqueClientKeys(clients) && UniqueClientIds(clients)
    requires k < |clients| && ClientKeyIs(clients[k], businessId, email)
    ensures var updated := SetContact(clients, clients[k].id, phone, name);
      && UniqueClientKeys(updated) && UniqueClientIds(updated)
      && (forall i :: 0 <= i < |updated| ==> updated[i].id == clients[i].id)
      && FindClient(updated, businessId, email) == Some(clients[k].(phone := phone, name := name))
  {
    var updated := SetContact(clients, clients[k].id, phone, name);
    SameKeysKeepIdentity(clients, updated);
    SameKeysMatchAlike(clients, updated, businessId, email);
    FindClientSpec(updated, businessId, email);
    assert ClientKeyIs(updated[k], businessId, email);
  }

  /** Appending a client whose (business, email) is new keeps the key invariant, and the lookup finds it. */
  lemma FindAfterInsert(clients: seq<Client>, c: Client)
    requires UniqueClientKeys(clients)
    requires forall i :: 0 <= i < |clients| ==> !ClientKeyIs(clients[i], c.businessId, c.email)
    ensures UniqueClientKeys(clients + [c])
    ensures FindClient(clients + [c], c.businessId, c.email) == Some(c)
  {
    var all := clients + [c];
    assert all[|clients|] == c;
    assert UniqueClientKeys(all);
    FindClientSpec(all, c.businessId, c.email);
  }

  /** The client `getOrCreateClient` returns: the stored one (with the new contact when the phone changed), or a new one. */
  function ResolvedClient(clients: seq<Client>, nextId: nat, businessId: string, name: string, email: string,
                          phone: Option<string>, today: int): (c: Client)
    ensures ClientKeyIs(c, businessId, email)
    ensures FindClient(clients, businessId, email).Some? ==> c.id == FindClient(clients, businessId, email).value.id
  {
    match FindClient(clients, businessId, email)
    case None => Client(nextId, businessId, name, email, phone, Some(today), None, 0)
    case Some(existing) =>
      if PhoneChanged(phone, existing.phone) then existing.(phone := phone, name := name) else existing
  }

  /** The clients table once `getOrCreateClient` has run. */
  function ResolvedTable(clients: seq<Client>, nextId: nat, businessId: string, name: string, email: string,
                         phone: Option<string>, today: int): (t: seq<Client>)
    ensures |t| == |clients| + if FindClient(clients, businessId, email).None? then 1 else 0
    ensures forall i :: 0 <= i < |clients| ==> t[i].id == clients[i].id
    ensures FindClient(clients, businessId, email).None? ==> t[|clients|].id == nextId
  {
    match FindClient(clients, businessId, email)
    case None => clients + [ResolvedClient(clients, nextId, businessId, name, email, phone, today)]
    case Some(existing) =>
      if PhoneChanged(phone, existing.phone) then SetContact(clients, existing.id, phone, name) else clients
  }

  /** The ids of a clients table are below a bound. */
  predicate IdsBelow(clients: seq<Client>, bound: nat)
  {
    forall i :: 0 <= i < |clients| ==> clients[i].id < bound
  }

  /**
   * A stored client for (business, email): the table keeps its invariants and ids, the lookup finds the
   * returned client at the same place, every other row stays, and only phone and name can change — the
   * phone to a given non-empty one, and neither without one.
   */
  lemma ResolveStoredSpec(clients: seq<Client>, nextId: nat, businessId: string, name: string, email: string,
                          phone: Option<string>, today: int)
    requires UniqueClientKeys(clients) && UniqueClientIds(clients) && IdsBelow(clients, nextId)
    requires FindClient(clients, businessId, email).Some?
    ensures var c := ResolvedClient(clients, nextId, businessId, name, email, phone, today);
      var t := ResolvedTable(clients, nextId, businessId, name, email, phone, today);
      var existing := FindClient(clients, businessId, email).value;
      && UniqueClientKeys(t) && UniqueClientIds(t) && IdsBelow(t, nextId)
      && FindClient(t, businessId, email) == Some(c)
      && c.id == existing.id && |t| == |clients|
      && (forall i :: 0 <= i < |t| ==> t[i].id == clients[i].id)
      && (forall i :: 0 <= i < |t| && clients[i].id != c.id ==> t[i] == clients[i])
      && c == existing.(phone := c.phone, name := c.name)
      && (phone.Some? && phone.value != "" ==> c.phone == phone)
      && (phone.None? || phone.value == "" ==> c == existing)
      && (phone == existing.phone ==> c == existing)
      && (phone.Some? && phone.value != "" && phone != existing.phone ==> c == existing.(phone := phone, name := name))
  {
    var existing := FindClient(clients, businessId, email).value;
    FindClientSpec(clients, businessId, email);
    var k :| 0 <= k < |clients| && ClientKeyIs(clients[k], businessId, email);
    assert clients[k] == existing;
    if PhoneChanged(phone, existing.phone) {
      FindAfterSetContact(clients, businessId, email, k, phone, name);
    }
  }

  /**
   * No client for (business, email): one row is appended, with the next id, no appointments, first seen
   * today and the given contact; the invariants hold with the bound one higher and the lookup finds it.
   */
  lemma ResolveNewSpec(clients: seq<Client>, nextId: nat, businessId: string, name: string, email: string,
                       phone: Option<string>, today: int)
    requires UniqueClientKeys(clients) && UniqueClientIds(clients) && IdsBelow(clients, nextId)
    requires FindClient(clients, businessId, email).None?
    ensures var c := ResolvedClient(clients, nextId, businessId, name, email, phone, today);
      var t := ResolvedTable(clients, nextId, businessId, name, email, phone, today);
      && UniqueClientKeys(t) && UniqueClientIds(t) && IdsBelow(t, nextId + 1)
      && FindClient(t, businessId, email) == Some(c)
      && t == clients + [c]
      && c.id == nextId && c.businessId == businessId && c.email == email && c.name == name && c.phone == phone
      && c.firstVisit == Some(today) && c.lastVisit == None && c.totalAppointments == 0
  {
    FindClientSpec(clients, businessId, email);
    var c := ResolvedClient(clients, nextId, businessId, name, email, phone, today);
    FindAfterInsert(clients, c);
    var t := clients + [c];
    forall i | 0 <= i < |clients| ensures t[i] == clients[i] && clients[i].id < c.id {
    }
  }

  /** The row `bookAppointment` inserts. */
  function BookedRow(id: nat, businessId: string, clientId: nat, date: int, time: string): Appointment
  {
    Appointment(id, businessId, Some(clientId), date, time, SlotDuration, Scheduled, None, None)
  }

  /**
   * Booking a free slot: afterwards the slot is taken, no slot is double-booked, and the lookup of
   * (business, email) finds the booked client, whose statistics now count the new row and which otherwise
   * is the client `getOrCreateClient` returned.
   */
  lemma BookingSpec(rows: seq<Appointment>, clients: seq<Client>, nextAppointmentId: nat, nextClientId: nat,
                    businessId: string, date: int, time: string, name: string, email: string,
                    phone: Option<string>, today: int)
    requires NoDoubleBooking(rows) && IsTimeSlotAvailable(rows, businessId, date, time)
    requires UniqueClientKeys(clients) && UniqueClientIds(clients) && IdsBelow(clients, nextClientId)
    ensures var c := ResolvedClient(clients, nextClientId, businessId, name, email, phone, today);
      var after := rows + [BookedRow(nextAppointmentId, businessId, c.id, date, time)];
      var table := WithStats(ResolvedTable(clients, nextClientId, businessId, name, email, phone, today), after, c.id);
      && NoDoubleBooking(after)
      && !IsTimeSlotAvailable(after, businessId, date, time)
      && UniqueClientKeys(table) && UniqueClientIds(table)
      && FindClient(table, businessId, email).Some?
      && var booked := FindClient(table, businessId, email).value;
         && StatsCurrent(booked, after)
         && booked == c.(totalAppointments := booked.totalAppointments, lastVisit := booked.lastVisit)
  {
    var c := ResolvedClient(clients, nextClientId, businessId, name, email, phone, today);
    var a := BookedRow(nextAppointmentId, businessId, c.id, date, time);
    var after := rows + [a];
    InsertKeepsNoDoubleBooking(rows, a);
    InsertTakesSlot(rows, a);
    var resolved := ResolvedTable(clients, nextClientId, businessId, name, email, phone, today);
    if FindClient(clients, businessId, email).Some? {
      ResolveStoredSpec(clients, nextClientId, businessId, name, email, phone, today);
    } else {
      ResolveNewSpec(clients, nextClientId, businessId, name, email, phone, today);
    }
    FindClientSpec(resolved, businessId, email);
    var k :| 0 <= k < |resolved| && ClientKeyIs(resolved[k], businessId, email);
    assert resolved[k] == c;
    assert Matches(after[|rows|], StatsQuery(c.id));
    WithStatsCurrent(resolved, after, c.id, k);
    var table := WithStats(resolved, after, c.id);
    SameKeysKeepIdentity(resolved, table);
    FindClientSpec(table, businessId, email);
    assert ClientKeyIs(table[k], businessId, email);
  }

  /**
   * The in-memory store the booking engine runs against: the `appointments` and `clients` tables and the
   * counters that stand for the ids the database would generate.
   */
  class BookingService {
    var appointments: seq<Appointment>
    var clients: seq<Client>
    var nextAppointmentId: nat
    var nextClientId: nat

    /** Ids are unique and below the counters; (business, email) names one client; no slot is double-booked. */
    ghost predicate Valid()
      reads this
    {
      && (forall i :: 0 <= i < |appointments| ==> appointments[i].id < nextAppointmentId)
      && (forall i :: 0 <= i < |clients| ==> clients[i].id < nextClientId)
      && UniqueAppointmentIds(appointments)
      && UniqueClientIds(clients)
      && UniqueClientKeys(clients)
      && NoDoubleBooking(appointments)
    }

    constructor ()
      ensures Valid()
      ensures appointments == [] && clients == []
    {
      appointments, clients := [], [];
      nextAppointmentId, nextClientId := 0, 0;
    }

    /**
     * `getAvailableSlots`: look up the weekday's hours, give nothing on a closed day, otherwise step hour by
     * hour from the opening time while the start is before closing time, keeping each start that passes the
     * preference and is free.
     */
    method GetAvailableSlots(businessId: string, date: int, hours: map<string, string>, day: Weekday,
                             pref: Option<Preference>) returns (r: Result<seq<string>, Error>)
      ensures r == AvailableSlots(appointments, businessId, date, hours, day, pref)
      ensures DayKey(day) in hours && hours[DayKey(day)] == "closed" ==> r == Ok([])
    {
      var rows := appointments;
      var key := DayKey(day);
      if key !in hours {
        return Err(MalformedHours);
      }
      var text := hours[key];
      if text == "closed" {
        return Ok([]);
      }
      var parsed := ParseHours(text);
      if parsed.None? {
        return Err(MalformedHours);
      }
      var open, close := parsed.value.0, parsed.value.1;
      assert AvailableSlots(rows, businessId, date, hours, day, pref)
          == Ok(FormatAll(Kept(SlotTest(rows, businessId, date, open.minute, pref), open.hour, EndHour(open, close)), open.minute));
      var slots := CollectSlots(rows, businessId, date, open, close, pref);
      return Ok(slots);
    }

    /**
     * The loop of `getAvailableSlots`: from the opening hour, one hour at a time while the start is before
     * closing time, keep the start's "HH:MM" when it passes the preference and is free.
     */
    method CollectSlots(rows: seq<Appointment>, businessId: string, date: int, open: Time, close: Time,
                        pref: Option<Preference>) returns (slots: seq<string>)
      ensures slots == FormatAll(Kept(SlotTest(rows, businessId, date, open.minute, pref), open.hour, EndHour(open, close)),
                                 open.minute)
    {
      // the loop needs only the names of the two tests and of the formatting, not their definitions
      hide MatchesTimePreference, IsTimeSlotAvailable, FormatTime;
      ghost var test := SlotTest(rows, businessId, date, open.minute, pref);
      ghost var kept: seq<nat> := [];
      slots := [];
      var hour := open.hour;
      while hour < close.hour || (hour == close.hour && open.minute < close.minute)
        invariant open.hour <= hour && (hour <= EndHour(open, close) || hour == open.hour)
        invariant kept == Kept(test, open.hour, hour)
        invariant slots == FormatAll(kept, open.minute)
        decreases EndHour(open, close) - hour
      {
        var slot := FormatTime(hour, open.minute);
        if MatchesTimePreference(slot, pref) {
          if IsTimeSlotAvailable(rows, businessId, date, slot) {
            FormatAllAppend(kept, hour, open.minute);
            slots := slots + [slot];
            kept := kept + [hour];
          }
        }
        hour := hour + 1;
      }
      if open.hour < EndHour(open, close) {
        assert hour == EndHour(open, close);
      } else {
        assert Kept(test, open.hour, EndHour(open, close)) == [] == kept;
      }
    }

    /**
     * `updateClientStats`: when the client has non-cancelled rows, write their count and latest date into
     * the client's row; otherwise write nothing.
     */
    method UpdateClientStats(clientId: nat)
      requires Valid()
      modifies this
      ensures Valid()
      ensures appointments == old(appointments)
      ensures nextAppointmentId == old(nextAppointmentId) && nextClientId == old(nextClientId)
      ensures clients == WithStats(old(clients), appointments, clientId)
    {
      var active := Select(appointments, StatsQuery(clientId));
      if |active| > 0 {
        SameKeysKeepIdentity(clients, SetStats(clients, clientId, |active|, MaxDate(active)));
        clients := SetStats(clients, clientId, |active|, MaxDate(active));
      }
    }

    /**
     * `getOrCreateClient`: reuse the client of (business, email), overwriting phone and name when a
     * non-empty, different phone is given; otherwise insert a client with no appointments, first seen today.
     */
    method GetOrCreateClient(businessId: string, name: string, email: string, phone: Option<string>, today: int)
      returns (client: Client)
      requires Valid()
      modifies this
      ensures Valid()
      ensures appointments == old(appointments) && nextAppointmentId == old(nextAppointmentId)
      ensures client == ResolvedClient(old(clients), old(nextClientId), businessId, name, email, phone, today)
      ensures clients == ResolvedTable(old(clients), old(nextClientId), businessId, name, email, phone, today)
      ensures nextClientId == old(nextClientId) + if old(FindClient(clients, businessId, email)).None? then 1 else 0
    {
      // the two lemmas below say all that is needed of the lookup, the update and the appointment invariants
      hide FindClient, SetContact, NoDoubleBooking, UniqueAppointmentIds;
      var table := clients;
      var found := FindClient(table, businessId, email);
      if found.Some? {
        ResolveStoredSpec(table, nextClientId, businessId, name, email, phone, today);
        var existing := found.value;
        if PhoneChanged(phone, existing.phone) {
          clients := SetContact(table, existing.id, phone, name);
          client := existing.(phone := phone, name := name);
        } else {
          client := existing;
        }
      } else {
        ResolveNewSpec(table, nextClientId, businessId, name, email, phone, today);
        client := Client(nextClientId, businessId, name, email, phone, Some(today), None, 0);
        clients := table + [client];
        nextClientId := nextClientId + 1;
      }
    }

    /** `.from('appointments').insert(...)`: append a row that takes a free slot, with the next id. */
    method InsertAppointment(a: Appointment)
      requires Valid()
      requires a.id == nextAppointmentId && IsTimeSlotAvailable(appointments, a.businessId, a.date, a.time)
      modifies this
      ensures Valid()
      ensures appointments == old(appointments) + [a] && nextAppointmentId == old(nextAppointmentId) + 1
      ensures clients == old(clients) && nextClientId == old(nextClientId)
    {
      var rows := appointments;
      InsertKeepsNoDoubleBooking(rows, a);
      assert forall i :: 0 <= i < |rows| ==> (rows + [a])[i] == rows[i] && rows[i].id < a.id;
      appointments := rows + [a];
      nextAppointmentId := nextAppointmentId + 1;
    }

    /**
     * `bookAppointment`: refuse a taken slot; otherwise get or create the client, insert a scheduled
     * one-hour row for it and refresh the client's statistics.
     */
    method BookAppointment(businessId: string, date: int, time: string, name: string, email: string,
                           phone: Option<string>, today: int) returns (r: Result<Appointment, Error>)
      requires Valid()
      modifies this
      ensures Valid()
      ensures !old(IsTimeSlotAvailable(appointments, businessId, date, time)) ==>
        && r == Err(SlotUnavailable)
        && appointments == old(appointments) && clients == old(clients)
        && nextAppointmentId == old(nextAppointmentId) && nextClientId == old(nextClientId)
      ensures old(IsTimeSlotAvailable(appointments, businessId, date, time)) ==>
        var c := ResolvedClient(old(clients), old(nextClientId), businessId, name, email, phone, today);
        && r == Ok(BookedRow(old(nextAppointmentId), businessId, c.id, date, time))
        && appointments == old(appointments) + [r.value]
        && clients == WithStats(ResolvedTable(old(clients), old(nextClientId), businessId, name, email, phone, today),
                                appointments, c.id)
        && nextAppointmentId == old(nextAppointmentId) + 1
        && nextClientId == old(nextClientId) + if old(FindClient(clients, businessId, email)).None? then 1 else 0
    {
      if !IsTimeSlotAvailable(appointments, businessId, date, time) {
        return Err(SlotUnavailable);
      }
      ghost var table0, nextClient0 := clients, nextClientId;
      var client := GetOrCreateClient(businessId, name, email, phone, today);
      ghost var table1 := clients;
      var a := BookedRow(nextAppointmentId, businessId, client.id, date, time);
      InsertAppointment(a);
      UpdateClientStats(client.id);
      assert clients == WithStats(table1, appointments, client.id);
      return Ok(a);
    }

    /**
     * `cancelAppointment`: pick the row to cancel (by id, or the client's soonest upcoming one), mark it
     * cancelled at `now` with the fixed reason, and refresh the statistics of the row's client if it has one.
     */
    method CancelAppointment(businessId: string, email: string, appointmentId: Option<nat>, today: int, now: int)
      returns (r: Result<Appointment, Error>)
      requires Valid()
      modifies this
      ensures Valid()
      ensures nextAppointmentId == old(nextAppointmentId) && nextClientId == old(nextClientId)
      ensures var target := old(CancellationTarget(appointments, clients, businessId, email, appointmentId, today));
        && (target.Err? ==> r == target && appointments == old(appointments) && clients == old(clients))
        && (target.Ok? ==>
              && r == Ok(CancelledRow(target.value, now))
              && appointments == MarkCancelled(old(appointments), target.value.id, now)
              && clients == if target.value.clientId.Some?
                            then WithStats(old(clients), appointments, target.value.clientId.value)
                            else old(clients))
    {
      var rows, table := appointments, clients;
      var candidates: seq<Appointment>;
      if appointmentId.Some? {
        candidates := Select(rows, CancelByIdQuery(businessId, appointmentId.value));
      } else {
        var found := FindClient(table, businessId, email);
        if found.None? {
          return Err(ClientNotFound);
        }
        candidates := SortByDate(Select(rows, CancelByClientQuery(businessId, found.value.id, today)));
      }
      if candidates == [] {
        return Err(NoUpcomingAppointments);
      }
      var target := candidates[0];
      MarkCancelledKeepsInvariant(rows, target.id, now);
      appointments := MarkCancelled(rows, target.id, now);
      assert forall i :: 0 <= i < |rows| ==> appointments[i].id == rows[i].id;
      r := Ok(CancelledRow(target, now));
      if target.clientId.Some? {
        UpdateClientStats(target.clientId.value);
      }
    }
  }
}

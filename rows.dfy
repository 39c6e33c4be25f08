/**
 * The rows of the `appointments` and `clients` tables and the read-only queries the
 * booking engine runs over them (src/lib/booking-logic.ts). A query is the conjunction
 * of `.eq`/`.neq`/`.gte` filters of one Supabase call; results keep table order unless
 * the call orders them.
 */
module Rows {
  import opened Wrappers

  datatype Status = Scheduled | Confirmed | Completed | Cancelled | NoShow

  /** One `appointments` row. Dates are day numbers; times are the "HH:MM" text the row stores. */
  datatype Appointment = Appointment(
    id: nat,
    businessId: string,
    clientId: Option<nat>,
    date: int,
    time: string,
    duration: nat,
    status: Status,
    cancelledAt: Option<int>,
    cancellationReason: Option<string>)

  /** One `clients` row. `firstVisit` and `lastVisit` are day numbers. */
  datatype Client = Client(
    id: nat,
    businessId: string,
    name: string,
    email: string,
    phone: Option<string>,
    firstVisit: Option<int>,
    lastVisit: Option<int>,
    totalAppointments: nat)

  /** The failure outcomes of the core (the source returns them as error strings). */
  datatype Error = SlotUnavailable | ClientNotFound | NoUpcomingAppointments | MalformedHours

  const SlotDuration: nat := 60
  const CancellationReason: string := "Cancelled by client via chat"

  /** A row occupies its slot unless it is cancelled. */
  predicate Active(a: Appointment) { a.status != Cancelled }

  /** A conjunction of column filters on `appointments`; `None` means "no filter on that column". */
  datatype Query = Query(
    business: Option<string>,
    date: Option<int>,
    time: Option<string>,
    id: Option<nat>,
    client: Option<nat>,
    fromDate: Option<int>,
    activeOnly: bool)

  predicate Matches(a: Appointment, q: Query)
  {
    && (q.business.Some? ==> a.businessId == q.business.value)
    && (q.date.Some? ==> a.date == q.date.value)
    && (q.time.Some? ==> a.time == q.time.value)
    && (q.id.Some? ==> a.id == q.id.value)
    && (q.client.Some? ==> a.clientId == Some(q.client.value))
    && (q.fromDate.Some? ==> a.date >= q.fromDate.value)
    && (q.activeOnly ==> Active(a))
  }

  /** The rows a query returns, in table order. */
  function Select(rows: seq<Appointment>, q: Query): (r: seq<Appointment>)
    ensures |r| <= |rows|
  {
    if rows == [] then []
    else
      var last := rows[|rows| - 1];
      Select(rows[..|rows| - 1], q) + (if Matches(last, q) then [last] else [])
  }

  /** A query returns exactly the rows that satisfy it, and each of them no more often than the table holds it. */
  lemma {:induction false} SelectMembers(rows: seq<Appointment>, q: Query)
    ensures forall a :: a in Select(rows, q) <==> a in rows && Matches(a, q)
    ensures multiset(Select(rows, q)) <= multiset(rows)
  {
    if rows != [] {
      var init := rows[..|rows| - 1];
      SelectMembers(init, q);
      assert rows == init + [rows[|rows| - 1]];
    }
  }

  /** A query returns nothing exactly when no row satisfies it. */
  lemma {:induction false} SelectEmpty(rows: seq<Appointment>, q: Query)
    ensures Select(rows, q) == [] <==> forall i :: 0 <= i < |rows| ==> !Matches(rows[i], q)
  {
    SelectMembers(rows, q);
    if Select(rows, q) != [] {
      assert Select(rows, q)[0] in rows;
    }
  }

  // ---- the queries of booking-logic.ts ----

  /** isTimeSlotAvailable: business, date and time equal, status not cancelled. */
  function SlotQuery(businessId: string, date: int, time: string): Query
  {
    Query(Some(businessId), Some(date), Some(time), None, None, None, true)
  }

  /** updateClientStats: the client's rows whose status is not cancelled. */
  function StatsQuery(clientId: nat): Query
  {
    Query(None, None, None, None, Some(clientId), None, true)
  }

  /** cancelAppointment with an id: the business's non-cancelled rows with that id. */
  function CancelByIdQuery(businessId: string, id: nat): Query
  {
    Query(Some(businessId), None, None, Some(id), None, None, true)
  }

  /** cancelAppointment without an id: the business's non-cancelled rows of the client dated today or later. */
  function CancelByClientQuery(businessId: string, clientId: nat, today: int): Query
  {
    Query(Some(businessId), None, None, None, Some(clientId), Some(today), true)
  }

  /** findClientAppointments: the client's non-cancelled rows dated today or later (any business). */
  function UpcomingQuery(clientId: nat, today: int): Query
  {
    Query(None, None, None, None, Some(clientId), Some(today), true)
  }

  /** Whether a row takes the slot (business, date, time). */
  predicate Occupies(a: Appointment, businessId: string, date: int, time: string)
  {
    a.businessId == businessId && a.date == date && a.time == time && Active(a)
  }

  /** `isTimeSlotAvailable`: the slot query returns no row. */
  function IsTimeSlotAvailable(rows: seq<Appointment>, businessId: string, date: int, time: string): (free: bool)
    ensures free <==> forall i :: 0 <= i < |rows| ==> !Occupies(rows[i], businessId, date, time)
  {
    SelectEmpty(rows, SlotQuery(businessId, date, time));
    |Select(rows, SlotQuery(businessId, date, time))| == 0
  }

  /** Cancelled rows never take a slot: adding cancelled rows leaves availability as it was. */
  lemma CancelledRowsDoNotBlock(rows: seq<Appointment>, extra: seq<Appointment>, businessId: string, date: int, time: string)
    requires forall i :: 0 <= i < |extra| ==> extra[i].status == Cancelled
    ensures IsTimeSlotAvailable(rows + extra, businessId, date, time) == IsTimeSlotAvailable(rows, businessId, date, time)
  {
    var all := rows + extra;
    assert forall i :: 0 <= i < |rows| ==> all[i] == rows[i];
    assert forall i :: |rows| <= i < |all| ==> all[i] == extra[i - |rows|];
  }

  /** The invariant of the appointments table: no two non-cancelled rows share (business, date, time). */
  predicate NoDoubleBooking(rows: seq<Appointment>)
  {
    forall i, j :: 0 <= i < j < |rows| && Active(rows[i]) && Active(rows[j]) ==>
      (rows[i].businessId, rows[i].date, rows[i].time) != (rows[j].businessId, rows[j].date, rows[j].time)
  }

  /** Under the invariant, a slot is held by at most one row. */
  lemma {:induction false} AtMostOneOccupant(rows: seq<Appointment>, businessId: string, date: int, time: string)
    requires NoDoubleBooking(rows)
    ensures |Select(rows, SlotQuery(businessId, date, time))| <= 1
  {
    if rows != [] {
      var init, last := rows[..|rows| - 1], rows[|rows| - 1];
      assert NoDoubleBooking(init);
      AtMostOneOccupant(init, businessId, date, time);
      if Matches(last, SlotQuery(businessId, date, time)) {
        assert forall i :: 0 <= i < |init| ==> init[i] == rows[i];
        assert forall i :: 0 <= i < |init| ==> !Occupies(init[i], businessId, date, time);
        SelectEmpty(init, SlotQuery(businessId, date, time));
      }
    }
  }

  /** Adding a row whose slot is free keeps the invariant (the availability check before the insert). */
  lemma InsertKeepsNoDoubleBooking(rows: seq<Appointment>, a: Appointment)
    requires NoDoubleBooking(rows)
    requires IsTimeSlotAvailable(rows, a.businessId, a.date, a.time)
    ensures NoDoubleBooking(rows + [a])
  {
    var all := rows + [a];
    forall i, j | 0 <= i < j < |all| && Active(all[i]) && Active(all[j])
      ensures (all[i].businessId, all[i].date, all[i].time) != (all[j].businessId, all[j].date, all[j].time)
    {
      if j == |rows| {
        assert !Occupies(rows[i], a.businessId, a.date, a.time);
      } else {
        assert all[i] == rows[i] && all[j] == rows[j];
      }
    }
  }

  /** Once a row is added, its slot is taken. */
  lemma InsertTakesSlot(rows: seq<Appointment>, a: Appointment)
    requires Active(a)
    ensures !IsTimeSlotAvailable(rows + [a], a.businessId, a.date, a.time)
  {
    assert Occupies((rows + [a])[|rows|], a.businessId, a.date, a.time);
  }

  // ---- ordering ----

  predicate SortedByDate(s: seq<Appointment>)
  {
    forall i, j :: 0 <= i < j < |s| ==> s[i].date <= s[j].date
  }

  /** Inserts `a` before the first row dated on or after it. */
  function InsertByDate(a: Appointment, s: seq<Appointment>): (r: seq<Appointment>)
    ensures |r| == |s| + 1
  {
    if s == [] || a.date <= s[0].date then [a] + s else [s[0]] + InsertByDate(a, s[1..])
  }

  /** Inserting adds exactly `a`: the rows, counted with repetition, are those of `s` and `a`. */
  lemma {:induction false} InsertByDatePerm(a: Appointment, s: seq<Appointment>)
    ensures multiset(InsertByDate(a, s)) == multiset(s) + multiset{a}
  {
    if s != [] && a.date > s[0].date {
      InsertByDatePerm(a, s[1..]);
      assert s == [s[0]] + s[1..];
    }
  }

  /** A bound below `a` and every row of `s` stays below every row once `a` is inserted. */
  lemma {:induction false} InsertByDateBound(a: Appointment, s: seq<Appointment>, d: int)
    requires d <= a.date && forall k :: 0 <= k < |s| ==> d <= s[k].date
    ensures forall k :: 0 <= k < |InsertByDate(a, s)| ==> d <= InsertByDate(a, s)[k].date
  {
    if s != [] && a.date > s[0].date {
      InsertByDateBound(a, s[1..], d);
    }
  }

  /** A row dated no later than every row of a sorted sequence can go in front of it. */
  lemma ConsSorted(x: Appointment, r: seq<Appointment>)
    requires SortedByDate(r) && forall k :: 0 <= k < |r| ==> x.date <= r[k].date
    ensures SortedByDate([x] + r)
  {
    var full := [x] + r;
    forall i, j | 0 <= i < j < |full| ensures full[i].date <= full[j].date {
      assert full[j] == r[j - 1];
      if i > 0 {
        assert full[i] == r[i - 1];
      }
    }
  }

  lemma {:induction false} InsertByDateSorted(a: Appointment, s: seq<Appointment>)
    requires SortedByDate(s)
    ensures SortedByDate(InsertByDate(a, s))
  {
    if s == [] || a.date <= s[0].date {
      ConsSorted(a, s);
    } else {
      var t := s[1..];
      assert SortedByDate(t);
      InsertByDateSorted(a, t);
      InsertByDateBound(a, t, s[0].date);
      ConsSorted(s[0], InsertByDate(a, t));
    }
  }

  /** `.order('date', { ascending: true })`: a stable insertion sort by date. */
  function SortByDate(s: seq<Appointment>): (r: seq<Appointment>)
    ensures |r| == |s|
    ensures SortedByDate(r)
  {
    if s == [] then [] else
      InsertByDateSorted(s[0], SortByDate(s[1..]));
      InsertByDate(s[0], SortByDate(s[1..]))
  }

  /** Sorting keeps the rows: counted with repetition they are those of `s`. */
  lemma {:induction false} SortByDateCorrect(s: seq<Appointment>)
    ensures multiset(SortByDate(s)) == multiset(s)
  {
    if s != [] {
      var rest := SortByDate(s[1..]);
      SortByDateCorrect(s[1..]);
      InsertByDatePerm(s[0], rest);
      assert SortByDate(s) == InsertByDate(s[0], rest);
      assert s == [s[0]] + s[1..];
      assert multiset(s) == multiset{s[0]} + multiset(s[1..]);
    }
  }

  /** The first row of a date-ordered result has the smallest date of all the rows. */
  lemma FirstOfSortedIsEarliest(s: seq<Appointment>)
    requires s != []
    ensures SortByDate(s)[0] in s
    ensures forall a :: a in s ==> SortByDate(s)[0].date <= a.date
  {
    SortByDateCorrect(s);
    var r := SortByDate(s);
    assert r[0] in multiset(s);
    forall a | a in s ensures r[0].date <= a.date {
      assert a in multiset(r);
      var k :| 0 <= k < |r| && r[k] == a;
    }
  }

  /** The largest date among some rows (`.order('date', { ascending: false })` then `[0].date`). */
  function MaxDate(s: seq<Appointment>): (d: int)
    requires s != []
    ensures exists i :: 0 <= i < |s| && s[i].date == d
    ensures forall i :: 0 <= i < |s| ==> s[i].date <= d
  {
    if |s| == 1 then s[0].date
    else
      var rest := MaxDate(s[1..]);
      assert forall i :: 1 <= i < |s| ==> s[i] == s[1..][i - 1];
      if s[0].date >= rest then s[0].date else rest
  }

  // ---- clients ----

  predicate ClientKeyIs(c: Client, businessId: string, email: string)
  {
    c.businessId == businessId && c.email == email
  }

  /** The positions of the clients of a business with a given email, in table order. */
  function ClientMatches(clients: seq<Client>, businessId: string, email: string): (ms: seq<nat>)
    ensures forall k :: 0 <= k < |ms| ==> ms[k] < |clients|
  {
    if clients == [] then []
    else
      var n := |clients| - 1;
      ClientMatches(clients[..n], businessId, email) + (if ClientKeyIs(clients[n], businessId, email) then [n] else [])
  }

  /** The positions found are exactly those of matching clients, each once, ascending. */
  lemma {:induction false} ClientMatchesSpec(clients: seq<Client>, businessId: string, email: string)
    ensures var ms := ClientMatches(clients, businessId, email);
      && (forall k :: 0 <= k < |ms| ==> ClientKeyIs(clients[ms[k]], businessId, email))
      && (forall i :: 0 <= i < |clients| && ClientKeyIs(clients[i], businessId, email) ==> i in ms)
      && (forall k, l :: 0 <= k < l < |ms| ==> ms[k] < ms[l])
      && ((forall i :: 0 <= i < |clients| ==> !ClientKeyIs(clients[i], businessId, email)) ==> ms == [])
  {
    if clients != [] {
      var n := |clients| - 1;
      var init := clients[..n];
      ClientMatchesSpec(init, businessId, email);
      var ms0 := ClientMatches(init, businessId, email);
      var ms := ClientMatches(clients, businessId, email);
      assert ms == ms0 + (if ClientKeyIs(clients[n], businessId, email) then [n] else []);
      forall k | 0 <= k < |ms| ensures ClientKeyIs(clients[ms[k]], businessId, email) {
        if k < |ms0| {
          assert ms[k] == ms0[k] && clients[ms0[k]] == init[ms0[k]];
          assert ClientKeyIs(init[ms0[k]], businessId, email);
        } else {
          assert ms[k] == n;
        }
      }
      forall i | 0 <= i < |clients| && ClientKeyIs(clients[i], businessId, email) ensures i in ms {
        if i < n {
          assert init[i] == clients[i];
          assert i in ms0;
        }
      }
      forall k, l | 0 <= k < l < |ms| ensures ms[k] < ms[l] {
        if l < |ms0| {
          assert ms[k] == ms0[k] && ms[l] == ms0[l];
        } else {
          assert ms[k] == ms0[k] && ms0[k] < n;
        }
      }
    }
  }

  /** `.eq('business_id', b).eq('email', e).single()`: the client when exactly one row matches. */
  function FindClient(clients: seq<Client>, businessId: string, email: string): (r: Option<Client>)
    ensures r.Some? ==> r.value in clients && ClientKeyIs(r.value, businessId, email)
  {
    ClientMatchesSpec(clients, businessId, email);
    var ms := ClientMatches(clients, businessId, email);
    if |ms| == 1 then Some(clients[ms[0]]) else None
  }

  /** The data-model invariant of `clients`: (business, email) identifies a client. */
  predicate UniqueClientKeys(clients: seq<Client>)
  {
    forall i, j :: 0 <= i < j < |clients| ==>
      !(clients[i].businessId == clients[j].businessId && clients[i].email == clients[j].email)
  }

  lemma {:induction false} UniqueKeysMatchOnce(clients: seq<Client>, businessId: string, email: string)
    requires UniqueClientKeys(clients)
    ensures |ClientMatches(clients, businessId, email)| <= 1
  {
    if clients != [] {
      var n := |clients| - 1;
      var init := clients[..n];
      assert UniqueClientKeys(init);
      UniqueKeysMatchOnce(init, businessId, email);
      if ClientKeyIs(clients[n], businessId, email) {
        forall i | 0 <= i < n ensures !ClientKeyIs(init[i], businessId, email) {
          assert init[i] == clients[i];
        }
        ClientMatchesSpec(init, businessId, email);
      }
    }
  }

  /** Under the invariant, the lookup finds the client exactly when one is stored. */
  lemma FindClientSpec(clients: seq<Client>, businessId: string, email: string)
    requires UniqueClientKeys(clients)
    ensures FindClient(clients, businessId, email).None? <==>
      forall i :: 0 <= i < |clients| ==> !ClientKeyIs(clients[i], businessId, email)
    ensures forall i :: 0 <= i < |clients| && ClientKeyIs(clients[i], businessId, email) ==>
      FindClient(clients, businessId, email) == Some(clients[i])
  {
    var ms := ClientMatches(clients, businessId, email);
    ClientMatchesSpec(clients, businessId, email);
    UniqueKeysMatchOnce(clients, businessId, email);
    if |ms| == 0 {
      assert forall i :: 0 <= i < |clients| ==> !ClientKeyIs(clients[i], businessId, email);
    }
    if |ms| == 1 {
      assert ClientKeyIs(clients[ms[0]], businessId, email);
      forall i | 0 <= i < |clients| && ClientKeyIs(clients[i], businessId, email)
        ensures FindClient(clients, businessId, email) == Some(clients[i])
      {
        assert i in ms;
      }
    }
  }

  /** Two client tables whose rows agree on id, business and email, position by position. */
  predicate SameKeys(cs: seq<Client>, ds: seq<Client>)
  {
    |cs| == |ds| && forall i :: 0 <= i < |cs| ==>
      cs[i].id == ds[i].id && cs[i].businessId == ds[i].businessId && cs[i].email == ds[i].email
  }

  /** The lookup sees only ids, businesses and emails: it finds the same position in both tables. */
  lemma {:induction false} SameKeysMatchAlike(cs: seq<Client>, ds: seq<Client>, businessId: string, email: string)
    requires SameKeys(cs, ds)
    ensures ClientMatches(cs, businessId, email) == ClientMatches(ds, businessId, email)
  {
    if cs != [] {
      var n := |cs| - 1;
      assert SameKeys(cs[..n], ds[..n]);
      SameKeysMatchAlike(cs[..n], ds[..n], businessId, email);
    }
  }

  // ---- identities ----

  predicate UniqueAppointmentIds(rows: seq<Appointment>)
  {
    forall i, j :: 0 <= i < j < |rows| ==> rows[i].id != rows[j].id
  }

  predicate UniqueClientIds(clients: seq<Client>)
  {
    forall i, j :: 0 <= i < j < |clients| ==> clients[i].id != clients[j].id
  }
}

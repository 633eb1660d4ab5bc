/** The upcoming-appointments screen: every load reads all rows of the shared
    `appointments` table, keeps those whose date and time lie at or after
    `now`, and sorts them soonest first; a delete asks for confirmation, then
    deletes by id and loads again. */
module UpcomingList {
  import opened Wrappers
  import opened Decimal
  import opened Timestamp
  import opened Collation
  import opened AppointmentStore
  import opened Booking

  /** The filter callback: a non-empty date and time whose combined timestamp
      is valid and not before `now`. An invalid date compares as `NaN`, and
      `NaN >= now` is false, so such a row is dropped without an error. */
  predicate IsUpcoming(r: Row, now: int) {
    r.date != "" && r.time != "" &&
    match Parse(r.date, r.time)
      case Some(t) => t >= now
      case None => false
  }

  /** `results.filter(...)`: the upcoming rows, in store order. */
  function Upcoming(rows: seq<Row>, now: int): seq<Row> {
    if rows == [] then []
    else (if IsUpcoming(rows[0], now) then [rows[0]] else []) + Upcoming(rows[1..], now)
  }

  /** The sort key: the row's timestamp (every row that passed the filter has one). */
  function Key(r: Row): int {
    match Parse(r.date, r.time)
      case Some(t) => t
      case None => 0
  }

  predicate SortedBy<T>(s: seq<T>, key: T -> int) {
    forall i, j :: 0 <= i < j < |s| ==> key(s[i]) <= key(s[j])
  }

  predicate SortedByTime(s: seq<Row>) {
    SortedBy(s, Key)
  }

  /** What the screen shows after loading from `rows`: the upcoming rows,
      nothing added and nothing lost, soonest first. */
  predicate IsUpcomingView(list: seq<Row>, rows: seq<Row>, now: int) {
    SortedByTime(list) && multiset(list) == multiset(Upcoming(rows, now))
  }

  /** The filter keeps exactly the upcoming rows. */
  lemma {:induction false} UpcomingMembers(rows: seq<Row>, now: int, r: Row)
    ensures r in Upcoming(rows, now) <==> r in rows && IsUpcoming(r, now)
  {
    if rows != [] {
      UpcomingMembers(rows[1..], now, r);
      assert rows == [rows[0]] + rows[1..];
    }
  }

  /** Every row in the view is a stored row with a non-empty date and time
      and a valid timestamp not before `now`. */
  lemma ViewSound(list: seq<Row>, rows: seq<Row>, now: int, r: Row)
    requires IsUpcomingView(list, rows, now) && r in list
    ensures r in rows && r.date != "" && r.time != ""
    ensures Parse(r.date, r.time).Some? && Parse(r.date, r.time).value >= now
  {
    assert r in multiset(Upcoming(rows, now));
    UpcomingMembers(rows, now, r);
  }

  /** Every stored row with a non-empty date and time and a valid timestamp
      not before `now` is in the view. */
  lemma ViewComplete(list: seq<Row>, rows: seq<Row>, now: int, r: Row)
    requires IsUpcomingView(list, rows, now)
    requires r in rows && r.date != "" && r.time != ""
    requires Parse(r.date, r.time).Some? && Parse(r.date, r.time).value >= now
    ensures r in list
  {
    UpcomingMembers(rows, now, r);
    assert r in multiset(list);
  }

  /** A stored row whose date or time does not parse is never shown. */
  lemma ViewDropsUnparseable(list: seq<Row>, rows: seq<Row>, now: int, r: Row)
    requires IsUpcomingView(list, rows, now) && Parse(r.date, r.time).None?
    ensures r !in list
  {
    if r in list {
      ViewSound(list, rows, now, r);
    }
  }

  /** The view is in (date, time) order: of two neighbours, the first is on
      an earlier day, or on the same day at the same time or earlier. */
  lemma ViewChronological(list: seq<Row>, rows: seq<Row>, now: int, i: nat)
    requires IsUpcomingView(list, rows, now) && i + 1 < |list|
    ensures CalendarDay(list[i].date).Some? && TimeOfDay(list[i].time).Some?
    ensures CalendarDay(list[i + 1].date).Some? && TimeOfDay(list[i + 1].time).Some?
    ensures CalendarDay(list[i].date).value < CalendarDay(list[i + 1].date).value ||
      (CalendarDay(list[i].date).value == CalendarDay(list[i + 1].date).value &&
       TimeOfDay(list[i].time).value <= TimeOfDay(list[i + 1].time).value)
    ensures TextLe(list[i].date + "T" + list[i].time, list[i + 1].date + "T" + list[i + 1].time)
  {
    ViewSound(list, rows, now, list[i]);
    ViewSound(list, rows, now, list[i + 1]);
    assert Key(list[i]) <= Key(list[i + 1]);
    ParseChronological(list[i].date, list[i].time, list[i + 1].date, list[i + 1].time);
    ParseTextOrder(list[i].date, list[i].time, list[i + 1].date, list[i + 1].time);
  }

  /** `Array.prototype.sort` with the comparator `(x, y) => key(x) - key(y)`,
      in place (an insertion sort: the library's algorithm is not modelled,
      only what it guarantees). */
  method SortInPlace<T>(a: array<T>, key: T -> int)
    modifies a
    ensures SortedBy(a[..], key)
    ensures multiset(a[..]) == old(multiset(a[..]))
  {
    var i := 0;
    while i < a.Length
      invariant 0 <= i <= a.Length
      invariant SortedBy(a[..i], key)
      invariant multiset(a[..]) == old(multiset(a[..]))
    {
      InsertIntoSorted(a, i, key);
      i := i + 1;
    }
  }

  /** Moves `a[i]` left past every larger element of the sorted `a[..i]`. */
  method InsertIntoSorted<T>(a: array<T>, i: nat, key: T -> int)
    requires i < a.Length && SortedBy(a[..i], key)
    modifies a
    ensures SortedBy(a[..i + 1], key)
    ensures multiset(a[..]) == old(multiset(a[..]))
  {
    var j := i;
    while j > 0 && key(a[j - 1]) > key(a[j])
      invariant 0 <= j <= i
      invariant forall p, q :: 0 <= p < q <= i && q != j ==> key(a[p]) <= key(a[q])
      invariant multiset(a[..]) == old(multiset(a[..]))
    {
      SwapAdjacent(a, j);
      j := j - 1;
    }
  }

  method SwapAdjacent<T>(a: array<T>, j: nat)
    requires 0 < j < a.Length
    modifies a
    ensures a[j - 1] == old(a[j]) && a[j] == old(a[j - 1])
    ensures forall k :: 0 <= k < a.Length && k != j - 1 && k != j ==> a[k] == old(a[k])
    ensures multiset(a[..]) == old(multiset(a[..]))
  {
    a[j - 1], a[j] := a[j], a[j - 1];
  }

  /** The body of `loadAppointments` once the rows are read: filter, then sort. */
  method SortedUpcoming(results: seq<Row>, now: int) returns (upcoming: seq<Row>)
    ensures IsUpcomingView(upcoming, results, now)
  {
    var kept := Upcoming(results, now);
    var a := new Row[|kept|](i requires 0 <= i < |kept| => kept[i]);
    assert a[..] == kept;
    SortInPlace(a, Key);
    upcoming := a[..];
  }

  /** The two answers of the "Cancel Appointment" prompt. */
  datatype Answer = No | Yes

  /** `Kept`: "No" was chosen. `Deleted`: the row is gone and the list was
      loaded again. `DeleteFailed`: the "Could not delete appointment." alert. */
  datatype DeleteOutcome = Kept | Deleted | DeleteFailed

  class UpcomingScreen {
    const db: Database
    var appointments: seq<Row>
    var loading: bool

    constructor (db: Database)
      ensures this.db == db && appointments == [] && loading
    {
      this.db := db;
      appointments := [];
      loading := true;
    }

    /** `loadAppointments`: a failed read shows an empty list; either way the
        spinner ends. The store is only read. */
    method LoadAppointments(now: int, readFails: bool)
      modifies this
      ensures !loading
      ensures readFails ==> appointments == []
      ensures !readFails ==> IsUpcomingView(appointments, db.rows, now)
    {
      var results := db.SelectAll(readFails);
      match results {
        case None =>
          appointments := [];
        case Some(rows) =>
          appointments := SortedUpcoming(rows, now);
      }
      loading := false;
    }

    /** `handleDelete(id)` followed by the user's answer. "No" changes nothing.
        "Yes" deletes the row with that id and no other, then loads again; if
        the delete fails the store and the list stay as they were. */
    method HandleDelete(id: int, answer: Answer, now: int, deleteFails: bool, readFails: bool)
      returns (outcome: DeleteOutcome)
      requires db.Valid()
      modifies this, db
      ensures db.Valid() && db.nextId == old(db.nextId) && db.issued == old(db.issued)
      ensures answer == No ==> outcome == Kept
      ensures answer == Yes && deleteFails ==> outcome == DeleteFailed
      ensures answer == Yes && !deleteFails ==> outcome == Deleted
      ensures outcome != Deleted ==>
        db.rows == old(db.rows) && appointments == old(appointments) && loading == old(loading)
      ensures outcome == Deleted ==>
        answer == Yes && db.rows == Without(old(db.rows), id) && !loading &&
        (readFails ==> appointments == []) &&
        (!readFails ==> IsUpcomingView(appointments, db.rows, now))
      ensures outcome == Deleted ==> forall r :: r in appointments ==> r.id != id
    {
      if answer == No {
        return Kept;
      }
      var ok := db.DeleteById(id, deleteFails);
      if !ok {
        return DeleteFailed;
      }
      LoadAppointments(now, readFails);
      forall r | r in appointments ensures r.id != id {
        if !readFails {
          ViewSound(appointments, db.rows, now, r);
          WithoutMembers(old(db.rows), id, r);
        }
      }
      outcome := Deleted;
    }
  }

  /** A booking for 2030-01-01 at 09:00 in an otherwise empty store is, for any
      `now` before that moment, the single row of the loaded view. */
  lemma BookedThenListed(now: int)
    requires now <= (DaysBeforeYear(2030) * MinutesPerDay + 540) * MsPerMinute
    ensures Parse("2030-01-01", "09:00") == Some((DaysBeforeYear(2030) * MinutesPerDay + 540) * MsPerMinute)
    ensures forall list :: IsUpcomingView(list, [Booked(1, "2030-01-01", "09:00")], now) ==>
      list == [Booked(1, "2030-01-01", "09:00")]
  {
    FirstSlotOf2030();
    SingleUpcoming(Booked(1, "2030-01-01", "09:00"), now);
  }

  /** A store of one upcoming row is listed as that row alone. */
  lemma SingleUpcoming(r: Row, now: int)
    requires IsUpcoming(r, now)
    ensures forall list :: IsUpcomingView(list, [r], now) ==> list == [r]
  {
    assert Upcoming([r], now) == [r] by {
      assert [r][1..] == [];
    }
    forall list | IsUpcomingView(list, [r], now) ensures list == [r] {
      assert multiset(list) == multiset{r};
      assert |list| == 1;
      assert list[0] in multiset(list);
    }
  }

  /** The day and time fields of the 2030-01-01 09:00 booking. */
  lemma FirstSlotOf2030()
    ensures CalendarDay("2030-01-01") == Some(DaysBeforeYear(2030))
    ensures TimeOfDay("09:00") == Some(540)
    ensures Parse("2030-01-01", "09:00") == Some((DaysBeforeYear(2030) * MinutesPerDay + 540) * MsPerMinute)
  {
    assert "2030"[..3] == "203" && "203"[..2] == "20" && "20"[..1] == "2";
    assert DigitsValue("2030") == Some(2030);
    assert "01"[..1] == "0" && "09"[..1] == "0" && "00"[..1] == "0";
    assert DigitsValue("01") == Some(1);
    assert DigitsValue("09") == Some(9);
    assert DigitsValue("00") == Some(0);
    assert "2030-01-01"[..4] == "2030" && "2030-01-01"[5..7] == "01" && "2030-01-01"[8..] == "01";
    assert "09:00"[..2] == "09" && "09:00"[3..] == "00";
  }

  /** Booking a day and slot on the booking screen, then opening the list on
      the same database: the new row is listed exactly when its date and time
      are a valid moment at or after `now`. */
  method BookThenList(db: Database, day: string, slot: string, now: int) returns (list: UpcomingScreen)
    requires db.Valid() && day != "" && slot in TimeSlots
    modifies db
    ensures db.Valid() && db.rows == old(db.rows) + [Booked(old(db.nextId), day, slot)]
    ensures list.db == db && !list.loading
    ensures Booked(old(db.nextId), day, slot) in list.appointments <==>
      Parse(day, slot).Some? && Parse(day, slot).value >= now
  {
    SlotNonEmpty(slot);
    var booking := new BookingScreen(db);
    var ready := booking.Init(false);
    booking.SelectDate(day);
    booking.SelectTime(slot);
    var outcome := booking.Book(false);
    list := new UpcomingScreen(db);
    list.LoadAppointments(now, false);
    var r := Booked(old(db.nextId), day, slot);
    assert r in db.rows;
    if Parse(day, slot).Some? && Parse(day, slot).value >= now {
      ViewComplete(list.appointments, db.rows, now, r);
    } else if r in list.appointments {
      ViewSound(list.appointments, db.rows, now, r);
    }
  }
}

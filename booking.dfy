/** The appointment booking screen: pick a calendar day, then one of the fixed
    time slots, then confirm, which inserts one row into the shared
    `appointments` table. */
module Booking {
  import opened Wrappers
  import opened Decimal
  import opened Timestamp
  import opened AppointmentStore

  /** The bookable start times, the same every day. */
  const TimeSlots: seq<string> := [
    "09:00", "09:30", "10:00", "10:30", "11:00", "11:30", "12:00", "12:30",
    "13:00", "13:30", "14:00", "14:30", "15:00", "15:30", "16:00", "16:30"]

  /** Slot `k` starts 9 hours plus `k` half hours after midnight: sixteen slots
      from 09:00 to 16:30, each thirty minutes after the one before. */
  lemma TimeSlotsAreHalfHours()
    ensures |TimeSlots| == 16
    ensures forall k :: 0 <= k < 16 ==> TimeOfDay(TimeSlots[k]) == Some(540 + 30 * k)
  {
    forall k | 0 <= k < 16 ensures TimeOfDay(TimeSlots[k]) == Some(540 + 30 * k) {
      var s := TimeSlots[k];
      assert DigitsValue(s[..2]) == Some((540 + 30 * k) / 60);
      assert DigitsValue(s[3..]) == Some((540 + 30 * k) % 60);
    }
  }

  /** No slot is listed twice. */
  lemma TimeSlotsDistinct()
    ensures forall i, j :: 0 <= i < j < |TimeSlots| ==> TimeSlots[i] != TimeSlots[j]
  {
    TimeSlotsAreHalfHours();
    forall i, j | 0 <= i < j < |TimeSlots| ensures TimeSlots[i] != TimeSlots[j] {
      assert TimeOfDay(TimeSlots[i]) != TimeOfDay(TimeSlots[j]);
    }
  }

  /** Every slot is a non-empty string. */
  lemma SlotNonEmpty(slot: string)
    requires slot in TimeSlots
    ensures |slot| == 5
  {
    TimeSlotsAreHalfHours();
    var k :| 0 <= k < |TimeSlots| && TimeSlots[k] == slot;
  }

  /** JavaScript truthiness of a `string | null` state value. */
  predicate Truthy(v: Option<string>) {
    v.Some? && v.value != ""
  }

  /** What pressing "Confirm Appointment" ends in. `MissingSelection` is the
      "Pick a date and time first" alert; `Confirmed` is the success alert
      followed by `router.replace("/(tabs)")`; `SaveFailed` is the "Could not
      save your appointment" alert, after which the screen stays as it was. */
  datatype BookOutcome = MissingSelection | Confirmed(date: string, time: string) | SaveFailed

  /** How the mount effect ends: the screen becomes usable, or the "Could not
      initialize database" alert is shown and the spinner stays. */
  datatype InitOutcome = Ready | InitFailed

  class BookingScreen {
    const db: Database
    var dbReady: bool
    var selectedDate: Option<string>
    var selectedTime: Option<string>

    /** The screen as first rendered: the spinner, nothing selected. */
    constructor (db: Database)
      ensures this.db == db && !dbReady && selectedDate == None && selectedTime == None
    {
      this.db := db;
      dbReady := false;
      selectedDate := None;
      selectedTime := None;
    }

    /** The mount effect: create the table if needed; only on success does the
        screen leave its spinner. */
    method Init(fails: bool) returns (outcome: InitOutcome)
      modifies this
      ensures outcome == (if fails then InitFailed else Ready)
      ensures dbReady == (old(dbReady) || !fails)
      ensures selectedDate == old(selectedDate) && selectedTime == old(selectedTime)
    {
      var ok := db.CreateTableIfNotExists(fails);
      if ok {
        dbReady := true;
        outcome := Ready;
      } else {
        outcome := InitFailed;
      }
    }

    /** The Confirm button is enabled exactly when both a date and a time are set. */
    predicate ConfirmEnabled()
      reads this
    {
      Truthy(selectedDate) && Truthy(selectedTime)
    }

    /** `onDayPress`: the picked day becomes the date and any picked time is
        cleared. The calendar is rendered only once the spinner is gone, and
        the day already selected is marked `disableTouchEvent`, so tapping it
        does not reach this handler. */
    method SelectDate(dateString: string)
      requires dbReady
      requires !(Truthy(selectedDate) && selectedDate.value == dateString)
      modifies this
      ensures selectedDate == Some(dateString) && selectedTime == None
      ensures dbReady == old(dbReady)
    {
      selectedDate := Some(dateString);
      selectedTime := None;
    }

    /** A slot's `onPress`. The slots are only rendered once the spinner is
        gone and while a date is selected. */
    method SelectTime(slot: string)
      requires dbReady && Truthy(selectedDate) && slot in TimeSlots
      modifies this
      ensures selectedTime == Some(slot)
      ensures selectedDate == old(selectedDate) && dbReady == old(dbReady)
    {
      selectedTime := Some(slot);
    }

    /** `bookAppointment`, reachable once the spinner is gone. Without both a
        date and a time nothing is written; with both, exactly one row carrying
        them is appended under a never-used id, unless the transaction fails,
        which writes nothing. The selection is kept in every case. There is no
        check against rows already booked for the same date and time. */
    method Book(fails: bool) returns (outcome: BookOutcome)
      requires dbReady && db.Valid()
      modifies db
      ensures db.Valid()
      ensures !ConfirmEnabled() ==> outcome == MissingSelection
      ensures ConfirmEnabled() && fails ==> outcome == SaveFailed
      ensures ConfirmEnabled() && !fails ==>
        outcome == Confirmed(selectedDate.value, selectedTime.value) &&
        db.rows == old(db.rows) + [Booked(old(db.nextId), selectedDate.value, selectedTime.value)] &&
        db.nextId == old(db.nextId) + 1 && db.issued == old(db.issued) + {old(db.nextId)} &&
        forall x :: x in old(db.issued) ==> x < old(db.nextId)
      ensures !ConfirmEnabled() || fails ==>
        db.rows == old(db.rows) && db.nextId == old(db.nextId) && db.issued == old(db.issued)
    {
      if !ConfirmEnabled() {
        return MissingSelection;
      }
      var ok := db.Insert(selectedDate.value, selectedTime.value, fails);
      if ok {
        outcome := Confirmed(selectedDate.value, selectedTime.value);
      } else {
        outcome := SaveFailed;
      }
    }
  }

  /** Two visits to the booking screen that choose the same day and slot both
      succeed: the store then holds two rows for that date and time, with
      different ids. */
  method BookSameSlotTwice(db: Database, day: string, slot: string)
    requires db.Valid() && day != "" && slot in TimeSlots
    modifies db
    ensures db.Valid() && |db.rows| == |old(db.rows)| + 2
    ensures db.rows[..|old(db.rows)|] == old(db.rows)
    ensures db.rows[|old(db.rows)|] == Booked(old(db.nextId), day, slot)
    ensures db.rows[|old(db.rows)| + 1] == Booked(old(db.nextId) + 1, day, slot)
    ensures old(db.nextId) !in old(db.issued) && old(db.nextId) + 1 !in old(db.issued)
  {
    SlotNonEmpty(slot);
    var first := new BookingScreen(db);
    var i1 := first.Init(false);
    first.SelectDate(day);
    first.SelectTime(slot);
    var o1 := first.Book(false);
    assert o1 == Confirmed(day, slot);
    var second := new BookingScreen(db);
    var i2 := second.Init(false);
    second.SelectDate(day);
    second.SelectTime(slot);
    var o2 := second.Book(false);
    assert o2 == Confirmed(day, slot);
  }
}

/** The patient records screen and its `patient_records` table in
    `patientRecords.db`: a list that starts with two sample records, a modal
    form, and an add that validates, prepends, resets the form and inserts. */
module PatientRecords {
  import opened Wrappers
  import opened Decimal
  import opened Collation
  import opened Timestamp

  datatype MedicalRecord = MedicalRecord(
    id: string,
    visitDate: string,
    doctorName: string,
    diagnosis: string,
    prescription: string,
    allergies: string,
    medicalHistory: string)

  /** The modal's `newRecord`: a medical record without its id. */
  datatype RecordForm = RecordForm(
    visitDate: string,
    doctorName: string,
    diagnosis: string,
    prescription: string,
    allergies: string,
    medicalHistory: string)

  /** The form as first shown and after every save: today's date, all else empty. */
  function BlankForm(today: string): RecordForm {
    RecordForm(today, "", "", "", "", "")
  }

  /** `{ id, ...newRecord }`. */
  function WithId(id: string, f: RecordForm): MedicalRecord {
    MedicalRecord(id, f.visitDate, f.doctorName, f.diagnosis, f.prescription, f.allergies, f.medicalHistory)
  }

  /** The two sample records the list starts with. */
  const SeedRecords: seq<MedicalRecord> := [
    MedicalRecord("1", "2023-05-15", "Dr. Smith", "Hypertension Stage 1",
      "Lisinopril 10mg daily, Monitor BP weekly", "Penicillin, Sulfa drugs",
      "Family history of hypertension"),
    MedicalRecord("2", "2023-04-10", "Dr. Johnson", "Type 2 Diabetes",
      "Metformin 500mg twice daily with meals", "None known",
      "Predicates for 2 years prior")]

  /** The one validation `addRecord` makes: doctor name and diagnosis are filled in. */
  predicate CanSave(f: RecordForm) {
    f.doctorName != "" && f.diagnosis != ""
  }

  /** The five text inputs of the modal. There is none for `medicalHistory`. */
  datatype FormField = VisitDate | DoctorName | Diagnosis | Prescription | Allergies

  /** `onChangeText`: `setNewRecord({...newRecord, field: text})`. */
  function Edit(f: RecordForm, field: FormField, text: string): RecordForm {
    match field
      case VisitDate => f.(visitDate := text)
      case DoctorName => f.(doctorName := text)
      case Diagnosis => f.(diagnosis := text)
      case Prescription => f.(prescription := text)
      case Allergies => f.(allergies := text)
  }

  /** Prescription, allergies and medical history are never validated: a form
      that passes passes with any values there, empty ones included. */
  lemma OptionalFieldsNotValidated(f: RecordForm, p: string, a: string, h: string)
    ensures CanSave(f) <==> CanSave(f.(prescription := p, allergies := a, medicalHistory := h))
  {
  }

  /** Editing a field sets that field and leaves the others as they were. */
  lemma EditSetsOneField(f: RecordForm, field: FormField, text: string)
    ensures var g := Edit(f, field, text);
      g.medicalHistory == f.medicalHistory &&
      (g.visitDate == if field == VisitDate then text else f.visitDate) &&
      (g.doctorName == if field == DoctorName then text else f.doctorName) &&
      (g.diagnosis == if field == Diagnosis then text else f.diagnosis) &&
      (g.prescription == if field == Prescription then text else f.prescription) &&
      (g.allergies == if field == Allergies then text else f.allergies)
  {
  }

  // ---------------------------------------------------------------------
  // ORDER BY visitDate DESC

  /** Newest visit first. */
  predicate NewestFirst(s: seq<MedicalRecord>) {
    forall i, j :: 0 <= i < j < |s| ==> TextLe(s[j].visitDate, s[i].visitDate)
  }

  function InsertNewestFirst(r: MedicalRecord, s: seq<MedicalRecord>): seq<MedicalRecord> {
    if s == [] || TextLe(s[0].visitDate, r.visitDate) then [r] + s
    else [s[0]] + InsertNewestFirst(r, s[1..])
  }

  /** The rows of `SELECT * FROM patient_records ORDER BY visitDate DESC`.
      Rows with equal visit dates come out in one fixed order here; SQLite
      leaves that order unspecified. */
  function OrderByVisitDateDesc(rows: seq<MedicalRecord>): seq<MedicalRecord> {
    if rows == [] then [] else InsertNewestFirst(rows[0], OrderByVisitDateDesc(rows[1..]))
  }

  lemma {:induction false} InsertNewestFirstCorrect(r: MedicalRecord, s: seq<MedicalRecord>)
    requires NewestFirst(s)
    ensures multiset(InsertNewestFirst(r, s)) == multiset(s) + multiset{r}
    ensures NewestFirst(InsertNewestFirst(r, s))
  {
    var t := InsertNewestFirst(r, s);
    if s == [] || TextLe(s[0].visitDate, r.visitDate) {
      forall j | 0 < j < |t| ensures TextLe(t[j].visitDate, t[0].visitDate) {
        assert t[j] == s[j - 1];
        if j > 1 {
          TextLeTrans(s[j - 1].visitDate, s[0].visitDate, r.visitDate);
        }
      }
    } else {
      assert NewestFirst(s[1..]) by {
        forall i, j | 0 <= i < j < |s[1..]| ensures TextLe(s[1..][j].visitDate, s[1..][i].visitDate) {
          assert s[1..][i] == s[i + 1] && s[1..][j] == s[j + 1];
        }
      }
      InsertNewestFirstCorrect(r, s[1..]);
      InsertBelowHead(r, s);
    }
  }

  /** The step of `InsertNewestFirstCorrect` where `r` goes below the head. */
  lemma InsertBelowHead(r: MedicalRecord, s: seq<MedicalRecord>)
    requires NewestFirst(s) && s != [] && !TextLe(s[0].visitDate, r.visitDate)
    requires multiset(InsertNewestFirst(r, s[1..])) == multiset(s[1..]) + multiset{r}
    requires NewestFirst(InsertNewestFirst(r, s[1..]))
    ensures multiset(InsertNewestFirst(r, s)) == multiset(s) + multiset{r}
    ensures NewestFirst(InsertNewestFirst(r, s))
  {
    var t := InsertNewestFirst(r, s);
    var rest := InsertNewestFirst(r, s[1..]);
    assert t == [s[0]] + rest;
    assert s == [s[0]] + s[1..];
    TextLeTotal(s[0].visitDate, r.visitDate);
    forall j | 0 < j < |t| ensures TextLe(t[j].visitDate, t[0].visitDate) {
      assert t[j] == rest[j - 1];
      assert t[j] in multiset(rest);
      if t[j] != r {
        assert t[j] in multiset(s[1..]);
        var k :| 0 <= k < |s[1..]| && s[1..][k] == t[j];
        assert s[k + 1] == t[j];
      }
    }
  }

  /** The query's order is newest visit first, and it returns exactly the
      stored rows. */
  lemma {:induction false} OrderByVisitDateDescCorrect(rows: seq<MedicalRecord>)
    ensures NewestFirst(OrderByVisitDateDesc(rows))
    ensures multiset(OrderByVisitDateDesc(rows)) == multiset(rows)
  {
    if rows != [] {
      OrderByVisitDateDescCorrect(rows[1..]);
      InsertNewestFirstCorrect(rows[0], OrderByVisitDateDesc(rows[1..]));
      assert rows == [rows[0]] + rows[1..];
    }
  }

  /** For visit dates that are valid `YYYY-MM-DD` days, newest first in text
      order is newest first on the calendar. */
  lemma NewestFirstChronological(s: seq<MedicalRecord>, i: nat, j: nat)
    requires NewestFirst(s) && i < j < |s|
    requires CalendarDay(s[i].visitDate).Some? && CalendarDay(s[j].visitDate).Some?
    ensures CalendarDay(s[j].visitDate).value <= CalendarDay(s[i].visitDate).value
  {
    CalendarDayOrder(s[j].visitDate, s[i].visitDate);
  }

  // ---------------------------------------------------------------------
  // The table

  predicate HasId(rows: seq<MedicalRecord>, id: string) {
    exists i :: 0 <= i < |rows| && rows[i].id == id
  }

  predicate IdsDistinct(rows: seq<MedicalRecord>) {
    forall i, j :: 0 <= i < j < |rows| ==> rows[i].id != rows[j].id
  }

  class RecordStore {
    var rows: seq<MedicalRecord>
    /** False when opening `patientRecords.db` failed: every later use throws. */
    var isOpen: bool

    /** `id TEXT PRIMARY KEY`. */
    predicate Valid()
      reads this
    {
      IdsDistinct(rows)
    }

    /** The file as the app finds it, before the launch-time setup has run. */
    constructor (persisted: seq<MedicalRecord>)
      requires IdsDistinct(persisted)
      ensures Valid() && rows == persisted && !isOpen
    {
      rows := persisted;
      isOpen := false;
    }

    /** The launch-time setup: `DROP TABLE IF EXISTS patient_records`, then
        `CREATE TABLE`, so every launch starts from an empty table. */
    method DropAndCreate(fails: bool)
      requires Valid()
      modifies this
      ensures Valid() && isOpen == !fails
      ensures isOpen ==> rows == []
      ensures !isOpen ==> rows == old(rows)
    {
      if fails {
        isOpen := false;
      } else {
        rows := [];
        isOpen := true;
      }
    }

    /** `INSERT INTO patient_records (...) VALUES (...)`: refused when the
        store is unusable, when the write fails, or when the id is taken. */
    method Insert(r: MedicalRecord, fails: bool) returns (ok: bool)
      requires Valid()
      modifies this
      ensures Valid() && isOpen == old(isOpen)
      ensures ok == (isOpen && !fails && !HasId(old(rows), r.id))
      ensures ok ==> rows == old(rows) + [r]
      ensures !ok ==> rows == old(rows)
    {
      ok := isOpen && !fails && !HasId(rows, r.id);
      if ok {
        rows := rows + [r];
      }
    }

    /** `SELECT * FROM patient_records ORDER BY visitDate DESC`, or `None`
        when the read throws. */
    method SelectNewestFirst(fails: bool) returns (result: Option<seq<MedicalRecord>>)
      ensures result.Some? <==> isOpen && !fails
      ensures result.Some? ==> result.value == OrderByVisitDateDesc(rows)
    {
      result := if isOpen && !fails then Some(OrderByVisitDateDesc(rows)) else None;
    }
  }

  // ---------------------------------------------------------------------
  // The screen

  /** What Save ends in: the "Please fill in doctor name and diagnosis" alert,
      a stored record, or a failed insert that is only logged. */
  datatype AddOutcome = Rejected | Saved | SaveFailed

  class RecordsScreen {
    const store: RecordStore
    var loading: bool
    var records: seq<MedicalRecord>
    var modalVisible: bool
    var form: RecordForm

    /** No input edits `medicalHistory`, so the form's stays empty. */
    predicate Valid()
      reads this
    {
      form.medicalHistory == ""
    }

    constructor (store: RecordStore, today: string)
      ensures Valid() && this.store == store
      ensures loading && records == SeedRecords && !modalVisible && form == BlankForm(today)
    {
      this.store := store;
      loading := true;
      records := SeedRecords;
      modalVisible := false;
      form := BlankForm(today);
    }

    /** The mount effect `initDB`: the list is replaced by the query result
        only when that result is non-empty; otherwise, and when the query
        throws, the list stays as it was. */
    method InitLoad(readFails: bool)
      modifies this
      ensures Valid() == old(Valid()) && !loading
      ensures form == old(form) && modalVisible == old(modalVisible)
      ensures var result := OrderByVisitDateDesc(store.rows);
        records == if store.isOpen && !readFails && |result| > 0 then result else old(records)
    {
      var result := store.SelectNewestFirst(readFails);
      if result.Some? && |result.value| > 0 {
        records := result.value;
      }
      loading := false;
    }

    /** "Add Record". */
    method OpenModal()
      modifies this
      ensures modalVisible
      ensures records == old(records) && form == old(form) && loading == old(loading)
    {
      modalVisible := true;
    }

    /** "Cancel" and the modal's back action: the form keeps what was typed. */
    method CloseModal()
      modifies this
      ensures !modalVisible
      ensures records == old(records) && form == old(form) && loading == old(loading)
    {
      modalVisible := false;
    }

    method EditForm(field: FormField, text: string)
      requires Valid()
      modifies this
      ensures Valid() && form == Edit(old(form), field, text)
      ensures records == old(records) && modalVisible == old(modalVisible) && loading == old(loading)
    {
      form := Edit(form, field, text);
    }

    /** `addRecord`. `listNow` and `rowNow` are the two `Date.now()` readings
        that name the listed record and the stored row. An invalid form changes
        nothing. A valid one is put at the head of the list, the modal closes
        and the form is blanked; then the values entered before the reset are
        inserted. A failed insert is only logged: the list keeps the record. */
    method AddRecord(listNow: nat, rowNow: nat, today: string, insertFails: bool)
      returns (outcome: AddOutcome)
      requires Valid() && store.Valid()
      modifies this, store
      ensures Valid() && store.Valid() && store.isOpen == old(store.isOpen) && loading == old(loading)
      ensures outcome == Rejected <==> !CanSave(old(form))
      ensures !CanSave(old(form)) ==>
        outcome == Rejected && records == old(records) && form == old(form) &&
        modalVisible == old(modalVisible) && store.rows == old(store.rows)
      ensures CanSave(old(form)) ==>
        records == [WithId(Format(listNow), old(form))] + old(records) &&
        !modalVisible && form == BlankForm(today) &&
        (outcome == Saved <==> store.isOpen && !insertFails && !HasId(old(store.rows), Format(rowNow))) &&
        (outcome == Saved ==> store.rows == old(store.rows) + [WithId(Format(rowNow), old(form))])
      ensures outcome != Saved ==> store.rows == old(store.rows)
    {
      if !CanSave(form) {
        return Rejected;
      }
      var entered := form;
      records := [WithId(Format(listNow), entered)] + records;
      modalVisible := false;
      form := BlankForm(today);
      var ok := store.Insert(WithId(Format(rowNow), entered), insertFails);
      outcome := if ok then Saved else SaveFailed;
    }
  }

  /** Whatever the file held before, a launch shows the two sample records:
      the setup empties the table before the first query runs. */
  method LaunchShowsSeeds(persisted: seq<MedicalRecord>, today: string, openFails: bool, readFails: bool)
    returns (screen: RecordsScreen)
    requires IdsDistinct(persisted)
    ensures screen.records == SeedRecords && !screen.loading
  {
    var store := new RecordStore(persisted);
    store.DropAndCreate(openFails);
    screen := new RecordsScreen(store, today);
    screen.InitLoad(readFails);
  }
}

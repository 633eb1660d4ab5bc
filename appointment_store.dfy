/** The `appointments` table of `appointments.db`. The booking screen and the
    upcoming-appointments screen both open this one file, so they share one
    `Database` object. */
module AppointmentStore {
  import opened Wrappers

  /** One row. The booking screen's schema has only `id`, `date` and `time`;
      the list screen also reads `patientName`, `doctorName` and `department`,
      which this schema never fills, so they are optional. A SQL NULL text and
      the empty string are both falsy where the list screen tests them, and
      both are written `""` here. */
  datatype Row = Row(
    id: int,
    date: string,
    time: string,
    patientName: Option<string>,
    doctorName: Option<string>,
    department: Option<string>)

  /** The row `INSERT INTO appointments (date, time) VALUES (?, ?)` creates. */
  function Booked(id: int, date: string, time: string): Row {
    Row(id, date, time, None, None, None)
  }

  predicate IdsDistinct(rows: seq<Row>) {
    forall i, j :: 0 <= i < j < |rows| ==> rows[i].id != rows[j].id
  }

  predicate HasId(rows: seq<Row>, id: int) {
    exists i :: 0 <= i < |rows| && rows[i].id == id
  }

  /** The rows that survive `DELETE FROM appointments WHERE id = ?`, in their order. */
  function Without(rows: seq<Row>, id: int): seq<Row> {
    if rows == [] then []
    else (if rows[0].id == id then [] else [rows[0]]) + Without(rows[1..], id)
  }

  /** Deleting keeps exactly the rows with another id. */
  lemma {:induction false} WithoutMembers(rows: seq<Row>, id: int, r: Row)
    ensures r in Without(rows, id) <==> r in rows && r.id != id
  {
    if rows != [] {
      WithoutMembers(rows[1..], id, r);
      assert rows == [rows[0]] + rows[1..];
    }
  }

  /** Deleting an id that no row has changes nothing. */
  lemma {:induction false} WithoutAbsent(rows: seq<Row>, id: int)
    requires !HasId(rows, id)
    ensures Without(rows, id) == rows
  {
    if rows != [] {
      assert !HasId(rows[1..], id) by {
        forall i | 0 <= i < |rows[1..]| ensures rows[1..][i].id != id {
          assert rows[1..][i] == rows[i + 1];
        }
      }
      WithoutAbsent(rows[1..], id);
      assert rows == [rows[0]] + rows[1..];
    }
  }

  /** With distinct ids, deleting an id that is present removes exactly one
      row: the rows before it and the rows after it stay, in order. */
  lemma {:induction false} WithoutPresent(rows: seq<Row>, k: nat)
    requires k < |rows| && IdsDistinct(rows)
    ensures Without(rows, rows[k].id) == rows[..k] + rows[k + 1..]
  {
    var id := rows[k].id;
    if k == 0 {
      assert !HasId(rows[1..], id) by {
        forall i | 0 <= i < |rows[1..]| ensures rows[1..][i].id != id {
          assert rows[1..][i] == rows[i + 1];
        }
      }
      WithoutAbsent(rows[1..], id);
    } else {
      assert IdsDistinct(rows[1..]) by {
        forall i, j | 0 <= i < j < |rows[1..]| ensures rows[1..][i].id != rows[1..][j].id {
          assert rows[1..][i] == rows[i + 1] && rows[1..][j] == rows[j + 1];
        }
      }
      assert rows[1..][k - 1] == rows[k];
      WithoutPresent(rows[1..], k - 1);
      assert rows[..k] == [rows[0]] + rows[1..][..k - 1];
      assert rows[k + 1..] == rows[1..][k..];
    }
  }

  /** Deleting never adds a row and keeps ids distinct. */
  lemma {:induction false} WithoutSubset(rows: seq<Row>, id: int)
    requires IdsDistinct(rows)
    ensures IdsDistinct(Without(rows, id))
    ensures forall r :: r in Without(rows, id) ==> r in rows
  {
    forall r ensures r in Without(rows, id) ==> r in rows {
      WithoutMembers(rows, id, r);
    }
    if HasId(rows, id) {
      var k :| 0 <= k < |rows| && rows[k].id == id;
      WithoutPresent(rows, k);
      var w := Without(rows, id);
      forall i, j | 0 <= i < j < |w| ensures w[i].id != w[j].id {
        var i' := if i < k then i else i + 1;
        var j' := if j < k then j else j + 1;
        assert w[i] == rows[i'] && w[j] == rows[j'];
      }
    } else {
      WithoutAbsent(rows, id);
    }
  }

  class Database {
    var rows: seq<Row>
    /** The AUTOINCREMENT counter: one more than the largest id ever issued,
        so ids of deleted rows are never handed out again. */
    var nextId: int
    /** Every id handed out so far, including those of deleted rows. */
    ghost var issued: set<int>

    ghost predicate Valid()
      reads this
    {
      1 <= nextId && IdsDistinct(rows) &&
      (forall x :: x in issued ==> 1 <= x < nextId) &&
      forall i :: 0 <= i < |rows| ==> rows[i].id in issued
    }

    /** A fresh `appointments.db`: no rows, no id issued yet. */
    constructor ()
      ensures Valid() && rows == [] && nextId == 1 && issued == {}
    {
      rows := [];
      nextId := 1;
      issued := {};
    }

    /** `CREATE TABLE IF NOT EXISTS appointments (...)` in a transaction:
        `ok` is false when the store cannot be opened; the rows never change. */
    method CreateTableIfNotExists(fails: bool) returns (ok: bool)
      ensures ok == !fails
    {
      ok := !fails;
    }

    /** `INSERT INTO appointments (date, time) VALUES (?, ?)` inside
        `withTransactionAsync`: on failure nothing is written. The new id
        exceeds every id issued before, so it is not any existing row's. */
    method Insert(date: string, time: string, fails: bool) returns (ok: bool)
      requires Valid()
      modifies this
      ensures Valid() && ok == !fails
      ensures ok ==>
        rows == old(rows) + [Booked(old(nextId), date, time)] &&
        nextId == old(nextId) + 1 && issued == old(issued) + {old(nextId)}
      ensures ok ==> forall x :: x in old(issued) ==> x < old(nextId)
      ensures !ok ==> rows == old(rows) && nextId == old(nextId) && issued == old(issued)
    {
      if fails {
        return false;
      }
      rows := rows + [Booked(nextId, date, time)];
      issued := issued + {nextId};
      nextId := nextId + 1;
      ok := true;
    }

    /** `DELETE FROM appointments WHERE id = ?`. A missing id is not an error. */
    method DeleteById(id: int, fails: bool) returns (ok: bool)
      requires Valid()
      modifies this
      ensures Valid() && ok == !fails && nextId == old(nextId) && issued == old(issued)
      ensures ok ==> rows == Without(old(rows), id)
      ensures !ok ==> rows == old(rows)
    {
      if fails {
        return false;
      }
      WithoutSubset(rows, id);
      ghost var before := rows;
      rows := Without(rows, id);
      forall i | 0 <= i < |rows| ensures rows[i].id in issued {
        assert rows[i] in before;
      }
      ok := true;
    }

    /** `SELECT * FROM appointments`: every row, or `None` when the read fails. */
    method SelectAll(fails: bool) returns (result: Option<seq<Row>>)
      ensures fails <==> result.None?
      ensures result.Some? ==> result.value == rows
    {
      result := if fails then None else Some(rows);
    }
  }
}

/**
 * The `users` table: rows of (mobile_number, otp), and the three SQL
 * statements the service runs against it, as functions on the rows.
 *
 * The table's schema is not part of this model, so no uniqueness
 * constraint is assumed of the database: INSERT simply adds a row. That
 * each number has at most one row is instead an invariant the service
 * keeps (`DistinctNumbers`), and `Codes` is the number-to-code mapping that
 * a SELECT ... fetchone observes.
 */
module UsersTable {

  datatype Option<T> = None | Some(value: T)

  datatype Row = Row(mobile: string, otp: string)

  /** No two rows share a mobile number. */
  ghost predicate DistinctNumbers(rows: seq<Row>) {
    forall i, j :: 0 <= i < j < |rows| ==> rows[i].mobile != rows[j].mobile
  }

  /**
   * The code each number is looked up to: the first row for the number,
   * as fetchone returns it.
   */
  function Codes(rows: seq<Row>): map<string, string>
  {
    if rows == [] then map[] else Codes(rows[1..])[rows[0].mobile := rows[0].otp]
  }

  /** A number has a code exactly when some row carries that number. */
  lemma {:induction false} CodesKeys(rows: seq<Row>, mobile: string)
    ensures mobile in Codes(rows) <==> exists i :: 0 <= i < |rows| && rows[i].mobile == mobile
  {
    if rows != [] {
      var tail := rows[1..];
      CodesKeys(tail, mobile);
      if exists i :: 0 <= i < |tail| && tail[i].mobile == mobile {
        var i :| 0 <= i < |tail| && tail[i].mobile == mobile;
        assert rows[i + 1].mobile == mobile;
      }
      if exists i :: 0 <= i < |rows| && rows[i].mobile == mobile {
        var i :| 0 <= i < |rows| && rows[i].mobile == mobile;
        assert i == 0 || tail[i - 1].mobile == mobile;
      }
    }
  }

  /** The first row's number does not reappear further down a table with distinct numbers. */
  lemma FirstNumberNotInTail(rows: seq<Row>)
    requires rows != [] && DistinctNumbers(rows)
    ensures DistinctNumbers(rows[1..])
    ensures rows[0].mobile !in Codes(rows[1..])
  {
    var tail := rows[1..];
    forall i, j | 0 <= i < j < |tail| ensures tail[i].mobile != tail[j].mobile {
      assert tail[i] == rows[i + 1] && tail[j] == rows[j + 1];
    }
    CodesKeys(tail, rows[0].mobile);
    forall j | 0 <= j < |tail| ensures tail[j].mobile != rows[0].mobile {
      assert tail[j] == rows[j + 1];
    }
  }

  /** SELECT otp FROM users WHERE mobile_number=?, then fetchone. */
  function Select(rows: seq<Row>, mobile: string): (fetched: Option<string>)
    ensures fetched.Some? ==> Row(mobile, fetched.value) in rows
    ensures fetched.None? ==> forall i :: 0 <= i < |rows| ==> rows[i].mobile != mobile
  {
    if rows == [] then None
    else if rows[0].mobile == mobile then Some(rows[0].otp)
    else Select(rows[1..], mobile)
  }

  /** UPDATE users SET otp=? WHERE mobile_number=? */
  function Update(rows: seq<Row>, mobile: string, otp: string): (updated: seq<Row>)
    ensures |updated| == |rows|
    ensures forall i :: 0 <= i < |rows| ==>
      updated[i] == if rows[i].mobile == mobile then Row(mobile, otp) else rows[i]
  {
    if rows == [] then []
    else [if rows[0].mobile == mobile then Row(mobile, otp) else rows[0]] + Update(rows[1..], mobile, otp)
  }

  /** INSERT INTO users (mobile_number, otp) VALUES (?, ?) */
  function Insert(rows: seq<Row>, mobile: string, otp: string): (inserted: seq<Row>)
    ensures multiset(inserted) == multiset(rows) + multiset{Row(mobile, otp)}
  {
    rows + [Row(mobile, otp)]
  }

  /** The SELECT finds a row exactly when the number has a code, and finds that code. */
  lemma {:induction false} SelectFindsCode(rows: seq<Row>, mobile: string)
    ensures Select(rows, mobile) == if mobile in Codes(rows) then Some(Codes(rows)[mobile]) else None
  {
    if rows != [] && rows[0].mobile != mobile {
      SelectFindsCode(rows[1..], mobile);
    }
  }

  /**
   * While numbers are distinct, the number-to-code mapping holds a pair
   * exactly when the table holds that row: no row is hidden behind another.
   */
  lemma {:induction false} CodesAreRows(rows: seq<Row>, mobile: string, otp: string)
    requires DistinctNumbers(rows)
    ensures (mobile in Codes(rows) && Codes(rows)[mobile] == otp) <==> Row(mobile, otp) in rows
  {
    if rows != [] {
      var tail := rows[1..];
      FirstNumberNotInTail(rows);
      CodesAreRows(tail, mobile, otp);
      assert rows == [rows[0]] + tail;
    }
  }

  /** With distinct numbers there is one row per number that has a code. */
  lemma {:induction false} OneRowPerNumber(rows: seq<Row>)
    requires DistinctNumbers(rows)
    ensures |Codes(rows)| == |rows|
  {
    if rows != [] {
      FirstNumberNotInTail(rows);
      OneRowPerNumber(rows[1..]);
    }
  }

  /** UPDATE on a number that has a code replaces that code and nothing else. */
  lemma {:induction false} UpdateReplacesCode(rows: seq<Row>, mobile: string, otp: string)
    requires mobile in Codes(rows)
    ensures Codes(Update(rows, mobile, otp)) == Codes(rows)[mobile := otp]
  {
    var tail := rows[1..];
    var updated := Update(rows, mobile, otp);
    assert updated[1..] == Update(tail, mobile, otp);
    if rows[0].mobile == mobile {
      if mobile in Codes(tail) {
        UpdateReplacesCode(tail, mobile, otp);
      } else {
        UpdateAbsent(tail, mobile, otp);
      }
    } else {
      assert mobile in Codes(tail);
      UpdateReplacesCode(tail, mobile, otp);
    }
  }

  /** UPDATE on a number without a row changes no row. */
  lemma UpdateAbsent(rows: seq<Row>, mobile: string, otp: string)
    requires mobile !in Codes(rows)
    ensures Update(rows, mobile, otp) == rows
  {
  }

  /** UPDATE keeps each row's number, so it keeps the numbers distinct. */
  lemma UpdateKeepsDistinct(rows: seq<Row>, mobile: string, otp: string)
    requires DistinctNumbers(rows)
    ensures DistinctNumbers(Update(rows, mobile, otp))
  {
  }

  /** INSERT of a number without a code adds exactly that code. */
  lemma {:induction false} InsertAddsCode(rows: seq<Row>, mobile: string, otp: string)
    requires mobile !in Codes(rows)
    ensures Codes(Insert(rows, mobile, otp)) == Codes(rows)[mobile := otp]
  {
    if rows != [] {
      var tail := rows[1..];
      assert Insert(rows, mobile, otp)[1..] == Insert(tail, mobile, otp);
      InsertAddsCode(tail, mobile, otp);
    }
  }

  /** INSERT of a number without a row keeps the numbers distinct. */
  lemma InsertKeepsDistinct(rows: seq<Row>, mobile: string, otp: string)
    requires DistinctNumbers(rows)
    requires mobile !in Codes(rows)
    ensures DistinctNumbers(Insert(rows, mobile, otp))
  {
    CodesKeys(rows, mobile);
  }
}

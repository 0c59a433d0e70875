/**
 * The `url` table behind the storage layer, and the three SQL statements the
 * storage layer issues against it, as seen through `database/sql` and the `pq`
 * driver.
 *
 * The table is
 *   CREATE TABLE url(id SERIAL PRIMARY KEY, alias TEXT NOT NULL UNIQUE, url TEXT NOT NULL)
 * and is modelled as its rows in insertion order plus the next value of the
 * sequence behind `SERIAL`. The database itself is abstracted: a statement is
 * given an optional injected fault (a broken connection, a server error, ...)
 * standing for every failure the model does not derive from the table and
 * the parameters; a faulted statement has no effect. With no fault, the
 * server first rejects a parameter holding a NUL character (a `text` value
 * cannot store one), and otherwise runs the statement as PostgreSQL does,
 * except for the size limit on an index row: an alias too large for the
 * `alias` index is stored rather than refused.
 */
module Sql {
  import opened Wrappers

  /** The largest value of the `integer` sequence that backs a `SERIAL` column. */
  const SerialMax: int := 2147483647

  /** SQLSTATE `unique_violation`. */
  const UniqueViolation: string := "23505"

  /** SQLSTATE `sequence_generator_limit_exceeded`. */
  const SequenceLimitExceeded: string := "2200H"

  /** SQLSTATE `character_not_in_repertoire`. */
  const CharacterNotInRepertoire: string := "22021"

  /** An error reported by `database/sql` or the `pq` driver. */
  datatype DbError =
    | PqError(code: string, message: string)  // a `*pq.Error` carrying a SQLSTATE code
    | NoRows                                  // `sql.ErrNoRows`, from `Scan` on an empty result
    | Transport(cause: string)                // any other failure (connection lost, timeout, ...)

  /** The text `Error()` returns for a driver error. */
  function Text(e: DbError): string
  {
    match e
    case PqError(_, m) => "pq: " + m
    case NoRows => "sql: no rows in result set"
    case Transport(c) => c
  }

  /** The error the server reports for a `text` parameter holding a NUL character. */
  const NulRejected: DbError := PqError(CharacterNotInRepertoire, "invalid byte sequence for encoding \"UTF8\": 0x00")

  /** A string a `text` parameter can carry: it holds no NUL character. */
  predicate Storable(s: string)
  {
    forall i :: 0 <= i < |s| ==> s[i] != '\0'
  }

  datatype Row = Row(id: int, alias: string, url: string)

  /** The table's rows, oldest first, and the value `nextval` hands out next. */
  datatype Table = Table(rows: seq<Row>, serial: int)

  /** A freshly created table. */
  const Empty: Table := Table([], 1)

  /** Outcome of one statement: its value, or the error the driver reports. */
  datatype Query<+T> = Done(value: T) | Failed(error: DbError)

  predicate Has(rows: seq<Row>, alias: string)
  {
    exists i :: 0 <= i < |rows| && rows[i].alias == alias
  }

  /** `alias TEXT UNIQUE`: no two rows share an alias. */
  predicate UniqueAliases(rows: seq<Row>)
  {
    forall i, j :: 0 <= i < j < |rows| ==> rows[i].alias != rows[j].alias
  }

  /** `id PRIMARY KEY`: no two rows share an id. */
  predicate UniqueIds(rows: seq<Row>)
  {
    forall i, j :: 0 <= i < j < |rows| ==> rows[i].id != rows[j].id
  }

  /** Every stored id was handed out by the sequence before `serial`. */
  predicate IdsIssued(rows: seq<Row>, serial: int)
  {
    forall i :: 0 <= i < |rows| ==> 1 <= rows[i].id < serial
  }

  /** A `text` column holds no NUL character. */
  predicate StorableRows(rows: seq<Row>)
  {
    forall i :: 0 <= i < |rows| ==> Storable(rows[i].alias) && Storable(rows[i].url)
  }

  /** The invariant the schema and the sequence maintain. */
  predicate Valid(t: Table)
  {
    && 1 <= t.serial <= SerialMax + 1
    && UniqueAliases(t.rows)
    && UniqueIds(t.rows)
    && IdsIssued(t.rows, t.serial)
    && StorableRows(t.rows)
  }

  /** The first row with the given alias, if any. */
  function Lookup(rows: seq<Row>, alias: string): (r: Option<Row>)
    ensures r.None? <==> !Has(rows, alias)
    ensures r.Some? ==> r.value in rows && r.value.alias == alias
  {
    if |rows| == 0 then None
    else
      HasCons(rows, alias);
      if rows[0].alias == alias then Some(rows[0])
      else Lookup(rows[1..], alias)
  }

  /** A non-empty table has an alias when its first row does or the others do. */
  lemma HasCons(rows: seq<Row>, alias: string)
    requires |rows| > 0
    ensures Has(rows, alias) <==> rows[0].alias == alias || Has(rows[1..], alias)
  {
  }

  /** The number of rows with the given alias. */
  function Count(rows: seq<Row>, alias: string): (n: nat)
    ensures n <= |rows|
    ensures n == 0 <==> !Has(rows, alias)
  {
    if |rows| == 0 then 0
    else
      var n := Count(rows[1..], alias);
      HasCons(rows, alias);
      (if rows[0].alias == alias then 1 else 0) + n
  }

  /** The rows without the given alias, in their original order. */
  function Drop(rows: seq<Row>, alias: string): (r: seq<Row>)
    ensures |r| == |rows| - Count(rows, alias)
    ensures forall x :: x in r <==> x in rows && x.alias != alias
  {
    if |rows| == 0 then []
    else
      var rest := Drop(rows[1..], alias);
      assert forall x :: x in rows <==> x == rows[0] || x in rows[1..] by {
        assert rows == [rows[0]] + rows[1..];
      }
      (if rows[0].alias == alias then [] else [rows[0]]) + rest
  }

  /**
   * `INSERT INTO url(url, alias) VALUES($1, $2) RETURNING id` followed by
   * `Scan`. The id default calls `nextval` before the unique constraint is
   * checked, and a sequence value once taken is never given back, so a
   * rejected duplicate still advances the sequence.
   */
  function Insert(t: Table, url: string, alias: string, fault: Option<string>): (r: (Query<int>, Table))
    ensures r.0.Done? <==> fault.None? && Storable(url) && Storable(alias) && t.serial <= SerialMax && !Has(t.rows, alias)
    ensures r.0.Done? ==> r.0.value == t.serial && r.1 == Table(t.rows + [Row(t.serial, alias, url)], t.serial + 1)
    ensures r.0.Failed? ==> r.1.rows == t.rows && r.0.error != NoRows
    ensures fault.Some? ==> r == (Failed(Transport(fault.value)), t)
    ensures fault.None? && !(Storable(url) && Storable(alias)) ==> r == (Failed(NulRejected), t)
    ensures (r.0.Failed? && r.0.error.PqError? && r.0.error.code == UniqueViolation)
            <==> fault.None? && Storable(url) && Storable(alias) && t.serial <= SerialMax && Has(t.rows, alias)
    ensures r.1.serial >= t.serial
    ensures Valid(t) ==> Valid(r.1)
  {
    if fault.Some? then (Failed(Transport(fault.value)), t)
    else if !Storable(url) || !Storable(alias) then (Failed(NulRejected), t)
    else if t.serial > SerialMax then
      (Failed(PqError(SequenceLimitExceeded, "nextval: reached maximum value of sequence \"url_id_seq\" (2147483647)")), t)
    else
      var id := t.serial;
      if Has(t.rows, alias) then
        (Failed(PqError(UniqueViolation, "duplicate key value violates unique constraint \"url_alias_key\"")), t.(serial := id + 1))
      else
        (Done(id), Table(t.rows + [Row(id, alias, url)], id + 1))
  }

  /** `SELECT url FROM url WHERE alias=$1` followed by `Scan` of the first row. */
  function Select(t: Table, alias: string, fault: Option<string>): (r: Query<string>)
    ensures fault.Some? ==> r == Failed(Transport(fault.value))
    ensures fault.None? && !Storable(alias) ==> r == Failed(NulRejected)
    ensures fault.None? && Storable(alias) ==> (r == Failed(NoRows) <==> !Has(t.rows, alias))
    ensures r.Done? <==> fault.None? && Storable(alias) && Has(t.rows, alias)
    ensures r.Done? ==> exists i :: 0 <= i < |t.rows| && t.rows[i] == Row(t.rows[i].id, alias, r.value)
  {
    if fault.Some? then Failed(Transport(fault.value))
    else if !Storable(alias) then Failed(NulRejected)
    else
      match Lookup(t.rows, alias)
      case None => Failed(NoRows)
      case Some(row) =>
        assert row in t.rows;
        Done(row.url)
  }

  /** `DELETE FROM url WHERE alias = $1`; the value is the number of rows affected. */
  function Delete(t: Table, alias: string, fault: Option<string>): (r: (Query<int>, Table))
    ensures fault.Some? ==> r == (Failed(Transport(fault.value)), t)
    ensures fault.None? && !Storable(alias) ==> r == (Failed(NulRejected), t)
    ensures r.0.Done? <==> fault.None? && Storable(alias)
    ensures r.0.Done? ==> r.0.value == |t.rows| - |r.1.rows|
    ensures r.0.Done? ==> (r.0.value == 0 <==> !Has(t.rows, alias))
    ensures r.0.Done? ==> !Has(r.1.rows, alias)
    ensures r.0.Done? ==> forall x :: x in r.1.rows <==> x in t.rows && x.alias != alias
    ensures forall other :: other != alias ==> Lookup(r.1.rows, other) == Lookup(t.rows, other)
    ensures !Has(t.rows, alias) ==> r.1 == t
    ensures r.1.serial == t.serial
  {
    if fault.Some? then (Failed(Transport(fault.value)), t)
    else if !Storable(alias) then (Failed(NulRejected), t)
    else
      var rest := Drop(t.rows, alias);
      DropKeepsOthers(t.rows, alias);
      DropAbsent(t.rows, alias);
      assert forall i :: 0 <= i < |rest| ==> rest[i] in rest && rest[i].alias != alias;
      (Done(Count(t.rows, alias)), t.(rows := rest))
  }

  /** A delete keeps the schema invariant and, under it, affects at most one row. */
  lemma DeleteKeepsValid(t: Table, alias: string, fault: Option<string>)
    requires Valid(t)
    ensures Valid(Delete(t, alias, fault).1)
    ensures Delete(t, alias, fault).0.Done? ==> Delete(t, alias, fault).0.value <= 1
  {
    DropKeepsValid(t.rows, alias, t.serial);
    CountUnique(t.rows, alias);
  }

  /** Under `UNIQUE(alias)` a statement matching one alias matches at most one row. */
  lemma {:induction false} CountUnique(rows: seq<Row>, alias: string)
    requires UniqueAliases(rows)
    ensures Count(rows, alias) <= 1
  {
    if |rows| > 0 {
      assert UniqueAliases(rows[1..]);
      CountUnique(rows[1..], alias);
      if rows[0].alias == alias {
        assert forall k :: 0 <= k < |rows| - 1 ==> rows[1..][k].alias == rows[k + 1].alias != alias;
      }
    }
  }

  /** Deleting rows keeps the schema invariant. */
  lemma {:induction false} DropKeepsValid(rows: seq<Row>, alias: string, serial: int)
    requires UniqueAliases(rows) && UniqueIds(rows) && IdsIssued(rows, serial) && StorableRows(rows)
    ensures UniqueAliases(Drop(rows, alias)) && UniqueIds(Drop(rows, alias)) && IdsIssued(Drop(rows, alias), serial)
    ensures StorableRows(Drop(rows, alias))
  {
    if |rows| > 0 {
      var head, tail := rows[0], rows[1..];
      assert forall k :: 0 <= k < |tail| ==> tail[k] == rows[k + 1];
      DropKeepsValid(tail, alias, serial);
      var rest := Drop(tail, alias);
      forall i | 0 <= i < |rest|
        ensures rest[i].alias != head.alias && rest[i].id != head.id && 1 <= rest[i].id < serial
        ensures Storable(rest[i].alias) && Storable(rest[i].url)
      {
        assert rest[i] in tail;
      }
      if head.alias != alias {
        assert Drop(rows, alias) == [head] + rest;
        ConsKeepsValid(head, rest, serial);
      } else {
        assert Drop(rows, alias) == rest;
      }
    }
  }

  /** A row whose alias and id are new can be put in front of a valid table. */
  lemma ConsKeepsValid(head: Row, rest: seq<Row>, serial: int)
    requires UniqueAliases(rest) && UniqueIds(rest) && IdsIssued(rest, serial) && StorableRows(rest)
    requires 1 <= head.id < serial && Storable(head.alias) && Storable(head.url)
    requires forall i :: 0 <= i < |rest| ==> rest[i].alias != head.alias && rest[i].id != head.id
    ensures UniqueAliases([head] + rest) && UniqueIds([head] + rest) && IdsIssued([head] + rest, serial)
    ensures StorableRows([head] + rest)
  {
  }

  /** Appending a row with a new alias leaves every earlier lookup as it was. */
  lemma {:induction false} LookupAppend(rows: seq<Row>, row: Row, alias: string)
    ensures Lookup(rows + [row], alias)
            == if Has(rows, alias) then Lookup(rows, alias)
               else if row.alias == alias then Some(row) else None
  {
    if |rows| == 0 {
      assert rows + [row] == [row];
    } else {
      assert (rows + [row])[1..] == rows[1..] + [row];
      LookupAppend(rows[1..], row, alias);
      HasCons(rows, alias);
    }
  }

  /** Dropping one alias leaves the lookup of every other alias as it was. */
  lemma {:induction false} LookupDrop(rows: seq<Row>, alias: string, other: string)
    requires other != alias
    ensures Lookup(Drop(rows, alias), other) == Lookup(rows, other)
  {
    if |rows| > 0 {
      LookupDrop(rows[1..], alias, other);
      var rest := Drop(rows[1..], alias);
      if rows[0].alias == alias {
        assert Drop(rows, alias) == rest;
        assert Lookup(rows, other) == Lookup(rows[1..], other);
      } else {
        var r := [rows[0]] + rest;
        assert Drop(rows, alias) == r;
        assert r[0] == rows[0] && r[1..] == rest;
        assert Lookup(r, other) == if rows[0].alias == other then Some(rows[0]) else Lookup(rest, other);
      }
    }
  }

  /** `LookupDrop` for all other aliases at once, as `Delete` states it. */
  lemma DropKeepsOthers(rows: seq<Row>, alias: string)
    ensures forall other :: other != alias ==> Lookup(Drop(rows, alias), other) == Lookup(rows, other)
  {
    forall other | other != alias
      ensures Lookup(Drop(rows, alias), other) == Lookup(rows, other)
    {
      LookupDrop(rows, alias, other);
    }
  }

  /** Dropping an alias no row has leaves the rows as they were. */
  lemma {:induction false} DropAbsent(rows: seq<Row>, alias: string)
    ensures !Has(rows, alias) ==> Drop(rows, alias) == rows
  {
    if |rows| > 0 {
      HasCons(rows, alias);
      DropAbsent(rows[1..], alias);
      assert rows == [rows[0]] + rows[1..];
    }
  }
}

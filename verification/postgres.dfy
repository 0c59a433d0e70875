/**
 * The PostgreSQL-backed storage layer: `SaveURL`, `GetURL` and `DeleteURL`
 * over the `url` table, with the error values each one returns.
 *
 * Each operation takes the table as it stands and the faults the database
 * injects, and gives back Go's `(value, error)` pair together with the table
 * afterwards (`GetURL` cannot change the table, so it gives back none).
 */
module Postgres {
  import opened Wrappers
  import opened GoErrors
  import opened Sql

  const ErrURLNotFound: Error := Sentinel("URL not found")

  /** Declared beside `ErrURLNotFound` but never returned or wrapped by any operation. */
  const ErrURLExists: Error := Sentinel("url exists")

  const SaveOp: string := "storage.postgres.SaveUrl"
  const GetOp: string := "storage.postgres.GetUrl"
  const DeleteOp: string := "storage.postgres.DeleteURL"

  /** Go's `(value, error)` result; a failing operation returns the zero value. */
  datatype Reply<T> = Reply(value: T, err: Option<Error>)

  /** A reply and the table after the operation. */
  datatype Transition<T> = Transition(reply: Reply<T>, after: Table)

  /** Faults for `DeleteURL`: one for `Exec`, one for `RowsAffected` on its result. */
  datatype DeleteFaults = DeleteFaults(exec: Option<string>, rowsAffected: Option<string>)

  const NoFaults: DeleteFaults := DeleteFaults(None, None)

  /** `fmt.Errorf("%s: %w", op, e)`. */
  function WithOp(op: string, e: Error): Error
  {
    Wrap(op + ": ", e)
  }

  /** The text of the error returned for an alias that is already taken. */
  function AliasTakenText(alias: string): string
  {
    SaveOp + ": alias " + alias + " already exists"
  }

  /**
   * A driver error wrapped with `%w` stays on the unwrap chain, and the chain
   * reaches neither sentinel.
   */
  lemma BackendWrapped(prefix: string, e: DbError)
    ensures Is(Wrap(prefix, Backend(e)), Backend(e))
    ensures !Is(Wrap(prefix, Backend(e)), ErrURLNotFound) && !Is(Wrap(prefix, Backend(e)), ErrURLExists)
  {
    assert Chain(Wrap(prefix, Backend(e))) == [Wrap(prefix, Backend(e)), Backend(e)];
    BackendRootIsNoSentinel(Wrap(prefix, Backend(e)), ErrURLNotFound.text);
    BackendRootIsNoSentinel(Wrap(prefix, Backend(e)), ErrURLExists.text);
  }

  /** Inserts a mapping and returns its id; fails when the alias is taken. */
  function SaveURL(s: Table, urlToSave: string, alias: string, fault: Option<string>): (r: Transition<int>)
    ensures r.reply.err.None?
            <==> fault.None? && Storable(urlToSave) && Storable(alias) && s.serial <= SerialMax && !Has(s.rows, alias)
    ensures r.reply.err.None? ==> r.reply.value == s.serial && r.after.rows == s.rows + [Row(s.serial, alias, urlToSave)]
    ensures r.reply.err.Some? ==> r.reply.value == 0 && r.after.rows == s.rows
    ensures fault.None? && Storable(urlToSave) && Storable(alias) && s.serial <= SerialMax && Has(s.rows, alias)
            ==> r.reply.err == Some(Msg(AliasTakenText(alias))) && forall c :: !IsErr(r.reply.err, Backend(c))
    ensures r.reply.err.Some? && r.reply.err != Some(Msg(AliasTakenText(alias))) ==> exists c :: IsErr(r.reply.err, Backend(c))
    ensures fault.Some? ==> IsErr(r.reply.err, Backend(Transport(fault.value)))
    ensures fault.None? && !(Storable(urlToSave) && Storable(alias)) ==> IsErr(r.reply.err, Backend(NulRejected))
    ensures r.reply.err.Some? ==> SaveOp + ": " <= Message(r.reply.err.value)
    ensures !IsErr(r.reply.err, ErrURLExists) && !IsErr(r.reply.err, ErrURLNotFound)
    ensures r.after.serial >= s.serial
    ensures r.reply.err.None? ==> r.after.serial == r.reply.value + 1
    ensures Valid(s) ==> Valid(r.after)
  {
    var (q, t) := Insert(s, urlToSave, alias, fault);
    match q
    case Done(id) => Transition(Reply(id, None), t)
    case Failed(e) =>
      if e.PqError? && e.code == UniqueViolation then
        Transition(Reply(0, Some(Msg(AliasTakenText(alias)))), t)
      else
        BackendWrapped(SaveOp + ": ", e);
        assert IsErr(Some(WithOp(SaveOp, Backend(e))), Backend(e));
        Transition(Reply(0, Some(WithOp(SaveOp, Backend(e)))), t)
  }

  /** Looks up the URL stored under an alias. */
  function GetURL(s: Table, alias: string, fault: Option<string>): (r: Reply<string>)
    ensures r.err.None? <==> fault.None? && Storable(alias) && Has(s.rows, alias)
    ensures r.err.None? ==> exists i :: 0 <= i < |s.rows| && s.rows[i].alias == alias && s.rows[i].url == r.value
    ensures r.err.Some? ==> r.value == "" && GetOp + ": " <= Message(r.err.value)
    ensures IsErr(r.err, ErrURLNotFound) <==> fault.None? && Storable(alias) && !Has(s.rows, alias)
    ensures fault.Some? ==> IsErr(r.err, Backend(Transport(fault.value)))
    ensures fault.None? && !Storable(alias) ==> IsErr(r.err, Backend(NulRejected))
    ensures !IsErr(r.err, ErrURLExists)
  {
    match Select(s, alias, fault)
    case Done(url) => Reply(url, None)
    case Failed(e) =>
      if e == NoRows then
        WrapIs(GetOp + ": ", ErrURLNotFound, ErrURLNotFound);
        WrapIs(GetOp + ": ", ErrURLNotFound, ErrURLExists);
        Reply("", Some(WithOp(GetOp, ErrURLNotFound)))
      else
        BackendWrapped(GetOp + ": ", e);
        Reply("", Some(WithOp(GetOp, Backend(e))))
  }

  /** Deletes the mapping of an alias; fails when there was none. */
  function DeleteURL(s: Table, alias: string, faults: DeleteFaults): (r: Transition<()>)
    ensures r.reply.err.None? <==> faults == NoFaults && Storable(alias) && Has(s.rows, alias)
    ensures IsErr(r.reply.err, ErrURLNotFound) <==> faults == NoFaults && Storable(alias) && !Has(s.rows, alias)
    ensures faults.exec.Some? ==> IsErr(r.reply.err, Backend(Transport(faults.exec.value)))
    ensures faults.exec.None? && !Storable(alias) ==> IsErr(r.reply.err, Backend(NulRejected))
    ensures faults.exec.None? && Storable(alias) && faults.rowsAffected.Some?
            ==> IsErr(r.reply.err, Backend(Transport(faults.rowsAffected.value)))
    ensures !IsErr(r.reply.err, ErrURLExists)
    ensures r.reply.err.Some? ==> DeleteOp + ": " <= Message(r.reply.err.value)
    ensures faults.exec.Some? || !Storable(alias) || !Has(s.rows, alias) ==> r.after == s
    ensures faults.exec.None? && Storable(alias) ==> !Has(r.after.rows, alias)
    ensures forall other :: other != alias ==> Lookup(r.after.rows, other) == Lookup(s.rows, other)
    ensures r.after.serial == s.serial
  {
    var (q, t) := Delete(s, alias, faults.exec);
    match q
    case Failed(e) =>
      BackendWrapped(DeleteOp + ": ", e);
      Transition(Reply((), Some(WithOp(DeleteOp, Backend(e)))), t)
    case Done(n) =>
      if faults.rowsAffected.Some? then
        var e := Transport(faults.rowsAffected.value);
        BackendWrapped(DeleteOp + ": failed to get rows affected: ", e);
        Transition(Reply((), Some(Wrap(DeleteOp + ": failed to get rows affected: ", Backend(e)))), t)
      else if n == 0 then
        WrapIs(DeleteOp + ": ", ErrURLNotFound, ErrURLNotFound);
        WrapIs(DeleteOp + ": ", ErrURLNotFound, ErrURLExists);
        Transition(Reply((), Some(WithOp(DeleteOp, ErrURLNotFound))), t)
      else
        Transition(Reply((), None), t)
  }

  /** Under `UNIQUE(alias)` a lookup returns the URL of the one row holding the alias. */
  lemma GetFindsTheRow(s: Table, i: int)
    requires Valid(s)
    requires 0 <= i < |s.rows|
    ensures GetURL(s, s.rows[i].alias, None) == Reply(s.rows[i].url, None)
  {
  }

  /** A saved URL is what a later lookup of its alias returns. */
  lemma SaveThenGet(s: Table, urlToSave: string, alias: string, fault: Option<string>)
    requires SaveURL(s, urlToSave, alias, fault).reply.err.None?
    ensures GetURL(SaveURL(s, urlToSave, alias, fault).after, alias, None) == Reply(urlToSave, None)
  {
    LookupAppend(s.rows, Row(s.serial, alias, urlToSave), alias);
  }

  /** Saving never changes what another alias resolves to. */
  lemma SaveKeepsOthers(s: Table, urlToSave: string, alias: string, fault: Option<string>, other: string, f: Option<string>)
    requires other != alias
    ensures GetURL(SaveURL(s, urlToSave, alias, fault).after, other, f) == GetURL(s, other, f)
  {
    var row := Row(s.serial, alias, urlToSave);
    LookupAppend(s.rows, row, other);
    assert Has(s.rows + [row], other) <==> Has(s.rows, other) by {
      assert forall i :: 0 <= i < |s.rows| ==> (s.rows + [row])[i] == s.rows[i];
    }
  }

  /** A rejected save leaves every lookup as it was. */
  lemma FailedSaveKeepsMappings(s: Table, urlToSave: string, alias: string, fault: Option<string>, other: string, f: Option<string>)
    requires SaveURL(s, urlToSave, alias, fault).reply.err.Some?
    ensures GetURL(SaveURL(s, urlToSave, alias, fault).after, other, f) == GetURL(s, other, f)
  {
  }

  /** Each id handed out is larger than every id already stored. */
  lemma SaveIdIsFresh(s: Table, urlToSave: string, alias: string, fault: Option<string>)
    requires Valid(s)
    requires SaveURL(s, urlToSave, alias, fault).reply.err.None?
    ensures forall i :: 0 <= i < |s.rows| ==> s.rows[i].id < SaveURL(s, urlToSave, alias, fault).reply.value
    ensures 1 <= SaveURL(s, urlToSave, alias, fault).reply.value <= SerialMax
  {
  }

  /**
   * After a delete has run, the alias is not found; an alias holding NUL is
   * rejected by both statements instead.
   */
  lemma DeleteThenGet(s: Table, alias: string, faults: DeleteFaults)
    requires faults.exec.None?
    ensures IsErr(GetURL(DeleteURL(s, alias, faults).after, alias, None).err, ErrURLNotFound) <==> Storable(alias)
  {
  }

  /** Deleting never changes what another alias resolves to. */
  lemma DeleteKeepsOthers(s: Table, alias: string, faults: DeleteFaults, other: string, f: Option<string>)
    requires other != alias
    ensures GetURL(DeleteURL(s, alias, faults).after, other, f) == GetURL(s, other, f)
  {
  }

  /** In a valid table a successful delete removes exactly one row and keeps the invariant. */
  lemma DeleteRemovesOneRow(s: Table, alias: string, faults: DeleteFaults)
    ensures Valid(s) ==> Valid(DeleteURL(s, alias, faults).after)
    ensures Valid(s) && DeleteURL(s, alias, faults).reply.err.None? ==> |DeleteURL(s, alias, faults).after.rows| == |s.rows| - 1
  {
    if Valid(s) {
      DeleteKeepsValid(s, alias, faults.exec);
    }
  }
}

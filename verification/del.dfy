/**
 * The HTTP handler that deletes an alias. Routing, JSON rendering and logging
 * are left out: the handler is a decision from the alias in the path and what
 * its `URLDeleter` answers to the response it renders.
 */
module Del {
  import opened Wrappers
  import opened GoErrors
  import opened Sql
  import opened Postgres

  const DeletedMsg: string := "url deleted succesfully"

  /** What the handler renders. */
  datatype Response =
    | InvalidRequest                 // the JSON string "invalid request"
    | NotFound                       // the JSON string "not found"
    | InternalError                  // the JSON string "internal error"
    | Ok(msg: string, alias: string) // `Response` with status OK, `msg` and `alias`

  /** The only storage capability the handler is given: `DeleteURL(alias) error`. */
  type URLDeleter = string -> Option<Error>

  /** The response to one request and the aliases `DeleteURL` was called with, in order. */
  datatype Exchange = Exchange(response: Response, calls: seq<string>)

  /** The branches taken once `DeleteURL` has answered: not found, other error, success. */
  function Respond(alias: string, err: Option<Error>): (r: Response)
    ensures r == NotFound <==> IsErr(err, ErrURLNotFound)
    ensures r == InternalError <==> err.Some? && !Is(err.value, ErrURLNotFound)
    ensures r.Ok? <==> err.None?
    ensures r.Ok? ==> r.msg == DeletedMsg && r.alias == alias
    ensures r != InvalidRequest
  {
    if IsErr(err, ErrURLNotFound) then NotFound
    else if err.Some? then InternalError
    else Ok(DeletedMsg, alias)
  }

  /** One request with the given alias taken from the path. */
  function Serve(alias: string, deleter: URLDeleter): (x: Exchange)
    ensures |x.calls| <= 1
    ensures forall c :: c in x.calls ==> c == alias
    ensures x.calls == [] <==> alias == ""
    ensures x.response == InvalidRequest <==> alias == ""
    ensures x.response == NotFound <==> alias != "" && IsErr(deleter(alias), ErrURLNotFound)
    ensures x.response == InternalError
            <==> alias != "" && deleter(alias).Some? && !Is(deleter(alias).value, ErrURLNotFound)
    ensures x.response.Ok? <==> alias != "" && deleter(alias).None?
    ensures x.response.Ok? ==> x.response == Ok(DeletedMsg, alias)
  {
    if alias == "" then Exchange(InvalidRequest, [])
    else Exchange(Respond(alias, deleter(alias)), [alias])
  }

  /** The handler consults its deleter only about the requested alias. */
  lemma ServeDependsOnlyOnAlias(alias: string, d1: URLDeleter, d2: URLDeleter)
    requires alias == "" || d1(alias) == d2(alias)
    ensures Serve(alias, d1) == Serve(alias, d2)
  {
  }

  /** The error text never reaches the client: every error other than not-found gives the same response. */
  lemma ErrorTextHidden(alias: string, e1: Error, e2: Error)
    requires !Is(e1, ErrURLNotFound) && !Is(e2, ErrURLNotFound)
    ensures Respond(alias, Some(e1)) == Respond(alias, Some(e2)) == InternalError
  {
  }

  /** A request served against the store, and the table afterwards. */
  datatype Served = Served(response: Response, after: Table)

  /** The handler wired to `Storage.DeleteURL`: the table changes only through the calls made. */
  function Handle(alias: string, s: Table, faults: DeleteFaults): (r: Served)
    ensures alias == "" ==> r == Served(InvalidRequest, s)
    ensures alias != ""
            ==> r == Served(Respond(alias, DeleteURL(s, alias, faults).reply.err), DeleteURL(s, alias, faults).after)
    ensures r.response.Ok? ==> !Has(r.after.rows, alias)
    ensures forall other :: other != alias ==> Lookup(r.after.rows, other) == Lookup(s.rows, other)
  {
    var x := Serve(alias, a => DeleteURL(s, a, faults).reply.err);
    Served(x.response, if x.calls == [] then s else DeleteURL(s, alias, faults).after)
  }

  /**
   * Deleting a stored alias answers OK and removes it, and only it; an alias
   * holding NUL is rejected by the server and answers "internal error".
   */
  lemma HandleDeletesPresent(s: Table, alias: string)
    requires alias != "" && Has(s.rows, alias)
    ensures Handle(alias, s, NoFaults).response == if Storable(alias) then Ok(DeletedMsg, alias) else InternalError
    ensures Storable(alias) ==> !Has(Handle(alias, s, NoFaults).after.rows, alias)
    ensures Valid(s) ==> Valid(Handle(alias, s, NoFaults).after)
  {
    var t := DeleteURL(s, alias, NoFaults);
    assert Handle(alias, s, NoFaults) == Served(Respond(alias, t.reply.err), t.after);
    DeleteRemovesOneRow(s, alias, NoFaults);
  }

  /**
   * Deleting an alias that is not stored answers not found and changes
   * nothing; an alias holding NUL answers "internal error".
   */
  lemma HandleAbsentNotFound(s: Table, alias: string)
    requires alias != "" && !Has(s.rows, alias)
    ensures Handle(alias, s, NoFaults) == Served(if Storable(alias) then NotFound else InternalError, s)
  {
    var t := DeleteURL(s, alias, NoFaults);
    assert Handle(alias, s, NoFaults) == Served(Respond(alias, t.reply.err), t.after);
  }

  /**
   * When `RowsAffected` reports an error after `Exec` succeeded, the client
   * is told "internal error" although the alias has been deleted.
   */
  lemma HandlePartialFailure(s: Table, alias: string, cause: string)
    requires alias != "" && Has(s.rows, alias)
    ensures Handle(alias, s, DeleteFaults(None, Some(cause))).response == InternalError
    ensures Storable(alias) ==> !Has(Handle(alias, s, DeleteFaults(None, Some(cause))).after.rows, alias)
  {
    var faults := DeleteFaults(None, Some(cause));
    var t := DeleteURL(s, alias, faults);
    assert Handle(alias, s, faults) == Served(Respond(alias, t.reply.err), t.after);
  }

  /**
   * A path alias holding NUL never reaches a row: unless `Exec` itself fails,
   * the server rejects it, the client gets "internal error" and the table is
   * left as it was.
   */
  lemma NulAliasIsInternalError(s: Table, alias: string, faults: DeleteFaults)
    requires faults.exec.None? && !Storable(alias)
    ensures Handle(alias, s, faults) == Served(InternalError, s)
  {
  }
}

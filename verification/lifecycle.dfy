/**
 * Sequences of storage calls against one table: the invariant every call
 * keeps, the order of the ids handed out, and a sample run.
 */
module Lifecycle {
  import opened Wrappers
  import opened GoErrors
  import opened Sql
  import opened Postgres

  /** One call on the store, with the faults the database injects into it. */
  datatype Call =
    | Save(url: string, alias: string, fault: Option<string>)
    | Get(alias: string, fault: Option<string>)
    | Remove(alias: string, faults: DeleteFaults)

  /** The table after one call. */
  function Apply(s: Table, c: Call): (t: Table)
    ensures t.serial >= s.serial
    ensures Valid(s) ==> Valid(t)
  {
    match c
    case Save(url, alias, fault) => SaveURL(s, url, alias, fault).after
    case Get(_, _) => s
    case Remove(alias, faults) =>
      DeleteRemovesOneRow(s, alias, faults);
      DeleteURL(s, alias, faults).after
  }

  /** The table after a sequence of calls. */
  function Run(s: Table, calls: seq<Call>): (t: Table)
    ensures t.serial >= s.serial
    decreases |calls|
  {
    if |calls| == 0 then s else Run(Apply(s, calls[0]), calls[1..])
  }

  /** The id one call returns, if it is a save that succeeds: the sequence's current value. */
  function Issued(s: Table, c: Call): (ids: seq<int>)
    ensures |ids| <= 1
    ensures |ids| == 1 ==> ids[0] == s.serial && Apply(s, c).serial == s.serial + 1
  {
    if c.Save? && SaveURL(s, c.url, c.alias, c.fault).reply.err.None?
    then [SaveURL(s, c.url, c.alias, c.fault).reply.value] else []
  }

  /** The ids returned by the successful saves among the calls, in order. */
  function SavedIds(s: Table, calls: seq<Call>): seq<int>
    decreases |calls|
  {
    if |calls| == 0 then [] else Issued(s, calls[0]) + SavedIds(Apply(s, calls[0]), calls[1..])
  }

  predicate Increasing(xs: seq<int>)
  {
    forall i, j :: 0 <= i < j < |xs| ==> xs[i] < xs[j]
  }

  /** The schema invariant holds after any sequence of calls. */
  lemma {:induction false} RunKeepsValid(s: Table, calls: seq<Call>)
    requires Valid(s)
    ensures Valid(Run(s, calls))
    decreases |calls|
  {
    if |calls| > 0 {
      RunKeepsValid(Apply(s, calls[0]), calls[1..]);
    }
  }

  /**
   * Ids are never reused: each id a save returns is larger than every id
   * returned before it, and lies between the sequence's value at the start
   * and at the end of the run.
   */
  lemma {:induction false} SavedIdsIncrease(s: Table, calls: seq<Call>)
    ensures Increasing(SavedIds(s, calls))
    ensures forall i :: 0 <= i < |SavedIds(s, calls)| ==> s.serial <= SavedIds(s, calls)[i] < Run(s, calls).serial
    decreases |calls|
  {
    if |calls| > 0 {
      var t := Apply(s, calls[0]);
      SavedIdsIncrease(t, calls[1..]);
      var now, later := Issued(s, calls[0]), SavedIds(t, calls[1..]);
      var ids := now + later;
      assert SavedIds(s, calls) == ids;
      assert Run(s, calls) == Run(t, calls[1..]);
      assert forall k :: 0 <= k < |later| ==> ids[|now| + k] == later[k];
    }
  }

  /** A valid table's stored ids all lie below every id a later save returns. */
  lemma SavedIdsAreFresh(s: Table, calls: seq<Call>)
    requires Valid(s)
    ensures forall i, k :: 0 <= i < |s.rows| && 0 <= k < |SavedIds(s, calls)| ==> s.rows[i].id < SavedIds(s, calls)[k]
  {
    SavedIdsIncrease(s, calls);
  }

  /** A sample run on a new table: save, get, delete, get again. */
  lemma Example()
    ensures var t1 := SaveURL(Empty, "https://example.com/a", "x1", None);
            && t1.reply == Reply(1, None)
            && GetURL(t1.after, "x1", None) == Reply("https://example.com/a", None)
            && var t2 := DeleteURL(t1.after, "x1", NoFaults);
            && t2.reply.err.None?
            && IsErr(GetURL(t2.after, "x1", None).err, ErrURLNotFound)
  {
  }

  /**
   * A URL or alias holding NUL is rejected by the server with `22021`: the
   * error stays on the returned chain, nothing is stored and no id is used up.
   */
  lemma NulUrlRejected(s: Table, url: string, alias: string)
    requires !(Storable(url) && Storable(alias))
    ensures var t := SaveURL(s, url, alias, None);
            && IsErr(t.reply.err, Backend(NulRejected))
            && t.after == s
  {
  }
}

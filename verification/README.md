# URL shortener storage and delete handler, in Dafny

This project models the core of a URL-shortening service written in Go. That
core has two parts:

- **The PostgreSQL storage layer** (`Storage`). It keeps one table `url`, with
  an `id SERIAL PRIMARY KEY`, an `alias TEXT NOT NULL UNIQUE` and a
  `url TEXT NOT NULL` column. It offers `SaveURL`, `GetURL` and `DeleteURL`.
  Their errors are built with `fmt.Errorf`. `GetURL` and `DeleteURL` wrap the
  sentinel `ErrURLNotFound` with `%w` for a missing alias. Every operation wraps
  driver errors with `%w`, except `SaveURL`'s duplicate-alias error, which is a
  plain `%s` message. The sentinel `ErrURLExists` is declared but never used.
- **The HTTP handler that deletes an alias.** It takes the alias from the path
  and calls its `URLDeleter`. It then renders "invalid request", "not found",
  "internal error" or an OK response that echoes the alias.

Modules, in dependency order:

- `wrappers.dfy` (`Wrappers`): `Option`. As an error result, `None` is Go's `nil`.
- `sql.dfy` (`Sql`): the table as rows in insertion order plus the next
  sequence value, and the schema invariant `Valid` (unique aliases, unique ids,
  ids issued by the sequence, no NUL characters stored). It also holds the `INSERT … RETURNING id`,
  `SELECT url … WHERE alias` and `DELETE … WHERE alias` statements, with the
  driver errors they report.
- `go_errors.dfy` (`GoErrors`): error values and `errors.Is`. An error is a
  sentinel, a `%w` wrapper, a `%s`-formatted leaf, or a backend error.
  `errors.Is` follows `%w` wrappers only.
- `postgres.dfy` (`Postgres`): `SaveURL`, `GetURL` and `DeleteURL`. Each is a
  transition from a table and a set of injected database faults to Go's
  `(value, error)` and the table afterwards.
- `del.dfy` (`Del`): the delete handler as a pure decision function.
  - `Respond` covers the branches after the call.
  - `Serve` is the whole handler over any `URLDeleter`, and it records the
    calls it made.
  - `Handle` is `Serve` wired to `DeleteURL` on a table.
- `lifecycle.dfy` (`Lifecycle`): runs sequences of storage calls. It proves that
  the invariant holds along any run and that ids are never reused. It also
  replays a sample run: save `x1`, get it, delete it, get it again.

The database is treated as an oracle. Each statement receives an optional
injected fault, which stands for every failure not modelled by the table's
contents or the NUL check below (lost connection, timeout, other server errors).
A faulted statement has no effect. With no fault, a statement does what
PostgreSQL does, except where "## Left out" says otherwise: strings the model
cannot express, and index entries too large for a btree. Four consequences are
modelled explicitly:

- A `text` value cannot hold a NUL character. A parameter containing one is
  rejected with SQLSTATE `22021` before the statement runs. Such an alias
  therefore ends in "internal error" at the handler, not "not found", on any
  table (`Del.NulAliasIsInternalError`). A save with such a URL or alias stores
  nothing and uses up no id (`Lifecycle.NulUrlRejected`).
- A `SERIAL` column is backed by an `integer` sequence. The sequence starts
  at 1 and stops at 2147483647; past that, an insert fails with SQLSTATE
  `2200H`.
- `nextval` runs before the unique constraint is checked, and it is never
  rolled back. So a rejected duplicate leaves the rows unchanged but still uses
  up a sequence value.
- After `Exec`, `DeleteURL` reads the affected-row count with `RowsAffected`.
  That is not a database call: it reads the result `Exec` already returned.
  With this driver it never fails for a `DELETE`. The model follows the
  `sql.Result` interface, which does allow it to fail, so it over-approximates
  (`DeleteFaults.rowsAffected`). If that call failed, the row would already be
  deleted and the caller would still get an error. The handler would then answer
  "internal error" for an alias that is in fact gone (`Del.HandlePartialFailure`).

Two points about the code:

- `ErrURLExists` is declared (postgres.go:13) but never returned. A duplicate
  alias gives a plain `%s` message naming the alias (postgres.go:66), so no error
  is ever `errors.Is` `ErrURLExists`. The model proves this for every operation.
- Neither `SaveURL` nor the schema rejects an empty alias; only the delete
  handler does.

## Model

| member | source | states |
|---|---|---|
| Sql.Lookup | internal/storage/postgres/postgres.go:76-79 | the row found for an alias carries that alias and is in the table; nothing is found exactly when no row has the alias |
| Sql.Count | internal/storage/postgres/postgres.go:92-100 | the number of rows a delete of an alias affects is at most the table size, and zero exactly when no row has the alias |
| Sql.Drop | internal/storage/postgres/postgres.go:92-95 | after `DELETE … WHERE alias = $1`, the remaining rows are exactly the rows with another alias, and there are `Count` fewer of them |
| Sql.Insert | internal/storage/postgres/postgres.go:60-63 | an insert succeeds exactly when there is no fault, neither parameter holds NUL, the sequence is not exhausted and the alias is new. It then returns the sequence value and appends that row. A fault or a NUL parameter fails with nothing changed. A unique-violation (23505) is reported exactly when the alias is taken. The sequence never goes back, and the schema invariant is kept |
| Sql.Select | internal/storage/postgres/postgres.go:76-79 | a URL is returned exactly when there is no fault, the alias holds no NUL and a row has it, and that URL belongs to a row with the alias. Otherwise, with no fault the query reports no rows exactly when the alias is absent, a NUL alias is rejected with 22021, and a fault comes back as a transport error |
| Sql.Delete | internal/storage/postgres/postgres.go:92-100 | the statement runs exactly when there is no fault and the alias holds no NUL; otherwise the table is unchanged. Once it runs, the alias is gone and the other rows are kept. The rows affected are the rows removed, and zero means the alias was absent. Every other alias resolves as before, and an absent alias leaves the table unchanged |
| Sql.DeleteKeepsValid | internal/storage/postgres/postgres.go:33 | a delete keeps unique aliases, unique ids, issued ids and NUL-free rows; under the invariant it affects at most one row |
| Sql.CountUnique | internal/storage/postgres/postgres.go:33 | under `UNIQUE(alias)` at most one row has any given alias |
| Sql.DropKeepsValid | internal/storage/postgres/postgres.go:31-35 | removing the rows of one alias keeps both uniqueness constraints, the id range and NUL-free rows |
| Sql.LookupAppend | internal/storage/postgres/postgres.go:60-63 | appending a row changes only the lookup of its alias, and only if that alias was absent |
| Sql.LookupDrop | internal/storage/postgres/postgres.go:92-95 | dropping one alias leaves the lookup of every other alias unchanged |
| Sql.DropAbsent | internal/storage/postgres/postgres.go:92-95 | deleting an alias no row has leaves the rows unchanged |
| GoErrors.Chain | internal/http-server/handlers/del/del.go:48 | the unwrap chain starts at the error, links each wrapper to its wrapped error, and ends at a non-wrapper |
| GoErrors.IsFollowsChain | internal/http-server/handlers/del/del.go:48 | `errors.Is(e, target)` holds exactly when the target is on the unwrap chain of `e` |
| GoErrors.WrapIs | internal/storage/postgres/postgres.go:82 | a `%w` wrapper is transparent to `errors.Is` for any non-wrapper target |
| GoErrors.BackendRootIsNoSentinel | internal/storage/postgres/postgres.go:84 | an error chain that ends in a backend error is never `errors.Is` any sentinel |
| Postgres.SaveURL | internal/storage/postgres/postgres.go:57-71 | succeeds exactly when there is no fault, neither argument holds NUL, the sequence has room and the alias is new. On success it returns the sequence value and appends exactly that row. On failure it returns 0 and keeps every row. A taken alias gives the `%s` message naming the alias, with no driver error on its chain. Every other error keeps the driver error on its `%w` chain: the injected fault, or the 22021 rejection. Every error starts with the op name and is never `ErrURLExists` or `ErrURLNotFound`. The invariant is kept |
| Postgres.GetURL | internal/storage/postgres/postgres.go:73-87 | succeeds exactly when there is no fault, the alias holds no NUL and the alias is present, returning the URL of a row with that alias. Otherwise it returns "" and an error that starts with the op name. The error is `ErrURLNotFound` exactly when there is no fault, no NUL and the alias is absent. A fault or a NUL rejection stays on the `%w` chain as the driver error |
| Postgres.DeleteURL | internal/storage/postgres/postgres.go:90-109 | returns nil exactly when there are no faults, the alias holds no NUL and the alias is present. The error is `ErrURLNotFound` exactly when there are no faults, no NUL and the alias is absent. An `Exec` fault, a NUL rejection and a `RowsAffected` fault each stay on the `%w` chain as the driver error, and every error starts with the op name. A failed `Exec` or an absent alias leaves the table unchanged. Once `Exec` has run the alias is gone. Every other alias resolves as before |
| Postgres.BackendWrapped | internal/storage/postgres/postgres.go:68 | a driver error wrapped with `%w` stays on the unwrap chain, and that chain reaches neither sentinel |
| Postgres.GetFindsTheRow | internal/storage/postgres/postgres.go:76-79 | in a valid table, looking up a stored alias returns exactly the URL of its row |
| Postgres.SaveThenGet | internal/storage/postgres/postgres.go:57-87 | after a successful save, getting the alias returns the saved URL and no error |
| Postgres.SaveKeepsOthers | internal/storage/postgres/postgres.go:60-63 | a save never changes what another alias resolves to |
| Postgres.FailedSaveKeepsMappings | internal/storage/postgres/postgres.go:64-68 | after a failed save (including a duplicate alias), every lookup answers as before |
| Postgres.SaveIdIsFresh | internal/storage/postgres/postgres.go:32 | in a valid table, a returned id is at least 1, at most the sequence maximum, and larger than every stored id |
| Postgres.DeleteThenGet | internal/storage/postgres/postgres.go:92-106 | once the delete statement has run, getting the alias is not-found exactly when the alias holds no NUL |
| Postgres.DeleteKeepsOthers | internal/storage/postgres/postgres.go:92-95 | a delete never changes what another alias resolves to |
| Postgres.DeleteRemovesOneRow | internal/storage/postgres/postgres.go:100-108 | from a valid table, a delete keeps the invariant, and when it returns nil it removed exactly one row |
| Del.Respond | internal/http-server/handlers/del/del.go:48-65 | not-found exactly when the error is `ErrURLNotFound`; internal error exactly for any other non-nil error; OK with the fixed message and the alias exactly on nil |
| Del.Serve | internal/http-server/handlers/del/del.go:36-66 | `DeleteURL` is called at most once and only with the path alias, and never for an empty alias. An empty alias answers invalid request. Otherwise the answer is not-found, internal error or OK, decided by the deleter's result in that order |
| Del.ServeDependsOnlyOnAlias | internal/http-server/handlers/del/del.go:46 | two deleters that agree on the requested alias give the same exchange; for an empty alias every deleter does |
| Del.ErrorTextHidden | internal/http-server/handlers/del/del.go:56-61 | every error that is not `ErrURLNotFound` produces the same internal-error response, whatever its text |
| Del.Handle | internal/http-server/handlers/del/del.go:46 | on the store, an empty alias answers invalid request and leaves the table unchanged. Otherwise the handler makes exactly one `DeleteURL` call: the response is what its error maps to and the table is the one it leaves. OK means the alias is gone. Other aliases resolve as before |
| Del.HandleDeletesPresent | internal/http-server/handlers/del/del.go:64-74 | deleting a stored non-empty alias with no NUL answers OK with the fixed message and that alias, and removes it. A NUL alias answers internal error. The invariant is kept |
| Del.HandleAbsentNotFound | internal/http-server/handlers/del/del.go:48-53 | deleting an absent non-empty alias answers not found (internal error for a NUL alias) and leaves the table unchanged |
| Del.HandlePartialFailure | internal/storage/postgres/postgres.go:100-104 | if `RowsAffected` reported an error after `Exec` succeeded, the client would get "internal error" although the alias is gone |
| Del.NulAliasIsInternalError | internal/http-server/handlers/del/del.go:56-61 | for every table and every path alias holding NUL, when `Exec` does not fail, the server rejects the alias and the handler answers "internal error", leaving the table unchanged |
| Lifecycle.Apply | internal/storage/postgres/postgres.go:57-109 | every storage call keeps the schema invariant and never moves the sequence back |
| Lifecycle.Run | internal/storage/postgres/postgres.go:32 | the sequence never goes back over any run of calls |
| Lifecycle.Issued | internal/storage/postgres/postgres.go:61-63 | a call returns at most one id: the sequence's current value, after which the sequence moves on by one |
| Lifecycle.RunKeepsValid | internal/storage/postgres/postgres.go:31-35 | the schema invariant holds after any sequence of calls |
| Lifecycle.SavedIdsIncrease | internal/storage/postgres/postgres.go:32 | ids returned along a run strictly increase, and each lies between the sequence values at the start and at the end |
| Lifecycle.SavedIdsAreFresh | internal/storage/postgres/postgres.go:32 | every id returned along a run exceeds every id stored in the valid starting table |
| Lifecycle.NulUrlRejected | internal/storage/postgres/postgres.go:64-68 | for every table, saving a URL or alias holding NUL with no fault fails with the 22021 driver error on its chain, stores nothing and uses up no id |
| Lifecycle.Example | internal/storage/postgres/postgres.go:57-109 | on a new table, saving `x1` returns id 1 and getting it returns its URL. Deleting it returns nil, and getting it again is not-found |

## Left out

- Connection setup and teardown (`New` with `sql.Open`, `Ping`, `CREATE TABLE` and `CREATE INDEX`, and `Close`). This is database I/O and provisioning. The model starts from an empty table and keeps the schema's constraints as the invariant `Valid`.
- SQL execution and the `pq` driver. An injected fault stands for every failure the model does not derive from the table and the parameters, including the index-row size refusal below. A faulted statement changes nothing, which includes not using up a sequence value. A fault that arrives after the server used up a sequence value is not modelled.
- Sql.Insert: the btree index-row size limit is not modelled. An alias whose entry in the `UNIQUE` index or `idx_alias` exceeds the limit (2704 bytes after compression) is refused with SQLSTATE `54000`. The model accepts a new NUL-free alias of any length, because the limit depends on the server's compression and cannot be stated on the characters alone. Such a refusal belongs among the injected faults.
- Postgres.SaveURL: as for `Sql.Insert`, an oversized alias is not refused in the model. The program would return 0 and a `%w`-wrapped `54000` error (postgres.go:68); the model can produce that only as an injected fault.
- Postgres.DeleteURL: a lost connection after the server committed the `DELETE` is not modelled: the caller would get an error although the row is gone. A fault is taken to leave the table unchanged.
- Postgres.FailedSaveKeepsMappings: a lost connection after the server committed the `INSERT` is not modelled: the caller would get an error although the row was stored. The contract relies on a fault leaving the table unchanged.
- String encoding. Dafny strings are sequences of Unicode characters, while Go strings are bytes. A Go string carrying invalid UTF-8, which a UTF8 database rejects, cannot be expressed; that rejection is not modelled. The NUL character is modelled (SQLSTATE `22021`).
- Go error identity. Go compares sentinels by pointer; the model compares errors structurally, and its two sentinels have different texts.
- Row order. `SELECT` without `ORDER BY` may return any matching row. The model returns the first in insertion order and promises only "a row with that alias" (`Sql.Select`). Under `UNIQUE(alias)` there is only one such row (`Postgres.GetFindsTheRow`).
- Concurrency. Uniqueness under concurrent saves is left to the database constraint, and the code has no in-process synchronisation. Calls are modelled one at a time.
- HTTP plumbing: chi routing and `chi.URLParam` (the alias is a parameter), `render.JSON` serialisation (responses are a datatype), `slog` logging with request ids, and what `response.OK()` contains (`Ok` stands for it).
- The redirect handler and the save handler. Their sources are not part of this model.
- `int64` ids. Ids are bounded by the sequence maximum 2147483647, so they always fit.

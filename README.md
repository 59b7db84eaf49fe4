# Pokémon strength index and transactional store

This project models the logic of the Pokémon router of a small Express
service. The router fetches Pokémon detail records from an upstream REST API
and computes a *strength index* for each one. It stores the records in a
PostgreSQL table `pokemon` keyed by `name`, and serves the stored rows
strongest first. The model covers the three pieces of the router that are
not I/O plumbing:

- `calculateStrengthIndex`: the sum of the `attack`, `defense` and `hp`
  base stats. Each one is taken from the first stat entry with that name,
  or counts as 0 when there is none (module `StrengthIndex`,
  `strength_index.dfy`).
- `insertPokemon`: one transaction (BEGIN, one
  `INSERT ... ON CONFLICT (name) DO NOTHING` per record in batch order,
  COMMIT). If any insert fails, it issues ROLLBACK and re-raises the error.
  The pooled client is released on both paths. The table is modelled as a
  value with lemmas (module `PokemonTable`, `pokemon_table.dfy`). The
  client and the table are classes whose methods update them in place
  (module `PokemonStore`, `pokemon_store.dfy`).
- `getAllPokemon`: `SELECT * ... ORDER BY strength_index DESC` on a
  released-on-every-path client (`PokemonStore`).

Modelling choices:

- The table is a `map<string, Row>` from name to row. The invariant
  `KeyedByName` says each row is stored under its own name, so a name can
  never have two rows.
- `InsertAll(t, batch)` is the table after the batch's inserts, applied in
  order. The loop of `insertPokemon` (`InsertEach`, one step per record in
  `InsertRecord`) keeps the invariant "table = table at BEGIN + `InsertAll`
  of the processed prefix".
- Failures are injected. `fails: map<nat, StepFailure>` maps the batch
  indices whose step throws to how it throws. `BeforeSend` is the
  `TypeError` thrown while the INSERT's parameters are built (a record with
  no `stats`, a stat entry with no `stat`, or a record with no `sprites`).
  No statement is sent for it and the transaction stays active.
  `StatementFails` is an INSERT that is sent and raised by the database,
  which aborts the transaction. Both reach the same `catch`, which sends
  ROLLBACK. `GetAllPokemon` has a `fails: bool` for its query.
- A client keeps a log of the statements it sends. "COMMIT only after every
  insert succeeded" is stated as the exact log on each path.
- A client has a transaction state `Idle → Active → Committed`, or
  `Active → RolledBack` or `Active → Aborted → RolledBack`. `Aborted` is
  PostgreSQL's state after a failed statement. PostgreSQL would turn a
  COMMIT sent there into a rollback; the model accepts only ROLLBACK there,
  and the code never sends COMMIT after a failure.
- "Released exactly once" has two parts. `Client.Release` requires that the
  client has not been released yet. Both operations end with
  `client.released` on every path.
- `ORDER BY` is the database's job. `Table.SelectOrderedByStrength` stands
  in for it. It takes the stored rows in an unspecified order (`:|`) and
  places each one at its position in a sorted result. So the order of rows
  with equal strength is left open, as it is in PostgreSQL.
- `base_stat` is an integer. JavaScript's `|| 0` maps 0 to 0 and leaves every
  other integer unchanged, so the lookup needs no extra case.

## Model

| member | source | states |
|---|---|---|
| StrengthIndex.FindFirst | server/routes/pokemon.router.js:73-76 | `Array.find` by stat name: none exactly when no entry has the name, otherwise the entry at the first index with that name |
| StrengthIndex.StatOrZero | server/routes/pokemon.router.js:73-76 | one term: wherever the first entry with that name sits, the term is that entry's base stat |
| StrengthIndex.CalculateStrengthIndex | server/routes/pokemon.router.js:71-79 | wherever the first attack, defense and hp entries sit, the index is the sum of their base stats |
| StrengthIndex.StatOrZeroIsFirstMatch | server/routes/pokemon.router.js:72-76 | each term is the base stat of the first entry with that name, or 0 when there is none (agrees with filter-then-head) |
| StrengthIndex.StrengthIndexIsSumOfFirstMatches | server/routes/pokemon.router.js:71-79 | the strength index is attack + defense + hp, each the first matching entry's base stat or 0 |
| StrengthIndex.StrengthIndexWithoutNamedStats | server/routes/pokemon.router.js:72-76 | a stat list with no attack, defense or hp entry (the empty list too) gives 0 |
| StrengthIndex.FindFirstIgnoresInserted | server/routes/pokemon.router.js:73-76 | inserting an entry of another name, or one after an earlier entry of the same name, does not change what `find` returns |
| StrengthIndex.StrengthIndexIgnoresOtherNames | server/routes/pokemon.router.js:72-76 | entries named other than attack, defense and hp never affect the index, wherever they stand |
| StrengthIndex.StrengthIndexIgnoresLaterDuplicates | server/routes/pokemon.router.js:73-76 | only the first entry of a name counts; later duplicates never affect the index |
| StrengthIndex.StrengthIndexExample | server/routes/pokemon.router.js:71-79 | attack 50, defense 50, hp 50 give 150; the empty list gives 0 |
| PokemonTable.ToRow | server/routes/pokemon.router.js:51-58 | the INSERT parameters of a record: its own name, height, weight and front_default, and the strength index computed from its stats |
| PokemonTable.InsertOrIgnore | server/routes/pokemon.router.js:45-49 | one ON CONFLICT DO NOTHING insert keeps every existing row, adds the row when its name is new, adds no other key and keeps the table keyed by name |
| PokemonTable.InsertOrIgnoreSameNameTwice | server/routes/pokemon.router.js:48 | inserting two rows with the same name keeps only the first one |
| PokemonTable.InsertAllKeys | server/routes/pokemon.router.js:50-59 | a batch adds exactly the names of its records and no other key |
| PokemonTable.InsertAll | server/routes/pokemon.router.js:50-59 | the batch's inserts in order: every row that existed before the batch is unchanged after it |
| PokemonTable.InsertAllKeyedByName | server/routes/pokemon.router.js:46-48 | a batch keeps each row stored under its own name |
| PokemonTable.InsertAllFirstWins | server/routes/pokemon.router.js:50-59 | a name new to the table gets the row built from its first record in the batch (name, height, weight, computed strength index, front_default) |
| PokemonTable.InsertAllAlreadyPresent | server/routes/pokemon.router.js:48-59 | a batch whose names are all stored already changes nothing |
| PokemonTable.InsertAllTwiceIsOnce | server/routes/pokemon.router.js:48 | inserting the same batch again in a later call leaves the table as the first call left it |
| PokemonTable.InsertPosition | server/routes/pokemon.router.js:84 | in a result sorted by strength descending, the position after every stronger row and before every other row |
| PokemonTable.InsertAtPosition | server/routes/pokemon.router.js:84 | placing a row at that position keeps the result sorted, adds that row and nothing else, and keeps names distinct |
| PokemonTable.OrderingExample | server/routes/pokemon.router.js:84 | rows of strength 150, 300 and 50 in a sorted result of three come back as 300, 150, 50 |
| PokemonStore.Table.constructor | server/routes/pokemon.router.js:45-49 | an empty `pokemon` table, which satisfies the table invariant `Valid` (each row stored under its own name, so a name has at most one row) |
| PokemonStore.Table.SelectOrderedByStrength | server/routes/pokemon.router.js:84-86 | the ordered query returns every stored row exactly once (distinct names, same count), nothing else, strength non-increasing |
| PokemonStore.Client.constructor | server/routes/pokemon.router.js:41 | a fresh client from the pool: no transaction, no statement sent, not released |
| PokemonStore.Client.BeginTransaction | server/routes/pokemon.router.js:43 | BEGIN makes the transaction active and snapshots the table, which is keyed by name |
| PokemonStore.Client.InsertOrIgnoreRow | server/routes/pokemon.router.js:45-58 | a successful insert applies ON CONFLICT DO NOTHING to the table; a failing one changes nothing and aborts the transaction |
| PokemonStore.Client.CommitTransaction | server/routes/pokemon.router.js:61 | COMMIT is accepted only from an active transaction with no failed statement |
| PokemonStore.Client.RollbackTransaction | server/routes/pokemon.router.js:62-63 | ROLLBACK restores the table to its snapshot at BEGIN, which keeps the table keyed by name |
| PokemonStore.Client.SelectAllByStrength | server/routes/pokemon.router.js:84-85 | the ordered SELECT, refused in an aborted transaction, returns every stored row exactly once and nothing else, sorted by strength descending, or raises; it keeps the transaction state and its BEGIN snapshot |
| PokemonStore.Client.Release | server/routes/pokemon.router.js:66-67 | release is allowed only on a client not yet released, and releases it |
| PokemonStore.InsertStatements | server/routes/pokemon.router.js:50-58 | the i-th statement of the loop is the insert of the i-th record's row |
| PokemonStore.StatementsUpTo | server/routes/pokemon.router.js:50-58 | the statements sent up to a failing step: the INSERTs of the records before it, plus its own INSERT only when the failure comes from the database |
| PokemonStore.PrefixStep | server/routes/pokemon.router.js:50-58 | one more record extends the table by its insert-or-ignore and the statements by its INSERT |
| PokemonStore.InsertRecord | server/routes/pokemon.router.js:51-58 | one step of the loop: a step that throws before sending leaves the table, log and transaction as they were; a failing INSERT is logged and aborts the transaction; a successful one adds the record's insert to the table and to the log |
| PokemonStore.InsertEach | server/routes/pokemon.router.js:50-59 | the loop: with no failing index in the batch, the table is InsertAll of the batch and the log holds every INSERT; otherwise it stops at the first failing index, with the earlier records inserted and the statements sent so far logged |
| PokemonStore.InsertPokemon | server/routes/pokemon.router.js:40-69 | on success the table is InsertAll(old table, batch), the log is BEGIN, one insert per record, COMMIT; on the first failing index the table is exactly the pre-BEGIN table, the log is BEGIN, the INSERTs sent up to that step, ROLLBACK, and the error is reported; the client is released on both paths |
| PokemonStore.GetAllPokemon | server/routes/pokemon.router.js:81-93 | every stored row exactly once, ordered by strength index non-increasing, or the error re-raised; the table is unchanged and the client is released on both paths |

## Left out

- Express routing, `res.json` and the 500 handlers (server/routes/pokemon.router.js:1-38, 95) are HTTP plumbing.
- The axios listing call and the concurrent `Promise.all` detail fetches (server/routes/pokemon.router.js:18-27) are network I/O. The fetched batch is an input sequence of `Pokemon` records.
- The pg pool, its configuration and the SQL text are external. The database appears only through the table value, insert-or-ignore and the ordering of the query.
- A failing `pool.connect()`, or a failing BEGIN, COMMIT or ROLLBACK statement, is not modelled. Only the per-record step (building the parameters or the INSERT itself) and the SELECT can fail here.
- StatOrZero: its own contract states only the case where an entry with the name exists; the 0 for a missing entry is stated by `StatOrZeroIsFirstMatch` and `StrengthIndexWithoutNamedStats`, because a second quantified contract on it makes the proofs that use the strength index too costly for the verifier.
- CalculateStrengthIndex: its own contract covers lists that hold all three names; the other lists are covered by `StrengthIndexIsSumOfFirstMatches`, for the same reason.
- `console.error` logging has no behavioural content.
- Concurrent requests racing on the same name are not modelled. The order of rows with equal strength index is deliberately unspecified.
- JavaScript number semantics are not modelled: integers are unbounded. `base_stat` values that are not integers (null, strings, NaN) are left out. For those, `|| 0` or string concatenation would behave differently.
- The error value itself is not modelled. `InsertError(failedAt)` records which insert failed, and `QueryError` stands for the re-raised query error.

# Court queue and scoreboard: a Dafny model of `server/storage.ts`

The server keeps one global first-come-first-served queue of players waiting
for a court, and one two-team scoreboard (`good` and `bad`). Both live in a
SQLite database: the `queue` table holds rows `{id, name, position,
created_at}` and the `scores` table holds a single row with `id = 1`.
`SQLiteStorage` offers six operations:

- `getQueue` reads the names in position order.
- `joinQueue` normalises the name (trim, collapse white space). It refuses a
  blank name and a name already waiting up to ASCII case. Otherwise it
  appends the name at position `MAX(position) + 1`.
- `leaveQueue` deletes the waiting entry with that name, up to case, and
  moves every later position down by one.
- `nextPlayer` removes the entry of least position, returns its name, and
  moves the rest up.
- `getScores` reads the scores row, or `{0, 0}` when it is missing.
- `updateScores` sets each field the update carries to `max(0, floor(v))`
  and leaves the other field alone.

The model has these modules:

- `NameNormalizer`: `normalizeName`, with JavaScript's white-space set.
- `CaseFold`: SQLite's ASCII-only `LOWER`.
- `QueueSpec`: the queue as `getQueue` shows it (a sequence of names), with
  `Join`, `Leave` and `Next` as pure functions. This is where the FIFO,
  uniqueness and round-trip properties are proved.
- `QueueTable`: the `queue` table as a sequence of rows in table order. The
  SELECT statements are query functions, and DELETE and the shift-down
  UPDATE are functions on rows. Lemmas show that each operation's
  statements, run in the source's order, keep the table invariant and
  produce `QueueSpec`'s queue.
- `Scoreboard`: the scores row, the clamp, and what an UPDATE with a given
  SET list writes.
- `Storage`: class `SQLiteStorage`. Its fields are the table rows, the next
  AUTOINCREMENT id and the optional scores row. Each method runs the
  source's statements against these fields, and its postconditions tie the
  new state to `QueueSpec` and `Scoreboard`.

The class invariant `Valid()` holds between operations. It says:

- positions are exactly 1..n in table order;
- ids grow along the table and stay below the next id;
- every name is normalised, non-empty, and unique up to ASCII case;
- both scores are non-negative.

## Model

| member | source | states |
|---|---|---|
| NameNormalizer.TrimStart | server/storage.ts:43 | the result is no longer than the input, does not start with white space, and everything dropped was white space |
| NameNormalizer.TrimStartIsSuffix | server/storage.ts:43 | what the leading trim keeps is a suffix of the input |
| NameNormalizer.TrimEnd | server/storage.ts:43 | the result does not end with white space, and everything dropped from the end was white space |
| NameNormalizer.TrimEndIsPrefix | server/storage.ts:43 | what the trailing trim keeps is a prefix of the input |
| NameNormalizer.Trim | server/storage.ts:43 | `trim()` leaves no white space at either edge and never lengthens the string |
| NameNormalizer.TrimKeepsContent | server/storage.ts:43 | trimming removes only white-space characters: the visible characters are the same, in the same order |
| NameNormalizer.CollapseWhitespace | server/storage.ts:44 | `replace(/\s+/g, " ")` leaves no two adjacent white-space characters and no white space other than a plain space; it is empty only for empty input and keeps whether the ends are white space |
| NameNormalizer.CollapseKeepsContent | server/storage.ts:44 | collapsing removes only white space: the visible characters are unchanged and in order |
| NameNormalizer.CollapseFixesCollapsed | server/storage.ts:44 | a string with single plain spaces only is left unchanged by the replace |
| NameNormalizer.CollapseGap | server/storage.ts:44 | a white-space run in front of a visible character or the end becomes one space |
| NameNormalizer.CollapseKeepsWord | server/storage.ts:44 | a word without white space passes through the replace unchanged |
| NameNormalizer.NormalizeName | server/storage.ts:41-45 | the normalised name has no edge white space, no two adjacent white-space characters, only plain spaces, and is no longer than the input |
| NameNormalizer.NormalizeKeepsContent | server/storage.ts:41-45 | normalising never drops, adds or reorders a visible character |
| NameNormalizer.NormalizeEmptyIff | server/storage.ts:41-45 | the normalised name is empty exactly when the raw name is all white space |
| NameNormalizer.NormalizeFixesNormalized | server/storage.ts:41-45 | an already normalised name is its own normal form |
| NameNormalizer.NormalizeIdempotent | server/storage.ts:41-45 | normalising twice gives the same result as normalising once |
| NameNormalizer.NormalizeTwoWords | server/storage.ts:41-45 | two words with any white space around and between them normalise to the words joined by one space |
| CaseFold.LowerChar | server/storage.ts:61 | SQLite `LOWER` on one character: A-Z move down by 32, every other character is unchanged, and no capital is left |
| CaseFold.Lower | server/storage.ts:61 | `LOWER(s)` has the same length as `s`, holds LowerChar of each character at its place, and contains no ASCII capital |
| QueueSpec.FindIgnoringCase | server/storage.ts:69-71 | no match is found exactly when no entry equals the name up to case; a match found is the first such entry |
| QueueSpec.RemoveAt | server/storage.ts:123-127 | the queue loses exactly entry k; entries before it stay in place and later ones move up one place |
| QueueSpec.Message | server/storage.ts:93-120 | definition, no contract: the `error` text of each rejection, "Name is required", "Already in queue" and "Name not found in queue" |
| QueueSpec.Join | server/storage.ts:91-107 | definition, no contract: blank name rejected, then a name waiting up to case rejected, otherwise the normalised name appended; its properties are JoinAcceptedIff, JoinedOnceAtBack, DuplicateJoinRejected and JoinPreservesValid |
| QueueSpec.Leave | server/storage.ts:110-127 | definition, no contract: blank name rejected, then a name not waiting rejected, otherwise the first match removed; its properties are LeaveRejectedIff, LeaveRemovesMatch, LeavePreservesValid and JoinThenLeave |
| QueueSpec.Next | server/storage.ts:130-143 | definition, no contract: `null` and an empty queue when nobody waits, otherwise the head and the tail; its properties are NextPreservesValid and NextIsLeaveOfHead |
| QueueSpec.JoinAcceptedIff | server/storage.ts:91-108 | a join succeeds exactly when the raw name is not all white space and nobody waiting has the same normalised name up to case; "Name is required" is returned exactly for an all-white-space name |
| QueueSpec.AppendPreservesValid | server/storage.ts:102-105 | appending a fresh normalised name keeps every name normalised and unique up to case |
| QueueSpec.JoinPreservesValid | server/storage.ts:91-108 | the queue after a join, whether accepted or rejected, still has unique normalised names |
| QueueSpec.JoinedOnceAtBack | server/storage.ts:102-107 | after a successful join the old queue is a prefix and the new name is last; it matches, up to case, only that last entry |
| QueueSpec.DuplicateJoinRejected | server/storage.ts:97-100 | a second join under the same name, in any case or spacing, returns "Already in queue" |
| QueueSpec.JoinKeepsHead | server/storage.ts:102-107 | a join never changes who is called next; the new name goes to the back of the tail |
| QueueSpec.LeaveRejectedIff | server/storage.ts:110-121 | leave returns "Name is required" exactly for an all-white-space name, and "Name not found in queue" exactly when no waiting name matches up to case |
| QueueSpec.LeaveRemovesMatch | server/storage.ts:116-127 | a successful leave removes one entry that matches the name up to case, keeps the others in order, and leaves no match behind |
| QueueSpec.RemoveAtPreservesValid | server/storage.ts:123-125 | removing any entry keeps the names unique and normalised |
| QueueSpec.LeavePreservesValid | server/storage.ts:110-128 | the queue after a leave, accepted or rejected, still has unique normalised names |
| QueueSpec.NextPreservesValid | server/storage.ts:130-143 | the queue after advancing still has unique normalised names |
| QueueSpec.NextIsLeaveOfHead | server/storage.ts:130-143 | advancing calls the head, and the queue it leaves is the one that leaving by the head's name leaves |
| QueueSpec.JoinThenLeave | server/storage.ts:91-128 | leaving under the raw name just used to join restores the queue from before the join |
| QueueSpec.LeaveStep | server/storage.ts:116-127 | a leave whose name is first found at entry k removes entry k |
| QueueSpec.LeaveMiddle | server/storage.ts:116-127 | on a three-entry queue, leaving by the middle name leaves the first and the last in order |
| QueueSpec.JoinStep | server/storage.ts:97-107 | a join of a name not waiting appends it |
| QueueSpec.TwoJoins | server/storage.ts:91-108 | two different names that join an empty queue wait in the order they joined |
| QueueSpec.ThreeJoins | server/storage.ts:91-108 | three different names that join an empty queue wait in the order they joined |
| QueueSpec.FifoUnderChurn | server/storage.ts:91-143 | A, B and C join and B leaves; advancing then calls A and leaves only C waiting |
| QueueTable.Names | server/storage.ts:57-59 | the name column has one entry per row, row by row |
| QueueTable.NameTaken | server/storage.ts:60-62 | the existence check is true exactly when some row's name equals the name up to case |
| QueueTable.MaxPosition | server/storage.ts:63-65 | `COALESCE(MAX(position), 0)` is 0 on an empty table, otherwise it is a position in the table and no position is larger |
| QueueTable.PositionOf | server/storage.ts:69-71 | the lookup finds nothing exactly when no row matches up to case; otherwise it returns the position of a matching row |
| QueueTable.FirstRow | server/storage.ts:78-80 | the first-player query is empty only on an empty table; otherwise it returns a row of the table whose position is the least |
| QueueTable.DeleteWhere | server/storage.ts:72-81 | definition, with only a length bound: `DELETE FROM queue WHERE ...` keeps the rows that do not match, in order; DeleteNoMatch and DeleteOnlyMatch state what it does |
| QueueTable.ShiftDown | server/storage.ts:75-77 | definition, with only a length bound: every row whose position exceeds the removed one moves down by one; RemoveRowAtDense states the result |
| QueueTable.RemoveRowAt | server/storage.ts:123-125 | definition, no contract: the table after row k is deleted and the shift-down runs; DeleteThenShift shows the two statements give it and RemoveRowAtDense and RemoveRowAtIds state its properties |
| QueueTable.PositionsAreOneToN | server/storage.ts:12 | under dense positions the position column is exactly {1..n}, with no duplicates |
| QueueTable.DeleteNoMatch | server/storage.ts:72-74 | a DELETE whose WHERE matches no row leaves the table unchanged |
| QueueTable.DeleteOnlyMatch | server/storage.ts:72-74 | a DELETE whose WHERE matches only row k removes that row and keeps the others in order |
| QueueTable.RemoveRowAtDense | server/storage.ts:75-77 | deleting row k and shifting later positions down keeps positions 1..n, changes no other row except its position, and removes entry k from the names |
| QueueTable.RemoveRowAtIds | server/storage.ts:10 | ids still increase along the table after a row is removed |
| QueueTable.AppendRow | server/storage.ts:66-68 | inserting the next id at position n + 1 keeps positions dense and ids increasing, and appends the name to the queue |
| QueueTable.DeleteThenShift | server/storage.ts:72-77 | a DELETE that hits only row k followed by the shift-down is the removal of row k, and the invariant's table part holds |
| QueueTable.OnlyMatch | server/storage.ts:72-74 | when names are unique up to case, the DELETE by a matching name hits only that row |
| QueueTable.JoinTaken | server/storage.ts:97-100 | when the existence check finds the name, the abstract join rejects with "Already in queue" |
| QueueTable.JoinInserts | server/storage.ts:102-107 | for a new name, MAX + 1 is n + 1; the insert keeps the table invariant and shows the abstract join's queue |
| QueueTable.LeaveMissing | server/storage.ts:116-121 | when the position lookup finds nothing, the abstract leave rejects with "Name not found in queue" |
| QueueTable.LeaveRemoves | server/storage.ts:116-127 | the delete by name and the shift-down from the looked-up position remove exactly the matching row, keep the invariant and show the abstract leave's queue |
| QueueTable.NextRemovesHead | server/storage.ts:130-143 | the least-position row is the first row; deleting it by id and shifting down removes exactly that row, keeps the invariant and shows the abstract next's result |
| Scoreboard.Clamp | server/storage.ts:159 | `max(0, floor(v))` is never negative, is the floor of a non-negative input, and is 0 for a negative one |
| Scoreboard.Assign | server/storage.ts:166-168 | definition, no contract: `UPDATE scores SET <fields> WHERE id = 1` with the params bound in order; SetListIsUpdate states what the built list assigns |
| Scoreboard.ApplyUpdate | server/storage.ts:153-164 | definition, no contract: each given field clamped, each missing field kept; UpdateKeepsNonNegative, EmptyUpdateKeepsScores and UpdateIdempotent state its properties |
| Scoreboard.UpdateKeepsNonNegative | server/storage.ts:157-169 | any update, with any numbers, keeps both scores non-negative |
| Scoreboard.EmptyUpdateKeepsScores | server/storage.ts:166-169 | an update with neither field changes nothing |
| Scoreboard.UpdateIdempotent | server/storage.ts:153-169 | sending the same update twice gives the same scores as sending it once |
| Scoreboard.ClampKeepsCounts | server/storage.ts:159 | a whole non-negative number is stored exactly |
| Scoreboard.ClampExamples | server/storage.ts:159 | -5 is stored as 0 and 3.7 is stored as 3 |
| Scoreboard.SetListIsUpdate | server/storage.ts:154-169 | the SET list, one `column = ?` per field given with good before bad, assigns exactly what the update means |
| Scoreboard.UpdateRowIsUpdate | server/storage.ts:166-169 | the row after the guarded UPDATE is the updated row, a missing row stays missing, and non-negative scores stay non-negative |
| Storage.BuildSetList | server/storage.ts:154-164 | the pushed fields and params list good then bad, for the fields present, with clamped values; the list is empty exactly when no field is given |
| Storage.SQLiteStorage.constructor | server/storage.ts:8-30 | a fresh database has an empty queue and a scores row of 0/0, and the invariant holds |
| Storage.SQLiteStorage.GetQueue | server/storage.ts:86-89 | the names ordered by position: each row's name stands at index position - 1 |
| Storage.SQLiteStorage.GetScores | server/storage.ts:146-151 | the scores row, or 0/0 when it is missing; never negative |
| Storage.SQLiteStorage.JoinQueue | server/storage.ts:91-108 | returns the abstract join; a rejection changes nothing; success appends row (next id, normalised name, n + 1, now) and the invariant holds |
| Storage.SQLiteStorage.LeaveQueue | server/storage.ts:110-128 | returns the abstract leave; a rejection changes nothing; success removes exactly one matching row, shifts later positions down, and the invariant holds |
| Storage.SQLiteStorage.NextPlayer | server/storage.ts:130-144 | returns the abstract next (`null` and `[]` on an empty queue, with nothing changed); otherwise the head row is removed and the others shift up |
| Storage.SQLiteStorage.UpdateScores | server/storage.ts:153-172 | the row becomes the clamped update, and a missing row stays missing; the result equals a following `getScores`; with no field nothing changes; the queue is untouched |

## Left out

- SQL itself. The better-sqlite3 driver, SQL text, prepared statements and the database file path are not modelled. The `queue` table is a sequence of rows, and the `scores` row is an optional field. The second `CREATE TABLE IF NOT EXISTS scores` (server/storage.ts:33-39) does nothing and is not modelled.
- Row order. SQLite returns rows of a `get()` without ORDER BY in table order, and the model takes that as id order. Under the invariant, position order and table order coincide.
- `Date.now()` for `created_at` becomes the parameter `now` of `JoinQueue`. Nothing reads it.
- `String(name || "")` only matters for non-string input. The model's names are strings, so this case does not arise.
- Floating point. Score inputs are reals, and `Math.floor` is `.Floor`. NaN, infinities and the 64-bit representation of JavaScript numbers are not modelled. Stored scores are unbounded integers.
- The UNIQUE constraint on `name` (server/storage.ts:11) is not modelled as an error path. SQLite compares it case-sensitively, and the case-insensitive check before the insert already rules out any clash.
- The queue's relation to the table's UPDATE of every position is stated through lemmas on `DeleteWhere` and `ShiftDown`, not through those functions' own contracts.
- server/routes.ts is not part of this model: HTTP transport, zod parsing and the status codes 400/404/409/500. Its rule that a score update must carry good and/or bad (server/routes.ts:84-86) is not a precondition, because `updateScores` itself handles the empty update.
- The zod limits of shared/schema.ts (name length 1 to 50 at line 11, good and bad at least 0 at lines 20-21) are not preconditions, because `storage.ts` handles every string and number without them.
- client/src/pages/home.tsx is not part of this model: the React UI, polling and toasts.
- Concurrency and transactions. The source is single-process and synchronous.
- The code has no locations, target scores, win detection, activity times or inactivity reaper, and neither does the model.
- Names are Dafny strings of Unicode scalar values, while JavaScript strings are UTF-16 code units. Lone surrogates cannot be represented, and the bound `|r| <= |name|` of NormalizeName counts scalar values, not code units.
- Storage.SQLiteStorage.constructor models opening a fresh database file only. Reopening an existing `data.db` (server/storage.ts:5-30) keeps its queue and scores, and skips the scores insert when the row exists.
- Unicode case folding is not modelled, because SQLite's `LOWER` without ICU folds only ASCII.

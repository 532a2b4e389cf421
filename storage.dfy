/**
 * `SQLiteStorage` of server/storage.ts: the `queue` table and the single
 * `scores` row are fields of one object, and each public operation runs the
 * source's prepared statements against them in the source's order. The
 * SELECT statements are the query functions of QueueTable; INSERT, DELETE
 * and UPDATE reassign the fields.
 */
module Storage {
  import opened Wrappers
  import opened NameNormalizer
  import opened CaseFold
  import opened QueueTable
  import opened Scoreboard
  import QueueSpec

  /** The SET list of `updateScores`: a `column = ?` and its clamped value
      for each field the update carries, good before bad. */
  method BuildSetList(update: ScoreUpdate) returns (fields: seq<Column>, params: seq<int>)
    ensures fields == (if update.good.Some? then [GoodScore] else [])
                      + (if update.bad.Some? then [BadScore] else [])
    ensures params == (if update.good.Some? then [Clamp(update.good.value)] else [])
                      + (if update.bad.Some? then [Clamp(update.bad.value)] else [])
    ensures |fields| == |params|
    ensures fields == [] <==> update.good.None? && update.bad.None?
  {
    fields := [];
    params := [];
    if update.good.Some? {
      fields := fields + [GoodScore];
      params := params + [Clamp(update.good.value)];
    }
    if update.bad.Some? {
      fields := fields + [BadScore];
      params := params + [Clamp(update.bad.value)];
    }
  }

  class SQLiteStorage {
    /** The `queue` table, in table (id) order. */
    var rows: seq<Row>
    /** The id AUTOINCREMENT hands out next. */
    var nextId: int
    /** The `scores` row with `id = 1`, when it exists. */
    var scoreRow: Option<Scores>

    /** What holds between operations: positions are 1..n in table order,
        ids grow, names are normalised and unique up to case, and the
        scores are not negative. */
    ghost predicate Valid()
      reads this
    {
      && TableInvariant(rows, nextId)
      && (scoreRow.Some? ==> NonNegative(scoreRow.value))
    }

    /** Opening a new database file: both tables are created empty and the
        scores row is inserted with both scores 0. */
    constructor ()
      ensures Valid()
      ensures rows == [] && scoreRow == Some(InitialScores)
      ensures GetQueue() == [] && GetScores() == InitialScores
    {
      rows := [];
      nextId := 1;
      scoreRow := Some(InitialScores);
    }

    /** `getQueue()`: the names ordered by position. */
    function GetQueue(): (q: seq<string>)
      reads this
      requires Valid()
      ensures |q| == |rows|
      ensures forall i :: 0 <= i < |rows| ==> q[rows[i].position - 1] == rows[i].name
    {
      Names(rows)
    }

    /** `getScores()`: the scores row, or 0/0 when it is missing. */
    function GetScores(): (s: Scores)
      reads this
      requires Valid()
      ensures NonNegative(s)
      ensures scoreRow.None? ==> s == InitialScores
      ensures scoreRow.Some? ==> s == scoreRow.value
    {
      match scoreRow
      case Some(row) => row
      case None => InitialScores
    }

    /** `joinQueue(rawName)`; `now` stands for `Date.now()`. */
    method JoinQueue(rawName: string, now: int) returns (result: QueueSpec.QueueResult)
      requires Valid()
      modifies this
      ensures Valid()
      ensures result == QueueSpec.Join(old(Names(rows)), rawName)
      ensures Names(rows) == QueueSpec.After(old(Names(rows)), result)
      ensures result.Rejected? ==> rows == old(rows) && nextId == old(nextId)
      ensures result.Queued? ==>
        && rows == old(rows) + [Row(old(nextId), NormalizeName(rawName), |old(rows)| + 1, now)]
        && nextId == old(nextId) + 1
      ensures scoreRow == old(scoreRow)
    {
      var name := NormalizeName(rawName);
      if name == [] {
        return QueueSpec.Rejected(QueueSpec.NameRequired);
      }
      if NameTaken(rows, name) {
        JoinTaken(rows, rawName);
        return QueueSpec.Rejected(QueueSpec.AlreadyInQueue);
      }
      var nextPos := MaxPosition(rows) + 1;
      var row := Row(nextId, name, nextPos, now);
      ghost var before := rows;
      rows := rows + [row];
      JoinInserts(before, nextId, rawName, now, nextPos, rows);
      assert row == Row(old(nextId), NormalizeName(rawName), |old(rows)| + 1, now);
      nextId := nextId + 1;
      result := QueueSpec.Queued(Names(rows));
    }

    /** `leaveQueue(rawName)`. */
    method LeaveQueue(rawName: string) returns (result: QueueSpec.QueueResult)
      requires Valid()
      modifies this
      ensures Valid()
      ensures result == QueueSpec.Leave(old(Names(rows)), rawName)
      ensures Names(rows) == QueueSpec.After(old(Names(rows)), result)
      ensures result.Rejected? ==> rows == old(rows)
      ensures result.Queued? ==>
        exists k :: 0 <= k < |old(rows)| && SameIgnoringCase(old(rows)[k].name, NormalizeName(rawName))
                    && rows == RemoveRowAt(old(rows), k)
      ensures nextId == old(nextId) && scoreRow == old(scoreRow)
    {
      var name := NormalizeName(rawName);
      if name == [] {
        return QueueSpec.Rejected(QueueSpec.NameRequired);
      }
      var player := PositionOf(rows, name);
      if player.None? {
        LeaveMissing(rows, rawName);
        return QueueSpec.Rejected(QueueSpec.NameNotFound);
      }
      var removedPos := player.value;
      ghost var before := rows;
      rows := DeleteWhere(rows, NameIs(name));
      rows := ShiftDown(rows, removedPos);
      LeaveRemoves(before, nextId, rawName, rows);
      result := QueueSpec.Queued(Names(rows));
    }

    /** `nextPlayer()`. */
    method NextPlayer() returns (result: QueueSpec.NextResult)
      requires Valid()
      modifies this
      ensures Valid()
      ensures result == QueueSpec.Next(old(Names(rows)))
      ensures Names(rows) == result.queue
      ensures old(rows) == [] ==> rows == old(rows)
      ensures old(rows) != [] ==> rows == RemoveRowAt(old(rows), 0)
      ensures nextId == old(nextId) && scoreRow == old(scoreRow)
    {
      var first := FirstRow(rows);
      if first.None? {
        return QueueSpec.NextResult(None, []);
      }
      var row := first.value;
      ghost var before := rows;
      rows := DeleteWhere(rows, IdIs(row.id));
      rows := ShiftDown(rows, row.position);
      NextRemovesHead(before, nextId, rows);
      result := QueueSpec.NextResult(Some(row.name), Names(rows));
    }

    /** `updateScores(update)`: the SET list is built field by field and run
        only when it is not empty; a missing row is left missing. */
    method UpdateScores(update: ScoreUpdate) returns (scores: Scores)
      requires Valid()
      modifies this
      ensures Valid()
      ensures scoreRow == if old(scoreRow).Some? then Some(ApplyUpdate(old(scoreRow).value, update)) else None
      ensures scores == if old(scoreRow).Some? then ApplyUpdate(old(scoreRow).value, update) else InitialScores
      ensures scores == GetScores()
      ensures update.good.None? && update.bad.None? ==> scoreRow == old(scoreRow)
      ensures rows == old(rows) && nextId == old(nextId)
    {
      var fields, params := BuildSetList(update);
      if |fields| > 0 && scoreRow.Some? {
        scoreRow := Some(Assign(scoreRow.value, fields, params));
      }
      UpdateRowIsUpdate(old(scoreRow), update, fields, params, scoreRow);
      scores := GetScores();
    }
  }
}

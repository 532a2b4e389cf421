/**
 * The `queue` table of server/storage.ts as a sequence of rows in table
 * order, and the effect of the DELETE and UPDATE statements on it.
 */
module QueueTable {
  import opened Wrappers
  import opened NameNormalizer
  import opened CaseFold
  import QueueSpec

  /** A row `{id, name, position, created_at}`. */
  datatype Row = Row(id: int, name: string, position: int, createdAt: int)

  /** The WHERE clause of a DELETE: `LOWER(name) = LOWER(?)` or `id = ?`. */
  datatype Where = NameIs(name: string) | IdIs(id: int)

  predicate Matches(w: Where, r: Row) {
    match w
    case NameIs(n) => SameIgnoringCase(r.name, n)
    case IdIs(id) => r.id == id
  }

  /** The `name` column, row by row. */
  function Names(rows: seq<Row>): (q: seq<string>)
    ensures |q| == |rows|
    ensures forall i :: 0 <= i < |rows| ==> q[i] == rows[i].name
  {
    seq(|rows|, i requires 0 <= i < |rows| => rows[i].name)
  }

  /** `checkExistsStmt`: is there a row whose name equals `name` up to case? */
  function NameTaken(rows: seq<Row>, name: string): (b: bool)
    ensures b <==> exists i :: 0 <= i < |rows| && SameIgnoringCase(rows[i].name, name)
  {
    if rows == [] then false
    else if SameIgnoringCase(rows[0].name, name) then true
    else
      var b := NameTaken(rows[1..], name);
      assert b ==> exists i :: 0 <= i < |rows| && SameIgnoringCase(rows[i].name, name) by {
        if b {
          var i :| 0 <= i < |rows| - 1 && SameIgnoringCase(rows[1..][i].name, name);
          assert rows[i + 1] == rows[1..][i];
        }
      }
      b
  }

  /** `getMaxPosStmt`: `COALESCE(MAX(position), 0)`. */
  function MaxPosition(rows: seq<Row>): (m: int)
    ensures rows == [] ==> m == 0
    ensures forall i :: 0 <= i < |rows| ==> rows[i].position <= m
    ensures rows != [] ==> exists i :: 0 <= i < |rows| && rows[i].position == m
  {
    if rows == [] then 0
    else if |rows| == 1 then rows[0].position
    else
      var rest := MaxPosition(rows[1..]);
      assert forall i :: 1 <= i < |rows| ==> rows[i] == rows[1..][i - 1];
      if rows[0].position >= rest then rows[0].position else rest
  }

  /** `getPlayerByNameStmt`: the position of the first row whose name equals
      `name` up to case, or none. */
  function PositionOf(rows: seq<Row>, name: string): (p: Option<int>)
    ensures p.None? <==> forall i :: 0 <= i < |rows| ==> !SameIgnoringCase(rows[i].name, name)
    ensures p.Some? ==>
      exists i :: 0 <= i < |rows| && SameIgnoringCase(rows[i].name, name) && rows[i].position == p.value
  {
    if rows == [] then None
    else if SameIgnoringCase(rows[0].name, name) then Some(rows[0].position)
    else
      var p := PositionOf(rows[1..], name);
      assert forall i :: 1 <= i < |rows| ==> rows[i] == rows[1..][i - 1];
      p
  }

  /** `getFirstPlayerStmt`: a row of least position (the first such in table
      order), or none when the table is empty. */
  function FirstRow(rows: seq<Row>): (first: Option<Row>)
    ensures first.None? <==> rows == []
    ensures first.Some? ==> exists i :: 0 <= i < |rows| && rows[i] == first.value
    ensures first.Some? ==> forall i :: 0 <= i < |rows| ==> first.value.position <= rows[i].position
  {
    if rows == [] then None
    else
      var rest := FirstRow(rows[1..]);
      assert forall i :: 1 <= i < |rows| ==> rows[i] == rows[1..][i - 1];
      match rest
      case None => Some(rows[0])
      case Some(r) => if r.position < rows[0].position then Some(r) else Some(rows[0])
  }

  /** Positions number the rows 1, 2, ... in table order. */
  ghost predicate DensePositions(rows: seq<Row>) {
    forall i :: 0 <= i < |rows| ==> rows[i].position == i + 1
  }

  /** AUTOINCREMENT: ids grow along the table and stay below the next one. */
  ghost predicate IdsBelow(rows: seq<Row>, nextId: int) {
    && (forall i, j :: 0 <= i < j < |rows| ==> rows[i].id < rows[j].id)
    && (forall i :: 0 <= i < |rows| ==> rows[i].id < nextId)
  }

  /** What the table keeps between operations. */
  ghost predicate TableInvariant(rows: seq<Row>, nextId: int) {
    DensePositions(rows) && IdsBelow(rows, nextId) && QueueSpec.ValidQueue(Names(rows))
  }

  /** `DELETE FROM queue WHERE ...`: the rows that do not match, in order. */
  function DeleteWhere(rows: seq<Row>, w: Where): (r: seq<Row>)
    ensures |r| <= |rows|
  {
    if rows == [] then []
    else
      var last := rows[|rows| - 1];
      DeleteWhere(rows[..|rows| - 1], w) + (if Matches(w, last) then [] else [last])
  }

  function ShiftRow(r: Row, removed: int): Row {
    if r.position > removed then r.(position := r.position - 1) else r
  }

  /** `UPDATE queue SET position = position - 1 WHERE position > ?`. */
  function ShiftDown(rows: seq<Row>, removed: int): (r: seq<Row>)
    ensures |r| == |rows|
  {
    seq(|rows|, i requires 0 <= i < |rows| => ShiftRow(rows[i], removed))
  }

  /** The table after its `k`-th row is deleted and the rows behind it are
      shifted down, as `leaveQueue` and `nextPlayer` do. */
  function RemoveRowAt(rows: seq<Row>, k: nat): seq<Row>
    requires k < |rows|
  {
    ShiftDown(rows[..k] + rows[k + 1..], rows[k].position)
  }

  /** The values of the `position` column. */
  function Positions(rows: seq<Row>): set<int> {
    set i | 0 <= i < |rows| :: rows[i].position
  }

  /** Dense positions are exactly 1..n, each used once. */
  lemma PositionsAreOneToN(rows: seq<Row>)
    requires DensePositions(rows)
    ensures forall p :: p in Positions(rows) <==> 1 <= p <= |rows|
    ensures forall i, j :: 0 <= i < j < |rows| ==> rows[i].position != rows[j].position
  {
    forall p | 1 <= p <= |rows| ensures p in Positions(rows) {
      assert rows[p - 1].position == p;
    }
  }

  lemma {:induction false} DeleteNoMatch(rows: seq<Row>, w: Where)
    requires forall i :: 0 <= i < |rows| ==> !Matches(w, rows[i])
    ensures DeleteWhere(rows, w) == rows
  {
    if rows != [] {
      var init := rows[..|rows| - 1];
      DeleteNoMatch(init, w);
      assert init + [rows[|rows| - 1]] == rows;
    }
  }

  /** A DELETE whose WHERE clause matches one row removes that row only. */
  lemma {:induction false} DeleteOnlyMatch(rows: seq<Row>, w: Where, k: nat)
    requires k < |rows| && Matches(w, rows[k])
    requires forall i :: 0 <= i < |rows| && i != k ==> !Matches(w, rows[i])
    ensures DeleteWhere(rows, w) == rows[..k] + rows[k + 1..]
  {
    var n := |rows|;
    var init := rows[..n - 1];
    if k == n - 1 {
      DeleteNoMatch(init, w);
      assert rows[k + 1..] == [];
    } else {
      DeleteOnlyMatch(init, w, k);
      assert init[..k] == rows[..k];
      assert init[k + 1..] + [rows[n - 1]] == rows[k + 1..];
    }
  }

  /** Removing a row and shifting down keeps positions dense and every other
      row as it was apart from its position; the names lose entry `k`. */
  lemma RemoveRowAtDense(rows: seq<Row>, k: nat)
    requires DensePositions(rows) && k < |rows|
    ensures var r := RemoveRowAt(rows, k);
      && |r| == |rows| - 1
      && DensePositions(r)
      && (forall i :: 0 <= i < k ==> r[i] == rows[i])
      && (forall i :: k <= i < |r| ==> r[i] == rows[i + 1].(position := i + 1))
      && Names(r) == QueueSpec.RemoveAt(Names(rows), k)
  {
    var rest := rows[..k] + rows[k + 1..];
    var r := RemoveRowAt(rows, k);
    assert forall i :: 0 <= i < k ==> rest[i] == rows[i];
    assert forall i :: k <= i < |rest| ==> rest[i] == rows[i + 1];
  }

  /** The ids of a table with one row removed still grow. */
  lemma RemoveRowAtIds(rows: seq<Row>, k: nat, nextId: int)
    requires IdsBelow(rows, nextId) && DensePositions(rows) && k < |rows|
    ensures IdsBelow(RemoveRowAt(rows, k), nextId)
  {
    RemoveRowAtDense(rows, k);
    var r := RemoveRowAt(rows, k);
    forall i, j | 0 <= i < j < |r| ensures r[i].id < r[j].id {
      var i' := if i < k then i else i + 1;
      var j' := if j < k then j else j + 1;
      assert r[i].id == rows[i'].id && r[j].id == rows[j'].id;
    }
  }

  /** `INSERT` of a row at position n + 1 with the next id keeps the table
      dense and ordered by id, and appends its name to the queue. */
  lemma AppendRow(rows: seq<Row>, nextId: int, name: string, createdAt: int)
    requires DensePositions(rows) && IdsBelow(rows, nextId)
    ensures var r := rows + [Row(nextId, name, |rows| + 1, createdAt)];
      && DensePositions(r)
      && IdsBelow(r, nextId + 1)
      && Names(r) == Names(rows) + [name]
  {
    var r := rows + [Row(nextId, name, |rows| + 1, createdAt)];
    assert Names(r) == Names(rows) + [name];
  }

  /** A DELETE that hits row `k` alone, followed by the shift-down of the
      rows behind its position, is RemoveRowAt: the table stays dense and
      ordered by id, and the queue loses entry `k`. */
  lemma DeleteThenShift(rows: seq<Row>, w: Where, k: nat, nextId: int)
    requires DensePositions(rows) && IdsBelow(rows, nextId)
    requires k < |rows| && Matches(w, rows[k])
    requires forall i :: 0 <= i < |rows| && i != k ==> !Matches(w, rows[i])
    ensures ShiftDown(DeleteWhere(rows, w), rows[k].position) == RemoveRowAt(rows, k)
    ensures DensePositions(RemoveRowAt(rows, k)) && IdsBelow(RemoveRowAt(rows, k), nextId)
    ensures Names(RemoveRowAt(rows, k)) == QueueSpec.RemoveAt(Names(rows), k)
  {
    DeleteOnlyMatch(rows, w, k);
    RemoveRowAtDense(rows, k);
    RemoveRowAtIds(rows, k, nextId);
  }

  /** Under unique names, row `k` is the only row a DELETE by its name hits. */
  lemma OnlyMatch(rows: seq<Row>, name: string, k: nat)
    requires QueueSpec.UniqueIgnoringCase(Names(rows))
    requires k < |rows| && SameIgnoringCase(rows[k].name, name)
    ensures forall i :: 0 <= i < |rows| && i != k ==> !Matches(NameIs(name), rows[i])
  {
    var q := Names(rows);
    forall i | 0 <= i < |rows| && i != k ensures !SameIgnoringCase(rows[i].name, name) {
      if i < k {
        assert !SameIgnoringCase(q[i], q[k]);
      } else {
        assert !SameIgnoringCase(q[k], q[i]);
      }
    }
  }

  /** `joinQueue` refuses a name some row already holds up to case. */
  lemma JoinTaken(rows: seq<Row>, rawName: string)
    requires NormalizeName(rawName) != [] && NameTaken(rows, NormalizeName(rawName))
    ensures QueueSpec.Join(Names(rows), rawName) == QueueSpec.Rejected(QueueSpec.AlreadyInQueue)
  {
    var i :| 0 <= i < |rows| && SameIgnoringCase(rows[i].name, NormalizeName(rawName));
    assert SameIgnoringCase(Names(rows)[i], NormalizeName(rawName));
  }

  /** `joinQueue` of a new name inserts it at position MAX + 1, which is
      n + 1, with the next id: the table keeps its invariant and shows
      Join's queue. */
  lemma JoinInserts(rows: seq<Row>, nextId: int, rawName: string, now: int, nextPos: int, after: seq<Row>)
    requires TableInvariant(rows, nextId)
    requires NormalizeName(rawName) != [] && !NameTaken(rows, NormalizeName(rawName))
    requires nextPos == MaxPosition(rows) + 1
    requires after == rows + [Row(nextId, NormalizeName(rawName), nextPos, now)]
    ensures nextPos == |rows| + 1
    ensures TableInvariant(after, nextId + 1)
    ensures QueueSpec.Join(Names(rows), rawName) == QueueSpec.Queued(Names(after))
  {
    var name := NormalizeName(rawName);
    var q := Names(rows);
    assert nextPos == |rows| + 1 by {
      if rows != [] {
        assert rows[|rows| - 1].position == |rows|;
      }
    }
    assert DensePositions(after) && IdsBelow(after, nextId + 1) && Names(after) == q + [name] by {
      AppendRow(rows, nextId, name, now);
    }
    assert forall i :: 0 <= i < |q| ==> !SameIgnoringCase(q[i], name) by {
      forall i | 0 <= i < |q| ensures !SameIgnoringCase(q[i], name) {
        assert q[i] == rows[i].name;
      }
    }
    assert QueueSpec.ValidQueue(q + [name]) by {
      QueueSpec.AppendPreservesValid(q, name);
    }
    assert QueueSpec.Join(q, rawName) == QueueSpec.Queued(q + [name]);
  }

  /** `leaveQueue` refuses a name no row holds. */
  lemma LeaveMissing(rows: seq<Row>, rawName: string)
    requires NormalizeName(rawName) != [] && PositionOf(rows, NormalizeName(rawName)).None?
    ensures QueueSpec.Leave(Names(rows), rawName) == QueueSpec.Rejected(QueueSpec.NameNotFound)
  {
    assert QueueSpec.FindIgnoringCase(Names(rows), NormalizeName(rawName)).None?;
  }

  /** `leaveQueue` of a waiting name: the DELETE by name hits one row `k`,
      the one whose position the SELECT found, and with the shift-down
      that follows it is Leave on the queue. */
  lemma LeaveRemoves(rows: seq<Row>, nextId: int, rawName: string, after: seq<Row>)
    requires TableInvariant(rows, nextId)
    requires NormalizeName(rawName) != [] && PositionOf(rows, NormalizeName(rawName)).Some?
    requires after == ShiftDown(DeleteWhere(rows, NameIs(NormalizeName(rawName))),
                                PositionOf(rows, NormalizeName(rawName)).value)
    ensures TableInvariant(after, nextId)
    ensures QueueSpec.Leave(Names(rows), rawName) == QueueSpec.Queued(Names(after))
    ensures exists k :: 0 <= k < |rows| && SameIgnoringCase(rows[k].name, NormalizeName(rawName))
                        && after == RemoveRowAt(rows, k)
  {
    var name := NormalizeName(rawName);
    var q := Names(rows);
    var i :| 0 <= i < |rows| && SameIgnoringCase(rows[i].name, name)
             && rows[i].position == PositionOf(rows, name).value;
    assert SameIgnoringCase(q[i], name);
    var k := QueueSpec.FindIgnoringCase(q, name).value;
    OnlyMatch(rows, name, k);
    assert i == k;
    DeleteThenShift(rows, NameIs(name), k, nextId);
    QueueSpec.LeavePreservesValid(q, rawName);
  }

  /** `nextPlayer` on a non-empty table: the row of least position is the
      head, the DELETE by its id hits it alone, and with the shift-down that
      follows it is Next on the queue. */
  lemma NextRemovesHead(rows: seq<Row>, nextId: int, after: seq<Row>)
    requires TableInvariant(rows, nextId)
    requires FirstRow(rows).Some?
    requires after == ShiftDown(DeleteWhere(rows, IdIs(FirstRow(rows).value.id)), FirstRow(rows).value.position)
    ensures FirstRow(rows) == Some(rows[0])
    ensures after == RemoveRowAt(rows, 0)
    ensures TableInvariant(after, nextId)
    ensures QueueSpec.Next(Names(rows)) == QueueSpec.NextResult(Some(rows[0].name), Names(after))
  {
    var row := FirstRow(rows).value;
    var q := Names(rows);
    assert row == rows[0] by {
      var i :| 0 <= i < |rows| && rows[i] == row;
      assert row.position <= rows[0].position;
    }
    assert after == RemoveRowAt(rows, 0) && TableInvariant(after, nextId) && Names(after) == q[1..] by {
      assert forall j :: 0 < j < |rows| ==> rows[0].id < rows[j].id;
      DeleteThenShift(rows, IdIs(rows[0].id), 0, nextId);
      QueueSpec.NextPreservesValid(q);
      assert QueueSpec.RemoveAt(q, 0) == q[1..];
    }
  }
}

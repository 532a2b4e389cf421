/**
 * The single row of the `scores` table and what `updateScores` of
 * server/storage.ts writes into it.
 */
module Scoreboard {
  import opened Wrappers

  /** `{ good, bad }`: the two team scores. */
  datatype Scores = Scores(good: int, bad: int)

  /** The request body of a score update: either field may be missing.
      JSON numbers are modelled as reals. */
  datatype ScoreUpdate = ScoreUpdate(good: Option<real>, bad: Option<real>)

  /** The columns a score update can assign: `good_score`, `bad_score`. */
  datatype Column = GoodScore | BadScore

  /** The row `INSERT INTO scores ... VALUES (1, 0, 0)` creates, and what
      `getScores` answers when the row is missing. */
  const InitialScores := Scores(0, 0)

  predicate NonNegative(s: Scores) {
    s.good >= 0 && s.bad >= 0
  }

  /** `Math.max(0, Math.floor(v))`: the largest whole number not above `v`,
      or 0 when that is negative. */
  function Clamp(v: real): (n: int)
    ensures n >= 0
    ensures v >= 0.0 ==> n as real <= v < n as real + 1.0
    ensures v < 0.0 ==> n == 0
  {
    var f := v.Floor;
    if f < 0 then 0 else f
  }

  /** One `column = ?` assignment of an UPDATE statement. */
  function SetColumn(s: Scores, c: Column, v: int): Scores {
    match c
    case GoodScore => s.(good := v)
    case BadScore => s.(bad := v)
  }

  /** `UPDATE scores SET <fields> WHERE id = 1` with `params` bound in order. */
  function Assign(s: Scores, fields: seq<Column>, params: seq<int>): Scores
    requires |fields| == |params|
  {
    if fields == [] then s
    else SetColumn(Assign(s, fields[..|fields| - 1], params[..|params| - 1]),
                   fields[|fields| - 1], params[|params| - 1])
  }

  /** The scores `updateScores` leaves: each given field clamped, each
      missing field as it was. */
  function ApplyUpdate(s: Scores, u: ScoreUpdate): Scores {
    Scores(if u.good.Some? then Clamp(u.good.value) else s.good,
           if u.bad.Some? then Clamp(u.bad.value) else s.bad)
  }

  /** Scores are never negative after an update, whatever numbers it carries. */
  lemma UpdateKeepsNonNegative(s: Scores, u: ScoreUpdate)
    requires NonNegative(s)
    ensures NonNegative(ApplyUpdate(s, u))
  {
  }

  /** An update with neither field changes nothing. */
  lemma EmptyUpdateKeepsScores(s: Scores)
    ensures ApplyUpdate(s, ScoreUpdate(None, None)) == s
  {
  }

  /** Sending the same update twice is the same as sending it once. */
  lemma UpdateIdempotent(s: Scores, u: ScoreUpdate)
    ensures ApplyUpdate(ApplyUpdate(s, u), u) == ApplyUpdate(s, u)
  {
  }

  /** A whole non-negative number is stored exactly. */
  lemma ClampKeepsCounts(n: int)
    requires n >= 0
    ensures Clamp(n as real) == n
  {
  }

  /** A negative score is stored as 0 and a fraction is rounded down:
      {good: -5} stores 0 and {good: 3.7} stores 3. */
  lemma ClampExamples()
    ensures Clamp(-5.0) == 0 && Clamp(3.7) == 3
  {
  }

  /** The SET list `updateScores` builds, one `column = ?` per field the
      update carries and good before bad, assigns what ApplyUpdate says. */
  lemma SetListIsUpdate(s: Scores, u: ScoreUpdate, fields: seq<Column>, params: seq<int>)
    requires fields == (if u.good.Some? then [GoodScore] else []) + (if u.bad.Some? then [BadScore] else [])
    requires params == (if u.good.Some? then [Clamp(u.good.value)] else [])
                       + (if u.bad.Some? then [Clamp(u.bad.value)] else [])
    ensures |fields| == |params| && Assign(s, fields, params) == ApplyUpdate(s, u)
  {
    if u.good.Some? && u.bad.Some? {
      assert fields[..1] == [GoodScore] && params[..1] == [Clamp(u.good.value)];
    }
  }

  /** The `scores` row after `updateScores` runs its UPDATE (only when the
      SET list is not empty; a missing row is left missing) is the row
      ApplyUpdate gives, and it stays non-negative. */
  lemma UpdateRowIsUpdate(row: Option<Scores>, u: ScoreUpdate, fields: seq<Column>, params: seq<int>,
                          after: Option<Scores>)
    requires fields == (if u.good.Some? then [GoodScore] else []) + (if u.bad.Some? then [BadScore] else [])
    requires params == (if u.good.Some? then [Clamp(u.good.value)] else [])
                       + (if u.bad.Some? then [Clamp(u.bad.value)] else [])
    requires |fields| == |params|
    requires after == if |fields| > 0 && row.Some? then Some(Assign(row.value, fields, params)) else row
    ensures after == if row.Some? then Some(ApplyUpdate(row.value, u)) else None
    ensures row.Some? && NonNegative(row.value) ==> NonNegative(after.value)
  {
    if row.Some? {
      SetListIsUpdate(row.value, u, fields, params);
      if fields == [] {
        EmptyUpdateKeepsScores(row.value);
        assert u == ScoreUpdate(None, None);
      }
      if NonNegative(row.value) {
        UpdateKeepsNonNegative(row.value, u);
      }
    }
  }
}

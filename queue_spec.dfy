/**
 * The queue as `getQueue` shows it: player names in position order. Join,
 * Leave and Next say what `joinQueue`, `leaveQueue` and `nextPlayer` of
 * server/storage.ts return and what the queue is afterwards; the table
 * operations in module Storage are proved to implement them.
 */
module QueueSpec {
  import opened Wrappers
  import opened NameNormalizer
  import opened CaseFold

  datatype QueueError = NameRequired | AlreadyInQueue | NameNotFound

  /** The `error` text each rejection carries. */
  function Message(e: QueueError): string {
    match e
    case NameRequired => "Name is required"
    case AlreadyInQueue => "Already in queue"
    case NameNotFound => "Name not found in queue"
  }

  /** `{ queue }` or `{ error }`. */
  datatype QueueResult = Queued(queue: seq<string>) | Rejected(error: QueueError)

  /** `{ next, queue }`; `next` is `null` when nobody was waiting. */
  datatype NextResult = NextResult(next: Option<string>, queue: seq<string>)

  /** No two waiting players have names that differ only in ASCII case. */
  ghost predicate UniqueIgnoringCase(q: seq<string>) {
    forall i, j :: 0 <= i < j < |q| ==> !SameIgnoringCase(q[i], q[j])
  }

  /** Every waiting name went through `normalizeName` and was not empty. */
  ghost predicate AllNormalized(q: seq<string>) {
    forall i :: 0 <= i < |q| ==> q[i] != [] && IsNormalized(q[i])
  }

  ghost predicate ValidQueue(q: seq<string>) {
    UniqueIgnoringCase(q) && AllNormalized(q)
  }

  /** The first entry equal to `name` up to case, as `WHERE LOWER(name) = LOWER(?)` finds it. */
  function FindIgnoringCase(q: seq<string>, name: string): (k: Option<nat>)
    ensures k.None? <==> forall i :: 0 <= i < |q| ==> !SameIgnoringCase(q[i], name)
    ensures k.Some? ==> k.value < |q| && SameIgnoringCase(q[k.value], name)
    ensures k.Some? ==> forall i :: 0 <= i < k.value ==> !SameIgnoringCase(q[i], name)
  {
    if q == [] then None
    else if SameIgnoringCase(q[0], name) then Some(0)
    else match FindIgnoringCase(q[1..], name)
      case None => None
      case Some(k) => Some(k + 1)
  }

  /** The queue without its `k`-th entry; everybody behind moves up one place. */
  function RemoveAt(q: seq<string>, k: nat): (r: seq<string>)
    requires k < |q|
    ensures |r| == |q| - 1
    ensures forall i :: 0 <= i < k ==> r[i] == q[i]
    ensures forall i :: k <= i < |r| ==> r[i] == q[i + 1]
  {
    q[..k] + q[k + 1..]
  }

  /** `joinQueue(rawName)`. */
  function Join(q: seq<string>, rawName: string): QueueResult {
    var name := NormalizeName(rawName);
    if name == [] then Rejected(NameRequired)
    else if FindIgnoringCase(q, name).Some? then Rejected(AlreadyInQueue)
    else Queued(q + [name])
  }

  /** `leaveQueue(rawName)`. */
  function Leave(q: seq<string>, rawName: string): QueueResult {
    var name := NormalizeName(rawName);
    if name == [] then Rejected(NameRequired)
    else match FindIgnoringCase(q, name)
      case None => Rejected(NameNotFound)
      case Some(k) => Queued(RemoveAt(q, k))
  }

  /** `nextPlayer()`. */
  function Next(q: seq<string>): NextResult {
    if q == [] then NextResult(None, []) else NextResult(Some(q[0]), q[1..])
  }

  /** The queue after an operation: a rejection leaves it as it was. */
  function After(q: seq<string>, r: QueueResult): seq<string> {
    if r.Queued? then r.queue else q
  }

  /** A join is refused exactly when the name is blank or somebody with the
      same name up to case is already waiting. */
  lemma JoinAcceptedIff(q: seq<string>, rawName: string)
    ensures Join(q, rawName).Queued? <==>
      !AllWhitespace(rawName)
      && forall i :: 0 <= i < |q| ==> !SameIgnoringCase(q[i], NormalizeName(rawName))
    ensures Join(q, rawName) == Rejected(NameRequired) <==> AllWhitespace(rawName)
  {
    NormalizeEmptyIff(rawName);
  }

  /** A normalised name that differs up to case from everyone waiting can
      join the back without breaking the invariant. */
  lemma AppendPreservesValid(q: seq<string>, name: string)
    requires ValidQueue(q) && name != [] && IsNormalized(name)
    requires forall i :: 0 <= i < |q| ==> !SameIgnoringCase(q[i], name)
    ensures ValidQueue(q + [name])
  {
    var r := q + [name];
    forall i, j | 0 <= i < j < |r| ensures !SameIgnoringCase(r[i], r[j]) {
      assert r[i] == q[i];
      if j < |q| {
        assert r[j] == q[j];
      } else {
        assert r[j] == name;
      }
    }
    forall i | 0 <= i < |r| ensures r[i] != [] && IsNormalized(r[i]) {
      if i < |q| {
        assert r[i] == q[i];
      }
    }
  }

  lemma JoinPreservesValid(q: seq<string>, rawName: string)
    requires ValidQueue(q)
    ensures ValidQueue(After(q, Join(q, rawName)))
  {
    var name := NormalizeName(rawName);
    if name != [] && FindIgnoringCase(q, name).None? {
      AppendPreservesValid(q, name);
    }
  }

  /** After a successful join the new name stands once, at the back. */
  lemma JoinedOnceAtBack(q: seq<string>, rawName: string)
    requires Join(q, rawName).Queued?
    ensures var r := Join(q, rawName).queue;
      |r| == |q| + 1 && r[..|q|] == q && r[|q|] == NormalizeName(rawName)
      && forall i :: 0 <= i < |r| ==> (SameIgnoringCase(r[i], NormalizeName(rawName)) <==> i == |q|)
  {
  }

  /** Joining again under the same name, in any case or spacing, is refused. */
  lemma DuplicateJoinRejected(q: seq<string>, first: string, again: string)
    requires Join(q, first).Queued?
    requires SameIgnoringCase(NormalizeName(first), NormalizeName(again))
    ensures Join(Join(q, first).queue, again) == Rejected(AlreadyInQueue)
  {
    var name := NormalizeName(first);
    var r := Join(q, first).queue;
    assert |Lower(NormalizeName(again))| == |Lower(name)|;
    assert SameIgnoringCase(r[|q|], NormalizeName(again));
  }

  /** Joining does not let anyone jump the line: the head stays the head. */
  lemma JoinKeepsHead(q: seq<string>, rawName: string)
    requires q != [] && Join(q, rawName).Queued?
    ensures Next(Join(q, rawName).queue) == NextResult(Some(q[0]), q[1..] + [NormalizeName(rawName)])
  {
    var name := NormalizeName(rawName);
    assert Join(q, rawName).queue == q + [name];
    AppendKeepsHead(q, name);
  }

  /** Appending to a non-empty sequence keeps its head and extends its tail.
      Stated generically, apart from the names, so the solver need not
      unfold normalisation while proving it. */
  lemma AppendKeepsHead<T>(q: seq<T>, x: T)
    requires q != []
    ensures (q + [x])[0] == q[0] && (q + [x])[1..] == q[1..] + [x]
  {
  }

  /** A leave is refused with "Name is required" exactly when the name is
      blank, and with "Name not found in queue" exactly when nobody waiting
      has the name up to case. */
  lemma LeaveRejectedIff(q: seq<string>, rawName: string)
    ensures Leave(q, rawName) == Rejected(NameRequired) <==> AllWhitespace(rawName)
    ensures Leave(q, rawName) == Rejected(NameNotFound) <==>
      !AllWhitespace(rawName)
      && forall i :: 0 <= i < |q| ==> !SameIgnoringCase(q[i], NormalizeName(rawName))
  {
    NormalizeEmptyIff(rawName);
  }

  /** Leaving removes the one matching entry and keeps everyone else in order. */
  lemma LeaveRemovesMatch(q: seq<string>, rawName: string)
    requires ValidQueue(q) && Leave(q, rawName).Queued?
    ensures var r := Leave(q, rawName).queue;
      var name := NormalizeName(rawName);
      && (exists k :: 0 <= k < |q| && SameIgnoringCase(q[k], name) && r == RemoveAt(q, k))
      && forall i :: 0 <= i < |r| ==> !SameIgnoringCase(r[i], name)
  {
    var name := NormalizeName(rawName);
    var k := FindIgnoringCase(q, name).value;
    var r := RemoveAt(q, k);
    forall i | 0 <= i < |r| ensures !SameIgnoringCase(r[i], name) {
      if i < k {
        assert !SameIgnoringCase(q[i], q[k]);
      } else {
        assert !SameIgnoringCase(q[k], q[i + 1]);
      }
    }
  }

  lemma RemoveAtPreservesValid(q: seq<string>, k: nat)
    requires ValidQueue(q) && k < |q|
    ensures ValidQueue(RemoveAt(q, k))
  {
    var r := RemoveAt(q, k);
    forall i, j | 0 <= i < j < |r| ensures !SameIgnoringCase(r[i], r[j]) {
      var i' := if i < k then i else i + 1;
      var j' := if j < k then j else j + 1;
      assert r[i] == q[i'] && r[j] == q[j'] && i' < j';
    }
  }

  lemma LeavePreservesValid(q: seq<string>, rawName: string)
    requires ValidQueue(q)
    ensures ValidQueue(After(q, Leave(q, rawName)))
  {
    var name := NormalizeName(rawName);
    if name != [] && FindIgnoringCase(q, name).Some? {
      RemoveAtPreservesValid(q, FindIgnoringCase(q, name).value);
    }
  }

  lemma NextPreservesValid(q: seq<string>)
    requires ValidQueue(q)
    ensures ValidQueue(Next(q).queue)
  {
    if q != [] {
      RemoveAtPreservesValid(q, 0);
      assert RemoveAt(q, 0) == q[1..];
    }
  }

  /** Advancing is leaving by the name at the head. */
  lemma NextIsLeaveOfHead(q: seq<string>)
    requires ValidQueue(q) && q != []
    ensures Next(q).next == Some(q[0])
    ensures Leave(q, q[0]) == Queued(Next(q).queue)
  {
    NormalizeFixesNormalized(q[0]);
    assert FindIgnoringCase(q, q[0]) == Some(0);
    assert RemoveAt(q, 0) == q[1..];
  }

  /** Leave undoes a successful join. */
  lemma JoinThenLeave(q: seq<string>, rawName: string)
    requires Join(q, rawName).Queued?
    ensures Leave(Join(q, rawName).queue, rawName) == Queued(q)
  {
    var name := NormalizeName(rawName);
    var r := q + [name];
    assert SameIgnoringCase(r[|q|], name);
    assert forall i :: 0 <= i < |q| ==> !SameIgnoringCase(r[i], name);
    assert FindIgnoringCase(r, name) == Some(|q|);
    assert RemoveAt(r, |q|) == q;
  }

  /** One accepted leave, as a step of a scenario. */
  lemma LeaveStep(q: seq<string>, rawName: string, k: nat)
    requires NormalizeName(rawName) != [] && FindIgnoringCase(q, NormalizeName(rawName)) == Some(k)
    ensures Leave(q, rawName) == Queued(RemoveAt(q, k))
  {
  }

  /** On A, B, C, leaving by B's name takes out the middle entry. */
  lemma LeaveMiddle(x: string, y: string, z: string, rawName: string)
    requires NormalizeName(rawName) == y && y != [] && !SameIgnoringCase(x, y)
    ensures Leave([x, y, z], rawName) == Queued([x, z])
  {
    var q := [x, y, z];
    assert FindIgnoringCase(q, y) == Some(1) by {
      Literals(x, y, z);
      assert FindIgnoringCase([y, z], y) == Some(0);
    }
    assert RemoveAt(q, 1) == [x, z] by {
      Literals(x, y, z);
    }
    LeaveStep(q, rawName, 1);
  }

  /** Facts about short queue literals, proved apart from the names in them:
      with the names in scope the solver unfolds normalisation and case
      folding while it proves these, and the scenario lemmas become slow. */
  lemma Literals<T>(x: T, y: T, z: T)
    ensures [] + [x] == [x] && [x] + [y] == [x, y] && [x, y] + [z] == [x, y, z]
    ensures [x][1..] == [] && [x, y][1..] == [y] && [x, y, z][1..] == [y, z]
    ensures [x, y, z][..1] + [x, y, z][2..] == [x, z]
  {
  }

  /** One accepted join, as a step of a scenario. */
  lemma JoinStep(q: seq<string>, rawName: string, name: string)
    requires name == NormalizeName(rawName) && name != []
    requires FindIgnoringCase(q, name).None?
    ensures After(q, Join(q, rawName)) == q + [name]
  {
  }

  /** Two players with different names join an empty queue in order. */
  lemma TwoJoins(a: string, b: string)
    requires NormalizeName(a) != [] && NormalizeName(b) != []
    requires !SameIgnoringCase(NormalizeName(a), NormalizeName(b))
    ensures var q1 := After([], Join([], a));
      After(q1, Join(q1, b)) == [NormalizeName(a), NormalizeName(b)]
  {
    var na, nb := NormalizeName(a), NormalizeName(b);
    Literals(na, nb, nb);
    JoinStep([], a, na);
    assert FindIgnoringCase([na], nb) == None;
    JoinStep([na], b, nb);
  }

  /** A third player with yet another name joins behind them. */
  lemma ThreeJoins(a: string, b: string, c: string)
    requires NormalizeName(a) != [] && NormalizeName(b) != [] && NormalizeName(c) != []
    requires !SameIgnoringCase(NormalizeName(a), NormalizeName(b))
    requires !SameIgnoringCase(NormalizeName(a), NormalizeName(c))
    requires !SameIgnoringCase(NormalizeName(b), NormalizeName(c))
    ensures var q1 := After([], Join([], a));
      var q2 := After(q1, Join(q1, b));
      After(q2, Join(q2, c)) == [NormalizeName(a), NormalizeName(b), NormalizeName(c)]
  {
    var na, nb, nc := NormalizeName(a), NormalizeName(b), NormalizeName(c);
    var q2 := [na, nb];
    assert After(q2, Join(q2, c)) == [na, nb, nc] by {
      Literals(na, nb, nc);
      Literals(nb, nc, nc);
      assert FindIgnoringCase([nb], nc) == None;
      assert FindIgnoringCase(q2, nc) == None;
      JoinStep(q2, c, nc);
    }
    TwoJoins(a, b);
  }

  /** FIFO order under churn: on an empty queue, A, B and C join, B leaves,
      and advancing calls A and leaves only C waiting. */
  lemma FifoUnderChurn(a: string, b: string, c: string)
    requires NormalizeName(a) != [] && NormalizeName(b) != [] && NormalizeName(c) != []
    requires !SameIgnoringCase(NormalizeName(a), NormalizeName(b))
    requires !SameIgnoringCase(NormalizeName(a), NormalizeName(c))
    requires !SameIgnoringCase(NormalizeName(b), NormalizeName(c))
    ensures var q1 := After([], Join([], a));
      var q2 := After(q1, Join(q1, b));
      var q3 := After(q2, Join(q2, c));
      var q4 := After(q3, Leave(q3, b));
      Next(q4) == NextResult(Some(NormalizeName(a)), [NormalizeName(c)])
  {
    ThreeJoins(a, b, c);
    LeaveMiddle(NormalizeName(a), NormalizeName(b), NormalizeName(c), b);
  }
}

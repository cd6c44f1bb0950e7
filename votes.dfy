/**
 * Vote application: the `vote` mutation of the post resolver.
 *
 * The database is abstracted as two tables: the vote ledger (`updoot`), keyed
 * by (userId, postId) and holding +1 or -1, and the `points` column of `post`,
 * keyed by post id. One call reads the caller's ledger entry and then, as one
 * atomic step, either inserts it (first vote), overwrites it (change of
 * direction) or leaves everything as it was (same direction again).
 */
module Votes {
  import opened Wrappers

  /** A ledger key: (userId, postId). The map keeps at most one entry per pair. */
  type Key = (int, int)
  /** The `updoot` table: one vote value per (userId, postId). */
  type Ledger = map<Key, int>
  /** The `points` column of the `post` table, by post id. */
  type Points = map<int, int>

  /** Both tables, as one value: the state a vote changes. */
  datatype Tables = Tables(ledger: Ledger, points: Points)

  /** The three outcomes of comparing the stored vote with the requested one. */
  datatype VoteKind = FirstVote | Flip | Repeat

  /** The requested value mapped to a unit vote: only -1 is a downvote. */
  function Normalize(value: int): (r: int)
    ensures r == 1 || r == -1
    ensures r == -1 <==> value == -1
  {
    if value != -1 then 1 else -1
  }

  /** The ledger row for (userId, postId), if there is one. */
  function Lookup(ledger: Ledger, userId: int, postId: int): (r: Option<int>)
    ensures r.Some? <==> (userId, postId) in ledger
    ensures r.Some? ==> r.value == ledger[(userId, postId)]
  {
    if (userId, postId) in ledger then Some(ledger[(userId, postId)]) else None
  }

  /** Which branch of the vote runs, given the stored row and the unit vote. */
  function Classify(existing: Option<int>, realValue: int): (k: VoteKind)
    ensures k == FirstVote <==> existing.None?
    ensures k == Flip <==> existing.Some? && existing.value != realValue
    ensures k == Repeat <==> existing == Some(realValue)
  {
    if existing.Some? && existing.value != realValue then Flip
    else if existing.None? then FirstVote
    else Repeat
  }

  /**
   * `update post set points = points + k where id = postId`: the matching row,
   * if any, moves by k; no row is created and no other row changes.
   */
  function AddPoints(points: Points, postId: int, k: int): (r: Points)
    ensures r.Keys == points.Keys
    ensures postId in points ==> r[postId] - points[postId] == k
    ensures forall p :: p in points && p != postId ==> r[p] == points[p]
  {
    if postId in points then points[postId := points[postId] + k] else points
  }

  /**
   * The effect of one `vote` call on both tables, branch by branch. Only the
   * caller's own row (created when absent) and the voted post's points can
   * change.
   */
  function Apply(s: Tables, postId: int, userId: int, value: int): (r: Tables)
    ensures r.ledger.Keys == s.ledger.Keys + {(userId, postId)}
    ensures forall k :: k in s.ledger && k != (userId, postId) ==> r.ledger[k] == s.ledger[k]
    ensures r.points.Keys == s.points.Keys
    ensures forall p :: p in s.points && p != postId ==> r.points[p] == s.points[p]
  {
    var realValue := Normalize(value);
    match Classify(Lookup(s.ledger, userId, postId), realValue)
    case Flip =>
      Tables(s.ledger[(userId, postId) := realValue], AddPoints(s.points, postId, 2 * realValue))
    case FirstVote =>
      Tables(s.ledger[(userId, postId) := realValue], AddPoints(s.points, postId, realValue))
    case Repeat =>
      s
  }

  /** What entry k contributes to the score of post postId. */
  function Share(ledger: Ledger, k: Key, postId: int): int
    requires k in ledger
  {
    if k.1 == postId then ledger[k] else 0
  }

  /** The sum of all ledger values recorded for post postId. */
  ghost function Tally(ledger: Ledger, postId: int): int
    decreases ledger.Keys
  {
    if ledger == map[] then 0
    else
      var k :| k in ledger;
      Share(ledger, k, postId) + Tally(ledger - {k}, postId)
  }

  /** The tally may be taken apart at any entry, not only the one it picks. */
  lemma {:induction false} TallyRemove(ledger: Ledger, k: Key, postId: int)
    requires k in ledger
    ensures Tally(ledger, postId) == Share(ledger, k, postId) + Tally(ledger - {k}, postId)
    decreases ledger.Keys
  {
    var j :| j in ledger && Tally(ledger, postId) == Share(ledger, j, postId) + Tally(ledger - {j}, postId);
    if j != k {
      TallyRemove(ledger - {j}, k, postId);
      TallyRemove(ledger - {k}, j, postId);
      assert Share(ledger - {j}, k, postId) == Share(ledger, k, postId);
      assert Share(ledger - {k}, j, postId) == Share(ledger, j, postId);
      assert ledger - {j} - {k} == ledger - {k} - {j};
    }
  }

  /** Writing value v at key k moves the tally of k's post by v minus what was there. */
  lemma TallyUpdate(ledger: Ledger, k: Key, v: int, postId: int)
    ensures Tally(ledger[k := v], postId)
         == Tally(ledger, postId)
            - (if k in ledger && k.1 == postId then ledger[k] else 0)
            + (if k.1 == postId then v else 0)
  {
    TallyRemove(ledger[k := v], k, postId);
    if k in ledger {
      TallyRemove(ledger, k, postId);
      assert ledger[k := v] - {k} == ledger - {k};
    } else {
      assert ledger[k := v] - {k} == ledger;
    }
  }

  /**
   * The invariant the two tables keep: every vote is a unit, and every post's
   * points equal the sum of the votes recorded for it.
   */
  ghost predicate Consistent(s: Tables)
  {
    && (forall k :: k in s.ledger ==> s.ledger[k] == 1 || s.ledger[k] == -1)
    && (forall p :: p in s.points ==> s.points[p] == Tally(s.ledger, p))
  }

  /**
   * Whatever value is requested, afterwards the caller's entry holds the unit
   * vote (+1 or -1): a repeat only happens when it already does.
   */
  lemma StoredVoteIsUnit(s: Tables, postId: int, userId: int, value: int)
    ensures Lookup(Apply(s, postId, userId, value).ledger, userId, postId) == Some(Normalize(value))
  {
  }

  /** First vote: the entry is created with the unit vote and the post gains exactly that. */
  lemma FirstVoteEffect(s: Tables, postId: int, userId: int, value: int)
    requires (userId, postId) !in s.ledger
    ensures var r := Apply(s, postId, userId, value);
            && r.ledger == s.ledger[(userId, postId) := Normalize(value)]
            && r.points.Keys == s.points.Keys
            && (postId in s.points ==> r.points[postId] == s.points[postId] + Normalize(value))
            && (forall p :: p in s.points && p != postId ==> r.points[p] == s.points[p])
  {
  }

  /**
   * Change of direction: the entry is overwritten and the post moves by twice
   * the new vote; in a consistent store the old entry was the opposite unit.
   */
  lemma FlipEffect(s: Tables, postId: int, userId: int, value: int)
    requires (userId, postId) in s.ledger && s.ledger[(userId, postId)] != Normalize(value)
    ensures var r := Apply(s, postId, userId, value);
            && r.ledger == s.ledger[(userId, postId) := Normalize(value)]
            && r.points.Keys == s.points.Keys
            && (postId in s.points ==> r.points[postId] == s.points[postId] + 2 * Normalize(value))
            && (forall p :: p in s.points && p != postId ==> r.points[p] == s.points[p])
    ensures Consistent(s) ==> s.ledger[(userId, postId)] == -Normalize(value)
  {
  }

  /** Repeating the stored direction changes nothing. */
  lemma RepeatIsNoOp(s: Tables, postId: int, userId: int, value: int)
    requires (userId, postId) in s.ledger && s.ledger[(userId, postId)] == Normalize(value)
    ensures Apply(s, postId, userId, value) == s
  {
  }

  /** Voting twice in the same direction is the same as voting once. */
  lemma VoteIdempotent(s: Tables, postId: int, userId: int, value: int)
    ensures var once := Apply(s, postId, userId, value);
            Apply(once, postId, userId, value) == once
  {
  }

  /** A vote keeps every post's points equal to the sum of its ledger entries. */
  lemma {:induction false} ApplyPreservesConsistent(s: Tables, postId: int, userId: int, value: int)
    requires Consistent(s)
    ensures Consistent(Apply(s, postId, userId, value))
  {
    var r := Apply(s, postId, userId, value);
    var key := (userId, postId);
    var v := Normalize(value);
    if r != s {
      assert r.ledger == s.ledger[key := v];
      forall p | p in r.points
        ensures r.points[p] == Tally(r.ledger, p)
      {
        TallyUpdate(s.ledger, key, v, p);
      }
    }
  }

  /**
   * From no vote, an upvote and then a downvote by the same user move the post
   * by +1 and then by -2, ending one below where it started.
   */
  lemma UpThenDown(s: Tables, postId: int, userId: int, up: int)
    requires (userId, postId) !in s.ledger && postId in s.points
    requires up != -1
    ensures var mid := Apply(s, postId, userId, up);
            var end := Apply(mid, postId, userId, -1);
            && mid.points[postId] == s.points[postId] + 1
            && end.points[postId] == mid.points[postId] - 2
            && end.points[postId] == s.points[postId] - 1
            && end.ledger[(userId, postId)] == -1
  {
  }

  /** The two tables, updated in place by the resolver's SQL statements. */
  class VoteStore {
    var ledger: Ledger
    var points: Points

    constructor (initial: Tables)
      ensures State() == initial
      ensures Consistent(initial) ==> Valid()
    {
      ledger := initial.ledger;
      points := initial.points;
    }

    /** The current contents of both tables. */
    function State(): Tables
      reads this
    {
      Tables(ledger, points)
    }

    ghost predicate Valid()
      reads this
    {
      Consistent(State())
    }

    /**
     * The `vote` mutation: normalise, read the caller's row, then run at most
     * one of the two transactions. Always answers true.
     */
    method Vote(postId: int, userId: int, value: int) returns (ok: bool)
      modifies this
      ensures ok
      ensures State() == Apply(old(State()), postId, userId, value)
      ensures old(Valid()) ==> Valid()
    {
      var isUpdoot := value != -1;
      var realValue := if isUpdoot then 1 else -1;
      var updoot := Lookup(ledger, userId, postId);
      if updoot.Some? && updoot.value != realValue {
        ledger := ledger[(userId, postId) := realValue];
        points := AddPoints(points, postId, 2 * realValue);
      } else if updoot.None? {
        ledger := ledger[(userId, postId) := realValue];
        points := AddPoints(points, postId, realValue);
      }
      if old(Valid()) {
        ApplyPreservesConsistent(old(State()), postId, userId, value);
      }
      ok := true;
    }
  }
}

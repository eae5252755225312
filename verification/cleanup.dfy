/**
 * Duplicate cleanup (`cleanupDuplicates`): one SQL statement that supersedes
 * every `pending` row except the one with the largest id of its
 * (user, chat) pair.
 */
module Cleanup {

  import opened Types

  /** Ids are pairwise distinct, as the primary key guarantees. */
  predicate DistinctIds(rows: seq<Request>) {
    forall i, j | 0 <= i < j < |rows| :: rows[i].id != rows[j].id
  }

  lemma ValidDistinct(db: Db)
    requires Valid(db)
    ensures DistinctIds(db.rows)
  {
  }

  /** Row `i` is `pending` and no `pending` row of its pair has a larger id. */
  predicate IsNewestPending(rows: seq<Request>, i: int)
    requires 0 <= i < |rows|
  {
    && rows[i].status == Pending
    && forall j | 0 <= j < |rows| && rows[j].status == Pending && rows[j].SamePair(rows[i]) :: rows[j].id <= rows[i].id
  }

  /** No two `pending` rows share a (user, chat) pair. */
  predicate AtMostOnePendingPerPair(rows: seq<Request>) {
    forall i, j | 0 <= i < j < |rows| && rows[i].status == Pending && rows[j].status == Pending ::
      !rows[i].SamePair(rows[j])
  }

  /**
   * `cleanupDuplicates`: a row stays `pending` exactly when it was the
   * newest `pending` row of its pair; the other `pending` rows become
   * `superseded` and no other row changes.
   */
  function CleanupDuplicates(rows: seq<Request>): (r: seq<Request>)
    ensures |r| == |rows|
    ensures forall i | 0 <= i < |rows| :: rows[i].status != Pending ==> r[i] == rows[i]
    ensures forall i | 0 <= i < |rows| :: r[i] == rows[i] || r[i] == rows[i].(status := Superseded)
    ensures forall i | 0 <= i < |rows| :: r[i].status == Pending <==> IsNewestPending(rows, i)
  {
    seq(|rows|, i requires 0 <= i < |rows| =>
      if rows[i].status == Pending && !IsNewestPending(rows, i) then rows[i].(status := Superseded) else rows[i])
  }

  function CleanupDb(db: Db): (r: Db)
    ensures Evolves(db, r)
    ensures r.events == db.events && r.nextId == db.nextId
  {
    db.(rows := CleanupDuplicates(db.rows))
  }

  /** With distinct ids, at most one `pending` row per pair survives. */
  lemma CleanupLeavesOnePending(rows: seq<Request>)
    requires DistinctIds(rows)
    ensures AtMostOnePendingPerPair(CleanupDuplicates(rows))
  {
    var r := CleanupDuplicates(rows);
    forall i, j | 0 <= i < j < |rows| && r[i].status == Pending && r[j].status == Pending
      ensures !r[i].SamePair(r[j])
    {
      assert IsNewestPending(rows, i) && IsNewestPending(rows, j);
      assert r[i] == rows[i] && r[j] == rows[j];
    }
  }

  /** Running the cleanup twice is the same as running it once. */
  lemma CleanupIdempotent(rows: seq<Request>)
    ensures CleanupDuplicates(CleanupDuplicates(rows)) == CleanupDuplicates(rows)
  {
    var r := CleanupDuplicates(rows);
    var rr := CleanupDuplicates(r);
    forall i | 0 <= i < |r|
      ensures rr[i] == r[i]
    {
      if r[i].status == Pending {
        assert IsNewestPending(rows, i);
        forall j | 0 <= j < |r| && r[j].status == Pending && r[j].SamePair(r[i])
          ensures r[j].id <= r[i].id
        {
          assert r[j] == rows[j] && r[i] == rows[i];
        }
        assert IsNewestPending(r, i);
      }
    }
  }

  /** The index of the `pending` row of the pair with the largest id, or -1 when the pair has none. */
  function NewestPendingIndex(rows: seq<Request>, u: int, c: string): (k: int)
    ensures -1 <= k < |rows|
    ensures k == -1 <==> forall i | 0 <= i < |rows| :: !Matches(PendingOfPair(u, c), rows[i])
    ensures k >= 0 ==> Matches(PendingOfPair(u, c), rows[k]) && IsNewestPending(rows, k)
  {
    if rows == [] then -1
    else
      var init := rows[..|rows| - 1];
      var k := NewestPendingIndex(init, u, c);
      var last := rows[|rows| - 1];
      assert forall i | 0 <= i < |init| :: init[i] == rows[i];
      if Matches(PendingOfPair(u, c), last) && (k == -1 || init[k].id <= last.id) then |rows| - 1
      else k
  }

  lemma {:induction false} AtMostOneCount(rows: seq<Request>, u: int, c: string)
    requires AtMostOnePendingPerPair(rows)
    ensures CountIf(rows, PendingOfPair(u, c)) <= 1
  {
    if rows != [] {
      var init := rows[..|rows| - 1];
      assert forall i | 0 <= i < |init| :: init[i] == rows[i];
      AtMostOneCount(init, u, c);
      if Matches(PendingOfPair(u, c), rows[|rows| - 1]) {
        CountIfZero(init, PendingOfPair(u, c));
      }
    }
  }

  /**
   * Per pair, the cleanup keeps exactly one `pending` row when there was
   * at least one and none otherwise.
   */
  lemma CleanupPendingCount(rows: seq<Request>, u: int, c: string)
    requires DistinctIds(rows)
    ensures var before := CountIf(rows, PendingOfPair(u, c));
            CountIf(CleanupDuplicates(rows), PendingOfPair(u, c)) == if before == 0 then 0 else 1
  {
    var r := CleanupDuplicates(rows);
    CleanupLeavesOnePending(rows);
    AtMostOneCount(r, u, c);
    CountIfZero(rows, PendingOfPair(u, c));
    CountIfZero(r, PendingOfPair(u, c));
    var k := NewestPendingIndex(rows, u, c);
    if k >= 0 {
      assert Matches(PendingOfPair(u, c), r[k]);
    } else {
      forall i | 0 <= i < |r| ensures !Matches(PendingOfPair(u, c), r[i]) {
        assert r[i] == rows[i] || r[i] == rows[i].(status := Superseded);
      }
    }
  }
}

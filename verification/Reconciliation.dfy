/** Reconciliation of the stored statistics with the full scan. */
module Reconciliation {
  import opened Sums
  import opened Reviews
  import opened Aggregates

  // ---- Reconciliation ----

  ghost function Groups(s: Store): set<Key> {
    set id | id in s.reviews :: s.reviews[id].key
  }

  /** The full scan as a table. */
  ghost function Scan(s: Store): map<Key, Totals> {
    map key | key in Groups(s) && Recompute(s, key).count > 0 :: Recompute(s, key)
  }

  ghost predicate Mismatch(s: Store, key: Key) {
    (key in Scan(s)) != (key in s.rows) || (key in s.rows && s.rows[key].totals != Scan(s)[key])
  }

  ghost function Mismatches(s: Store): set<Key> {
    set key | key in Scan(s).Keys + s.rows.Keys && Mismatch(s, key)
  }

  /** A key is in the scan exactly when some review contributes to it. */
  lemma ScanIsRecompute(s: Store, key: Key)
    requires RatingsOk(s)
    ensures key in Scan(s) <==> Recompute(s, key).count > 0
  {
    EmptyCount(s, key);
    if Recompute(s, key).count > 0 {
      var id :| Contributes(s, key, id);
      assert key in Groups(s);
    }
  }

  /** Reconciliation reports nothing exactly when the table agrees with the scan. */
  lemma NoMismatchIffAgrees(s: Store)
    requires RatingsOk(s)
    ensures Mismatches(s) == {} <==> Agrees(s)
  {
    forall key ensures AgreesAt(s, key) <==> key !in Mismatches(s) {
      ScanIsRecompute(s, key);
    }
    if Agrees(s) {
      assert Mismatches(s) == {} by {
        forall key ensures key !in Mismatches(s) {
          assert AgreesAt(s, key);
        }
      }
    }
  }

  /** The repaired table: wrong rows are deleted, inserted or overwritten, the others are left alone. */
  ghost function RepairedRows(s: Store): map<Key, Row> {
    map key | key in Scan(s) ::
      if key !in s.rows then Row(Scan(s)[key], 1)
      else if s.rows[key].totals == Scan(s)[key] then s.rows[key]
      else Row(Scan(s)[key], s.rows[key].revision + 1)
  }

  lemma RepairedAt(s: Store, key: Key)
    requires RatingsOk(s)
    ensures key in RepairedRows(s) <==> Recompute(s, key).count > 0
    ensures key in RepairedRows(s) ==> RepairedRows(s)[key].totals == Recompute(s, key)
    ensures key in RepairedRows(s) && key in s.rows && s.rows[key].totals == Recompute(s, key) ==>
      RepairedRows(s)[key] == s.rows[key]
  {
    hide Recompute;
    ScanIsRecompute(s, key);
  }

  lemma SameReviews(s: Store, t: Store, key: Key)
    requires s.reviews == t.reviews && s.revisions == t.revisions
    ensures Recompute(t, key) == Recompute(s, key)
  {
    forall m ensures Total(s, key, m) == Total(t, key, m) {
      SumCongruent(s.reviews.Keys, Shares(s, key, m), Shares(t, key, m));
    }
  }

  lemma RepairAgrees(s: Store)
    requires RatingsOk(s)
    ensures Agrees(s.(rows := RepairedRows(s)))
  {
    hide Recompute, RepairedRows;
    var t := s.(rows := RepairedRows(s));
    forall key ensures AgreesAt(t, key) {
      SameReviews(s, t, key);
      RepairedAt(s, key);
    }
  }

  /** From any table at all, a repair leaves the scan's table, finds nothing on a second run and does nothing then. */
  lemma RepairConverges(s: Store)
    requires WellFormed(s)
    ensures var t := s.(rows := RepairedRows(s)); Valid(t) && Mismatches(t) == {} && RepairedRows(t) == t.rows
  {
    var t := s.(rows := RepairedRows(s));
    RepairAgrees(s);
    forall id | id in t.reviews ensures ReviewOk(t, id) {
      assert ReviewOk(s, id);
    }
    NoMismatchIffAgrees(t);
    AgreeingRowsStay(t);
  }

  /** A table that agrees with the scan is left exactly as it is. */
  lemma AgreeingRowsStay(s: Store)
    requires RatingsOk(s) && Agrees(s)
    ensures RepairedRows(s) == s.rows
  {
    hide Recompute, RepairedRows;
    forall key
      ensures (key in s.rows <==> key in RepairedRows(s)) && (key in s.rows ==> RepairedRows(s)[key] == s.rows[key])
    {
      assert AgreesAt(s, key);
      RepairedAt(s, key);
    }
  }
}

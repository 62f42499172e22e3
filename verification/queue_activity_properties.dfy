/**
  What the evaluation rule of the queue-activity check promises: how names are
  matched, what the totals add up, the shape and order of the display list,
  the threshold step and the verdict it leads to.
 */
module QueueActivityProperties {
  import opened Wrappers
  import opened QueueActivity

  // ---------------------------------------------------------------------------
  // Reference definitions, stated on the listing itself rather than on the
  // display list the check builds.
  // ---------------------------------------------------------------------------

  /** Number of records named `q`. */
  function CountNamed(records: seq<QueueRecord>, q: string): nat {
    if records == [] then 0
    else
      var n := |records| - 1;
      CountNamed(records[..n], q) + (if records[n].name == q then 1 else 0)
  }

  /** Number of (requested name, record carrying that name) pairs. */
  function PairCount(requested: seq<string>, records: seq<QueueRecord>): nat {
    if requested == [] then 0
    else
      var n := |requested| - 1;
      PairCount(requested[..n], records) + CountNamed(records, requested[n])
  }

  // ---------------------------------------------------------------------------
  // Sums
  // ---------------------------------------------------------------------------

  /** A name requested twice counts twice toward both totals. */
  lemma DuplicateCountsTwice(records: seq<QueueRecord>, q: string)
    ensures TotalIn([q, q], records) == 2.0 * IngressOf(records, q)
    ensures TotalOut([q, q], records) == 2.0 * EgressOf(records, q)
  {
    assert [q, q][..1] == [q];
    assert [q][..0] == [];
    assert RequestedIngress([q], records) == IngressOf(records, q);
    assert RequestedEgress([q], records) == EgressOf(records, q);
  }

  // ---------------------------------------------------------------------------
  // The display list
  // ---------------------------------------------------------------------------

  /** Matching over a listing split in two is matching over each part. */
  lemma {:induction false} MatchingAppend(r1: seq<QueueRecord>, r2: seq<QueueRecord>, q: string)
    ensures Matching(r1 + r2, q) == Matching(r1, q) + Matching(r2, q)
    decreases |r2|
  {
    if r2 == [] {
      assert r1 + r2 == r1;
    } else {
      var n := |r2| - 1;
      assert (r1 + r2)[..|r1 + r2| - 1] == r1 + r2[..n];
      MatchingAppend(r1, r2[..n], q);
    }
  }

  /** Requesting one more name appends that name's matches to the display list. */
  lemma ShownSnoc(s: seq<string>, q: string, records: seq<QueueRecord>)
    ensures Shown(s + [q], records) == Shown(s, records) + Matching(records, q)
  {
    assert (s + [q])[..|s|] == s;
  }

  /** Concatenation of display lists is associative. */
  lemma AssocShown(x: seq<Entry>, y: seq<Entry>, z: seq<Entry>)
    ensures (x + y) + z == x + (y + z)
  {
  }

  /** The display list of a request split in two is the two display lists. */
  lemma {:induction false} ShownAppend(a: seq<string>, b: seq<string>, records: seq<QueueRecord>)
    ensures Shown(a + b, records) == Shown(a, records) + Shown(b, records)
    decreases |b|
  {
    if b == [] {
      assert a + b == a;
    } else {
      var n := |b| - 1;
      var q := b[n];
      var front := b[..n];
      assert b == front + [q];
      assert a + b == (a + front) + [q];
      ShownSnoc(a + front, q, records);
      ShownSnoc(front, q, records);
      ShownAppend(a, front, records);
      AssocShown(Shown(a, records), Shown(front, records), Matching(records, q));
    }
  }

  /** The smallest pieces of the display list: a single requested name
      contributes exactly its matches, and a single record contributes its own
      entry exactly when it carries the name. With `ShownAppend` and
      `MatchingAppend` this fixes the order of the display list: request order
      first, then listing order. */
  lemma SingletonContributions(q: string, rec: QueueRecord, records: seq<QueueRecord>)
    ensures Shown([q], records) == Matching(records, q)
    ensures Matching([rec], q) == if rec.name == q then [EntryOf(rec)] else []
  {
    assert [q][..0] == [];
    assert [rec][..0] == [];
  }

  /** An entry is matched for `q` exactly when some record named `q` yields it. */
  lemma {:induction false} MatchingMembership(records: seq<QueueRecord>, q: string, e: Entry)
    ensures e in Matching(records, q) <==>
            exists j :: 0 <= j < |records| && records[j].name == q && EntryOf(records[j]) == e
    decreases |records|
  {
    if records != [] {
      var n := |records| - 1;
      MatchingMembership(records[..n], q, e);
      if e in Matching(records[..n], q) {
        var j :| 0 <= j < n && records[..n][j].name == q && EntryOf(records[..n][j]) == e;
        assert records[j] == records[..n][j];
      }
      if exists j :: 0 <= j < |records| && records[j].name == q && EntryOf(records[j]) == e {
        var j :| 0 <= j < |records| && records[j].name == q && EntryOf(records[j]) == e;
        if j < n {
          assert records[..n][j] == records[j];
        }
      }
    }
  }

  /** Requested name `i` and record `j` yield entry `e`. */
  ghost predicate Yields(requested: seq<string>, records: seq<QueueRecord>, e: Entry, i: int, j: int) {
    0 <= i < |requested| && 0 <= j < |records| && records[j].name == requested[i] && EntryOf(records[j]) == e
  }

  /** An entry is on the display list exactly when some requested name and some
      record carrying it yield it. */
  lemma {:induction false} ShownMembership(requested: seq<string>, records: seq<QueueRecord>, e: Entry)
    ensures e in Shown(requested, records) <==> exists i, j :: Yields(requested, records, e, i, j)
    decreases |requested|
  {
    if requested != [] {
      var n := |requested| - 1;
      var prefix := requested[..n];
      var q := requested[n];
      assert Shown(requested, records) == Shown(prefix, records) + Matching(records, q);
      ShownMembership(prefix, records, e);
      MatchingMembership(records, q, e);
      if e in Shown(requested, records) {
        if e in Shown(prefix, records) {
          var i, j :| Yields(prefix, records, e, i, j);
          assert Yields(requested, records, e, i, j);
        } else {
          assert e in Matching(records, q);
          var j :| 0 <= j < |records| && records[j].name == q && EntryOf(records[j]) == e;
          assert Yields(requested, records, e, n, j);
        }
      }
      if exists i, j :: Yields(requested, records, e, i, j) {
        var i, j :| Yields(requested, records, e, i, j);
        if i < n {
          assert Yields(prefix, records, e, i, j);
        } else {
          assert e in Matching(records, q);
        }
      }
    }
  }

  /** The entries matched for one name are as many as the records carrying it. */
  lemma {:induction false} MatchingLength(records: seq<QueueRecord>, q: string)
    ensures |Matching(records, q)| == CountNamed(records, q)
    decreases |records|
  {
    if records != [] {
      MatchingLength(records[..|records| - 1], q);
    }
  }

  /** The display list has exactly one entry per (requested name, matching
      record) pair. */
  lemma {:induction false} ShownLength(requested: seq<string>, records: seq<QueueRecord>)
    ensures |Shown(requested, records)| == PairCount(requested, records)
    decreases |requested|
  {
    if requested != [] {
      var n := |requested| - 1;
      ShownLength(requested[..n], records);
      MatchingLength(records, requested[n]);
    }
  }

  // ---------------------------------------------------------------------------
  // Names the listing lacks
  // ---------------------------------------------------------------------------

  /** The `NotAvailable` messages of a request split in two are those of each part. */
  lemma {:induction false} MissingAppend(a: seq<string>, b: seq<string>, records: seq<QueueRecord>)
    ensures Missing(a + b, records) == Missing(a, records) + Missing(b, records)
    decreases |b|
  {
    if b == [] {
      assert a + b == a;
    } else {
      var n := |b| - 1;
      assert (a + b)[..|a + b| - 1] == a + b[..n];
      MissingAppend(a, b[..n], records);
    }
  }

  /** Requesting a name the listing lacks adds exactly one `NotAvailable`
      message, in its place, and changes neither the display list nor either
      total. */
  lemma MissingNameAddsOnlyItsMessage(s1: seq<string>, q: string, s2: seq<string>, records: seq<QueueRecord>)
    requires !Listed(records, q)
    ensures Missing(s1 + [q] + s2, records) == Missing(s1, records) + [NotAvailable(q)] + Missing(s2, records)
    ensures Shown(s1 + [q] + s2, records) == Shown(s1 + s2, records)
    ensures TotalIn(s1 + [q] + s2, records) == TotalIn(s1 + s2, records)
    ensures TotalOut(s1 + [q] + s2, records) == TotalOut(s1 + s2, records)
  {
    assert [q][..0] == [];
    assert Missing([q], records) == [NotAvailable(q)];
    MatchingEmptyIffUnlisted(records, q);
    assert Shown([q], records) == [];
    MissingAppend(s1, [q], records);
    MissingAppend(s1 + [q], s2, records);
    ShownAppend(s1, [q], records);
    ShownAppend(s1 + [q], s2, records);
    ShownAppend(s1, s2, records);
    assert Shown(s1 + [q], records) == Shown(s1, records);
  }

  /** `NotAvailable(q)` is reported exactly when `q` is requested and the
      listing lacks it. */
  lemma {:induction false} MissingMembership(requested: seq<string>, records: seq<QueueRecord>, q: string)
    ensures NotAvailable(q) in Missing(requested, records) <==> q in requested && !Listed(records, q)
    decreases |requested|
  {
    if requested != [] {
      var n := |requested| - 1;
      MissingMembership(requested[..n], records, q);
      assert requested == requested[..n] + [requested[n]];
    }
  }

  /** No `NotAvailable` message is reported exactly when every requested name
      is listed. */
  lemma {:induction false} NoneMissingIffAllListed(requested: seq<string>, records: seq<QueueRecord>)
    ensures Missing(requested, records) == [] <==>
            forall i :: 0 <= i < |requested| ==> Listed(records, requested[i])
    decreases |requested|
  {
    if requested != [] {
      var n := |requested| - 1;
      NoneMissingIffAllListed(requested[..n], records);
      assert forall i :: 0 <= i < n ==> requested[..n][i] == requested[i];
    }
  }

  /** A requested name the listing lacks rules out OK: the verdict is at least
      WARNING, whatever the thresholds. */
  lemma MissingNameIsNeverOk(requested: seq<string>, records: seq<QueueRecord>, th: Thresholds, q: string)
    requires q in requested && !Listed(records, q)
    ensures !Evaluate(requested, records, th).Ok?
  {
    MissingMembership(requested, records, q);
  }

  /** With no requested name in the listing, both totals stay 0 and the
      display list is empty. The verdict is then CRITICAL exactly when neither
      threshold is negative, and reports only the empty display list. Otherwise,
      with a critical threshold below 0 the empty display list joins the
      `NotAvailable` messages as a WARNING. With a warning threshold below 0 the
      threshold step is skipped: the verdict is WARNING with the `NotAvailable`
      messages, or OK when no name was requested at all. */
  lemma {:induction false} AllMissingIsCritical(requested: seq<string>, records: seq<QueueRecord>, th: Thresholds)
    requires forall i :: 0 <= i < |requested| ==> !Listed(records, requested[i])
    ensures Shown(requested, records) == []
    ensures TotalIn(requested, records) == 0.0 && TotalOut(requested, records) == 0.0
    ensures Evaluate(requested, records, th).Critical? <==> th.warn >= 0.0 && th.critical >= 0.0
    ensures th.warn >= 0.0 && th.critical >= 0.0 ==> Evaluate(requested, records, th) == Critical([Listing([])])
    ensures th.warn >= 0.0 && th.critical < 0.0 ==>
              Evaluate(requested, records, th) == Warning(Missing(requested, records) + [Listing([])])
    ensures th.warn < 0.0 ==>
              Evaluate(requested, records, th)
                == if requested == [] then Ok else Warning(Missing(requested, records))
    decreases |requested|
  {
    if requested != [] {
      var n := |requested| - 1;
      assert forall i :: 0 <= i < n ==> requested[..n][i] == requested[i];
      AllMissingIsCritical(requested[..n], records, th);
      MatchingEmptyIffUnlisted(records, requested[n]);
      assert Shown(requested, records) == [];
      NoneMissingIffAllListed(requested, records);
    }
  }

  // ---------------------------------------------------------------------------
  // Thresholds and the verdict
  // ---------------------------------------------------------------------------

  /** The threshold step records the display list exactly when a total is at or
      below the warning threshold, equality included, and then exactly once:
      on the critical list when a total is also at or below the critical
      threshold, on the warning list otherwise. */
  lemma ThresholdStep(totalIn: real, totalOut: real, th: Thresholds, missing: seq<Message>, shown: seq<Entry>)
    requires forall k :: 0 <= k < |missing| ==> missing[k].NotAvailable?
    ensures
      var l := Classify(totalIn, totalOut, th, missing, shown);
      && (Listing(shown) in l.crit + l.warn <==> totalIn <= th.warn || totalOut <= th.warn)
      && (Listing(shown) in l.crit <==>
            (totalIn <= th.warn || totalOut <= th.warn) && (totalIn <= th.critical || totalOut <= th.critical))
      && |l.crit| + |l.warn| <= |missing| + 1
  {
  }

  /** When the warning threshold is at or below the critical one (as with the
      defaults 250 and 500), low traffic always gives CRITICAL, and a WARNING
      verdict can only report names the listing lacks. */
  lemma WarnNotAboveCriticalNeverWarnsOnTraffic(requested: seq<string>, records: seq<QueueRecord>, th: Thresholds)
    requires th.warn <= th.critical
    ensures
      var v := Evaluate(requested, records, th);
      && (Low(TotalIn(requested, records), TotalOut(requested, records), th.warn) ==> v.Critical?)
      && (v.Warning? ==> v.messages == Missing(requested, records))
  {
  }

  /** A total exactly equal to the warning threshold takes the check off OK. */
  lemma EqualityTriggers(requested: seq<string>, records: seq<QueueRecord>, th: Thresholds)
    requires TotalIn(requested, records) == th.warn || TotalOut(requested, records) == th.warn
    ensures !Evaluate(requested, records, th).Ok?
    ensures th.warn <= th.critical ==> Evaluate(requested, records, th).Critical?
  {
  }

  // ---------------------------------------------------------------------------
  // Worked cases
  // ---------------------------------------------------------------------------

  /** The display list of two requested names, each carried by one record. */
  lemma TwoQueuesShown(x: QueueRecord, y: QueueRecord)
    requires x.name != y.name
    ensures Shown([x.name, y.name], [x, y]) == [EntryOf(x), EntryOf(y)]
    ensures TotalIn([x.name, y.name], [x, y]) == Rate(x.ingress) + Rate(y.ingress)
    ensures TotalOut([x.name, y.name], [x, y]) == Rate(x.egress) + Rate(y.egress)
  {
    var records := [x, y];
    TwoQueuesMatching(x, y);
    var shown := [EntryOf(x), EntryOf(y)];
    assert [] + [x.name] == [x.name] && [x.name] + [y.name] == [x.name, y.name];
    ShownSnoc([], x.name, records);
    ShownSnoc([x.name], y.name, records);
    assert [] + [EntryOf(x)] == [EntryOf(x)] && [EntryOf(x)] + [EntryOf(y)] == shown;
    SumSnoc([], EntryOf(x));
    SumSnoc([EntryOf(x)], EntryOf(y));
  }

  /** Each of two differently named records is the only match for its name. */
  lemma TwoQueuesMatching(x: QueueRecord, y: QueueRecord)
    requires x.name != y.name
    ensures Matching([x, y], x.name) == [EntryOf(x)]
    ensures Matching([x, y], y.name) == [EntryOf(y)]
  {
    var records := [x, y];
    assert records[..0] == [] && records[..1] == [x] && records[..2] == records;
    MatchingSnoc(records, 0, x.name);
    MatchingSnoc(records, 1, x.name);
    MatchingSnoc(records, 0, y.name);
    MatchingSnoc(records, 1, y.name);
  }

  /** Two listed queues whose traffic sums to (180, 90) under the default
      thresholds: CRITICAL, with both entries in request order. */
  lemma LowTrafficIsCritical()
    ensures
      var records := [QueueRecord("a", Some(100.0), Some(50.0)), QueueRecord("b", Some(80.0), Some(40.0))];
      Evaluate(["a", "b"], records, DefaultThresholds)
        == Critical([Listing([Entry("a", 100.0, 50.0), Entry("b", 80.0, 40.0)])])
  {
    var records := [QueueRecord("a", Some(100.0), Some(50.0)), QueueRecord("b", Some(80.0), Some(40.0))];
    TwoQueuesShown(records[0], records[1]);
  }

  /** Two listed queues whose traffic sums to (600, 600) under the default
      thresholds: OK. */
  lemma HighTrafficIsOk()
    ensures
      var records := [QueueRecord("a", Some(300.0), Some(300.0)), QueueRecord("b", Some(300.0), Some(300.0))];
      Evaluate(["a", "b"], records, DefaultThresholds) == Ok
  {
    var records := [QueueRecord("a", Some(300.0), Some(300.0)), QueueRecord("b", Some(300.0), Some(300.0))];
    TwoQueuesShown(records[0], records[1]);
    assert Names(records) == ["a", "b"];
    NoneMissingIffAllListed(["a", "b"], records);
  }

  /** One requested name carried by the only record, then one name the
      listing lacks. */
  lemma OneListedOneMissing(x: QueueRecord, c: string)
    requires x.name != c
    ensures Shown([x.name, c], [x]) == [EntryOf(x)]
    ensures Missing([x.name, c], [x]) == [NotAvailable(c)]
    ensures TotalIn([x.name, c], [x]) == Rate(x.ingress)
    ensures TotalOut([x.name, c], [x]) == Rate(x.egress)
  {
    var records := [x];
    assert Names(records) == [x.name];
    assert !Listed(records, c);
    MissingNameAddsOnlyItsMessage([x.name], c, [], records);
    assert [x.name] + [c] + [] == [x.name, c];
    assert [x.name] + [] == [x.name];
    SingletonContributions(x.name, x, records);
    assert Shown([x.name], records) == [EntryOf(x)];
    assert [x.name][..0] == [];
    assert Missing([x.name], records) == [];
    assert [] + [EntryOf(x)] == [EntryOf(x)];
    SumSnoc([], EntryOf(x));
  }

  /** A queue missing from a busy listing: WARNING, reporting that it is not
      available. */
  lemma MissingQueueWarns()
    ensures
      var records := [QueueRecord("a", Some(300.0), Some(300.0))];
      Evaluate(["a", "c"], records, DefaultThresholds) == Warning([NotAvailable("c")])
  {
    OneListedOneMissing(QueueRecord("a", Some(300.0), Some(300.0)), "c");
  }
}

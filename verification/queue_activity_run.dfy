/**
  The check's `run` as its loops are written: one pass over the requested
  names, an inner pass over the listing for each name found, running totals,
  then the threshold step and the verdict. Proved to agree with
  `QueueActivity.Evaluate`.
 */
module QueueActivityRun {
  import opened Wrappers
  import opened QueueActivity

  /** One iteration of the inner loop keeps the display list equal to the
      entries before the loop followed by the matches seen so far. */
  lemma MatchStep(shown0: seq<Entry>, records: seq<QueueRecord>, j: nat, q: string, shown: seq<Entry>)
    requires j < |records|
    requires shown == shown0 + Matching(records[..j], q)
    ensures records[j].name == q ==> shown + [EntryOf(records[j])] == shown0 + Matching(records[..j + 1], q)
    ensures records[j].name != q ==> shown == shown0 + Matching(records[..j + 1], q)
  {
    MatchingSnoc(records, j, q);
  }

  /** The inner loop over the listing for one requested name `q`: appends an
      entry for every record named `q`, in listing order, and adds its rates to
      the running totals. */
  method AddMatches(records: seq<QueueRecord>, q: string, shown0: seq<Entry>, in0: real, out0: real)
    returns (shown: seq<Entry>, totalIn: real, totalOut: real)
    requires in0 == SumIn(shown0) && out0 == SumOut(shown0)
    ensures shown == shown0 + Matching(records, q)
    ensures totalIn == SumIn(shown) && totalOut == SumOut(shown)
  {
    shown, totalIn, totalOut := shown0, in0, out0;
    var j := 0;
    while j < |records|
      invariant 0 <= j <= |records|
      invariant shown == shown0 + Matching(records[..j], q)
      invariant totalIn == SumIn(shown) && totalOut == SumOut(shown)
    {
      MatchStep(shown0, records, j, q, shown);
      var rec := records[j];
      if rec.name == q {
        var avgIn := Rate(rec.ingress);
        var avgOut := Rate(rec.egress);
        var e := Entry(q, avgIn, avgOut);
        assert e == EntryOf(rec);
        SumSnoc(shown, e);
        totalIn := totalIn + avgIn;
        totalOut := totalOut + avgOut;
        shown := shown + [e];
      }
      j := j + 1;
    }
    assert records[..|records|] == records;
  }

  /** The threshold step and the verdict, on the totals the scan produced. */
  method Report(totalIn: real, totalOut: real, th: Thresholds, warn0: seq<Message>, shown: seq<Entry>)
    returns (v: Verdict)
    ensures v == Decide(Classify(totalIn, totalOut, th, warn0, shown))
  {
    var crit: seq<Message> := [];
    var warn := warn0;
    if totalIn <= th.warn || totalOut <= th.warn {
      if totalIn <= th.critical || totalOut <= th.critical {
        crit := crit + [Listing(shown)];
      } else {
        warn := warn + [Listing(shown)];
      }
    }
    if crit == [] && warn == [] {
      v := Ok;
    } else if crit != [] {
      v := Critical(crit);
    } else {
      v := Warning(warn);
    }
  }

  /** The check's `run`, given the listing the broker returned. */
  method Run(requested: seq<string>, records: seq<QueueRecord>, th: Thresholds) returns (v: Verdict)
    ensures v == Evaluate(requested, records, th)
  {
    var warn: seq<Message> := [];
    var shown: seq<Entry> := [];
    var totalIn := 0.0;
    var totalOut := 0.0;
    var names := Names(records);
    var i := 0;
    while i < |requested|
      invariant 0 <= i <= |requested|
      invariant warn == Missing(requested[..i], records)
      invariant shown == Shown(requested[..i], records)
      invariant totalIn == SumIn(shown) && totalOut == SumOut(shown)
    {
      var q := requested[i];
      assert requested[..i + 1][..i] == requested[..i];
      MatchingEmptyIffUnlisted(records, q);
      if q !in names {
        // a name the listing lacks is reported and adds nothing else
        warn := warn + [NotAvailable(q)];
      } else {
        shown, totalIn, totalOut := AddMatches(records, q, shown, totalIn, totalOut);
      }
      i := i + 1;
    }
    assert requested[..|requested|] == requested;
    v := Report(totalIn, totalOut, th, warn, shown);
  }
}

/**
  The evaluation rule of the RabbitMQ queue-activity check: given the queue
  names an operator asked about, the broker's queue listing and the two
  thresholds, decide between OK, WARNING and CRITICAL.

  Every definition that walks a sequence recurses on its LAST element, in the
  order the check's loops visit them, so that one more loop iteration is one
  more unfolding.
 */
module QueueActivity {
  import opened Wrappers

  /** One queue of the broker's listing: its name and the two averaged rates of
      its backing-queue status, either of which the broker may leave out. */
  datatype QueueRecord = QueueRecord(name: string, ingress: Option<real>, egress: Option<real>)

  /** One entry of the display list: a matched queue and the rates read from it,
      an absent rate already read as 0. */
  datatype Entry = Entry(name: string, ingress: real, egress: real)

  /** A message of the warning or critical list: a requested queue the listing
      lacks, or the whole display list recorded by the threshold test. */
  datatype Message = NotAvailable(queue: string) | Listing(entries: seq<Entry>)

  /** The two thresholds, compared against the summed rates. */
  datatype Thresholds = Thresholds(warn: real, critical: real)

  /** The thresholds used when the operator gives none. */
  const DefaultThresholds := Thresholds(250.0, 500.0)

  /** The outcome of one run; a non-OK verdict carries the list it reports. */
  datatype Verdict = Ok | Warning(messages: seq<Message>) | Critical(messages: seq<Message>)

  /** The two lists the check fills before it picks a verdict. */
  datatype Lists = Lists(crit: seq<Message>, warn: seq<Message>)

  /** A rate as the check reads it: an absent rate counts as 0. */
  function Rate(r: Option<real>): (x: real)
    ensures r.None? ==> x == 0.0
    ensures r.Some? ==> x == r.value
  {
    r.GetOr(0.0)
  }

  /** The display entry for one matched record. */
  function EntryOf(rec: QueueRecord): Entry {
    Entry(rec.name, Rate(rec.ingress), Rate(rec.egress))
  }

  /** The names of the listing, in listing order. */
  function Names(records: seq<QueueRecord>): (r: seq<string>)
    ensures |r| == |records|
    ensures forall j :: 0 <= j < |records| ==> r[j] == records[j].name
  {
    seq(|records|, j requires 0 <= j < |records| => records[j].name)
  }

  /** Some record of the listing carries the name `q`. */
  function Listed(records: seq<QueueRecord>, q: string): (b: bool)
    ensures b <==> exists j :: 0 <= j < |records| && records[j].name == q
  {
    q in Names(records)
  }

  /** The display entries of the records named `q`, in listing order: what the
      inner loop over the listing appends for one requested name. */
  function Matching(records: seq<QueueRecord>, q: string): (r: seq<Entry>)
    ensures |r| <= |records|
    ensures forall k :: 0 <= k < |r| ==> r[k].name == q
  {
    if records == [] then []
    else
      var n := |records| - 1;
      var prefix := Matching(records[..n], q);
      if records[n].name == q then prefix + [EntryOf(records[n])] else prefix
  }

  /** A name yields no entries exactly when the listing lacks it. */
  lemma {:induction false} MatchingEmptyIffUnlisted(records: seq<QueueRecord>, q: string)
    ensures Matching(records, q) == [] <==> !Listed(records, q)
    decreases |records|
  {
    if records != [] {
      var n := |records| - 1;
      MatchingEmptyIffUnlisted(records[..n], q);
      assert Names(records) == Names(records[..n]) + [records[n].name];
    }
  }

  /** Extending the listing by one record extends the matches by that record's
      entry exactly when it carries the name. */
  lemma MatchingSnoc(records: seq<QueueRecord>, j: nat, q: string)
    requires j < |records|
    ensures Matching(records[..j + 1], q)
            == Matching(records[..j], q) + (if records[j].name == q then [EntryOf(records[j])] else [])
  {
    assert records[..j + 1][..j] == records[..j];
  }

  /** The display list for the requested names: the matching entries of each
      name, names taken in request order. */
  function Shown(requested: seq<string>, records: seq<QueueRecord>): (r: seq<Entry>)
    ensures forall k :: 0 <= k < |r| ==> r[k].name in requested
    ensures requested == [] ==> r == []
  {
    if requested == [] then []
    else
      var n := |requested| - 1;
      var prefix := Shown(requested[..n], records);
      var added := Matching(records, requested[n]);
      assert forall k :: 0 <= k < |prefix| ==> prefix[k].name in requested by {
        forall k | 0 <= k < |prefix| ensures prefix[k].name in requested {
          assert prefix[k].name in requested[..n];
        }
      }
      prefix + added
  }

  /** One `NotAvailable` message per requested name the listing lacks, in
      request order. */
  function Missing(requested: seq<string>, records: seq<QueueRecord>): (r: seq<Message>)
    ensures |r| <= |requested|
    ensures forall k :: 0 <= k < |r| ==> r[k].NotAvailable?
  {
    if requested == [] then []
    else
      var n := |requested| - 1;
      var prefix := Missing(requested[..n], records);
      if Listed(records, requested[n]) then prefix else prefix + [NotAvailable(requested[n])]
  }

  /** Sum of the ingress rates of a display list. */
  function SumIn(entries: seq<Entry>): real {
    if entries == [] then 0.0
    else SumIn(entries[..|entries| - 1]) + entries[|entries| - 1].ingress
  }

  /** Sum of the egress rates of a display list. */
  function SumOut(entries: seq<Entry>): real {
    if entries == [] then 0.0
    else SumOut(entries[..|entries| - 1]) + entries[|entries| - 1].egress
  }

  /** Appending one entry adds its rates to the sums. */
  lemma SumSnoc(entries: seq<Entry>, e: Entry)
    ensures SumIn(entries + [e]) == SumIn(entries) + e.ingress
    ensures SumOut(entries + [e]) == SumOut(entries) + e.egress
  {
    assert (entries + [e])[..|entries|] == entries;
  }

  /** Ingress of every record named `q`, an absent rate counting as 0. */
  function IngressOf(records: seq<QueueRecord>, q: string): real {
    if records == [] then 0.0
    else
      var n := |records| - 1;
      IngressOf(records[..n], q) + (if records[n].name == q then Rate(records[n].ingress) else 0.0)
  }

  /** Egress of every record named `q`, an absent rate counting as 0. */
  function EgressOf(records: seq<QueueRecord>, q: string): real {
    if records == [] then 0.0
    else
      var n := |records| - 1;
      EgressOf(records[..n], q) + (if records[n].name == q then Rate(records[n].egress) else 0.0)
  }

  /** `IngressOf` summed over the requested names, each counted as often as it
      is requested. */
  function RequestedIngress(requested: seq<string>, records: seq<QueueRecord>): real {
    if requested == [] then 0.0
    else
      var n := |requested| - 1;
      RequestedIngress(requested[..n], records) + IngressOf(records, requested[n])
  }

  /** `EgressOf` summed over the requested names, each counted as often as it
      is requested. */
  function RequestedEgress(requested: seq<string>, records: seq<QueueRecord>): real {
    if requested == [] then 0.0
    else
      var n := |requested| - 1;
      RequestedEgress(requested[..n], records) + EgressOf(records, requested[n])
  }

  /** The rate sums of a display list split over concatenation. */
  lemma {:induction false} SumAppend(a: seq<Entry>, b: seq<Entry>)
    ensures SumIn(a + b) == SumIn(a) + SumIn(b)
    ensures SumOut(a + b) == SumOut(a) + SumOut(b)
    decreases |b|
  {
    if b != [] {
      var n := |b| - 1;
      assert (a + b)[..|a + b| - 1] == a + b[..n];
      SumAppend(a, b[..n]);
    } else {
      assert a + b == a;
    }
  }

  /** The entries matched for one name sum to that name's rates in the listing. */
  lemma {:induction false} MatchingSums(records: seq<QueueRecord>, q: string)
    ensures SumIn(Matching(records, q)) == IngressOf(records, q)
    ensures SumOut(Matching(records, q)) == EgressOf(records, q)
    decreases |records|
  {
    if records != [] {
      var n := |records| - 1;
      MatchingSums(records[..n], q);
      if records[n].name == q {
        var prefix := Matching(records[..n], q);
        var grown := prefix + [EntryOf(records[n])];
        assert grown[..|grown| - 1] == prefix;
      }
    }
  }

  /** The sums of the display list equal, for each direction, the sum over the
      requested names (with multiplicity) of the rates of every record carrying
      that name, an absent rate counting as 0. */
  lemma {:induction false} ShownSums(requested: seq<string>, records: seq<QueueRecord>)
    ensures SumIn(Shown(requested, records)) == RequestedIngress(requested, records)
    ensures SumOut(Shown(requested, records)) == RequestedEgress(requested, records)
    decreases |requested|
  {
    if requested != [] {
      var n := |requested| - 1;
      ShownSums(requested[..n], records);
      SumAppend(Shown(requested[..n], records), Matching(records, requested[n]));
      MatchingSums(records, requested[n]);
    }
  }

  /** The total ingress the check accumulates: over the requested names, with
      multiplicity, the ingress of every record carrying that name, an absent
      rate counting as 0. */
  function TotalIn(requested: seq<string>, records: seq<QueueRecord>): (r: real)
    ensures r == RequestedIngress(requested, records)
  {
    ShownSums(requested, records);
    SumIn(Shown(requested, records))
  }

  /** The total egress the check accumulates: over the requested names, with
      multiplicity, the egress of every record carrying that name, an absent
      rate counting as 0. */
  function TotalOut(requested: seq<string>, records: seq<QueueRecord>): (r: real)
    ensures r == RequestedEgress(requested, records)
  {
    ShownSums(requested, records);
    SumOut(Shown(requested, records))
  }

  /** The threshold test: one of the two totals is at or below `bound`, that
      is, the smaller total is. */
  function Low(totalIn: real, totalOut: real, bound: real): (b: bool)
    ensures b <==> (if totalIn <= totalOut then totalIn else totalOut) <= bound
  {
    totalIn <= bound || totalOut <= bound
  }

  /** The threshold step: when traffic is at or below the warning threshold,
      the display list is recorded once, on the critical list when traffic is
      also at or below the critical threshold and on the warning list otherwise. */
  function Classify(totalIn: real, totalOut: real, th: Thresholds, missing: seq<Message>,
                    shown: seq<Entry>): (l: Lists)
    ensures |l.crit| + |l.warn| == |missing| + (if Low(totalIn, totalOut, th.warn) then 1 else 0)
    ensures l.crit != [] <==> Low(totalIn, totalOut, th.warn) && Low(totalIn, totalOut, th.critical)
    ensures l.crit == [] || l.crit == [Listing(shown)]
    ensures l.warn[..|missing|] == missing
    ensures |l.warn| > |missing| ==> l.warn[|missing|..] == [Listing(shown)]
  {
    if Low(totalIn, totalOut, th.warn) then
      if Low(totalIn, totalOut, th.critical) then Lists([Listing(shown)], missing)
      else Lists([], missing + [Listing(shown)])
    else Lists([], missing)
  }

  /** The verdict precedence: CRITICAL over WARNING over OK. */
  function Decide(l: Lists): (v: Verdict)
    ensures v.Ok? <==> l.crit == [] && l.warn == []
    ensures l.crit != [] ==> v == Critical(l.crit)
    ensures l.crit == [] && l.warn != [] ==> v == Warning(l.warn)
    ensures v.Warning? ==> v.messages == l.warn != []
  {
    if l.crit == [] && l.warn == [] then Ok
    else if l.crit != [] then Critical(l.crit)
    else Warning(l.warn)
  }

  /** One run of the check on a queue listing already fetched. */
  function Evaluate(requested: seq<string>, records: seq<QueueRecord>, th: Thresholds): (v: Verdict)
    ensures
      var ti, to := TotalIn(requested, records), TotalOut(requested, records);
      && (v.Ok? <==> Missing(requested, records) == [] && !Low(ti, to, th.warn))
      && (v.Critical? <==> Low(ti, to, th.warn) && Low(ti, to, th.critical))
      && (v.Critical? ==> v.messages == [Listing(Shown(requested, records))])
      && (v.Warning? ==> v.messages == Missing(requested, records)
                                       + (if Low(ti, to, th.warn) then [Listing(Shown(requested, records))] else []))
  {
    var shown := Shown(requested, records);
    var missing := Missing(requested, records);
    var l := Classify(SumIn(shown), SumOut(shown), th, missing, shown);
    Decide(l)
  }
}

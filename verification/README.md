# RabbitMQ queue-activity check: the evaluation rule

This project models the decision made by the Sensu check
`check-rabbitmq-queue-activity` (class `CheckRabbitMQMessages`, method
`run`). Once the broker's management API has returned its queue listing, the
check works in four steps:

1. For every requested queue name the listing lacks, it records
   `Queue <name> not available` on the warning list. That name then adds
   nothing else.
2. For every requested name, taken with multiplicity, and every listing record
   carrying that name, it adds the record's averaged ingress and egress rates to
   two running totals. An absent rate counts as 0. It also appends a
   display entry `<name>: <in>/<out>`.
3. If either total is at or below the warning threshold, it records the joined
   display list exactly once. The list goes on the critical list if either
   total is also at or below the critical threshold, and on the warning list
   otherwise. The check fires on *low* traffic, and equality counts.
4. The verdict is OK when both lists are empty. It is CRITICAL (reporting only
   the critical list) when the critical list is non-empty. Otherwise it is
   WARNING (reporting the warning list).

Files:

- `wrappers.dfy`: module `Wrappers`, the `Option` type for rate fields the
  broker may leave out.
- `queue_activity.dfy`: module `QueueActivity`. Its data model is `QueueRecord`,
  `Entry`, `Message`, `Thresholds` and `Verdict`, with the defaults 250 and
  500. `Evaluate` is the rule as a pure function, built from `Matching`,
  `Shown`, `Missing`, `Classify` and `Decide`. The totals are tied to reference
  sums stated on the listing itself (`IngressOf`, `RequestedIngress`, …).
- `queue_activity_run.dfy`: module `QueueActivityRun`. `Run` follows the
  source's loops: an outer pass over the requested names, an inner pass over the
  listing, and running totals. It is proved equal to `Evaluate` on every input.
- `queue_activity_properties.dfy`: module `QueueActivityProperties`. It holds
  the counting references `CountNamed` and `PairCount`, and lemmas on how names
  are matched, on the shape and order of the display list, on the threshold
  step and on worked cases.

Representation choices:

- Rates and thresholds are `real`. Only addition and `<=` are applied to
  them.
- A display entry is the triple (name, ingress, egress).
- A message is either `NotAvailable(name)` or `Listing(entries)`, the joined
  display list.
- A verdict carries the list it would print.

All of these are pure functions of their inputs, so re-evaluating the same
inputs always gives the same verdict.

When no requested name is in the listing, both totals stay 0 and the display
list is empty. The verdict is then CRITICAL exactly when neither threshold is
negative. With a critical threshold below 0 it is WARNING, and the empty display
list joins the `NotAvailable` messages. With a warning threshold below 0 the
threshold step is skipped. The verdict is then WARNING with the `NotAvailable`
messages, or OK when no name was requested at all (`AllMissingIsCritical`).

## Model

| member | source | states |
|---|---|---|
| QueueActivity.Rate | bin/check-rabbitmq-queue-activity.rb:109-112 | an absent rate reads as 0.0, a present one as itself |
| QueueActivity.Names | bin/check-rabbitmq-queue-activity.rb:102 | the names of the listing, one per record, in listing order |
| QueueActivity.Listed | bin/check-rabbitmq-queue-activity.rb:102 | the `include?` test on the listing's names holds exactly when some record carries the requested name |
| QueueActivity.Shown | bin/check-rabbitmq-queue-activity.rb:101-116 | every entry of the display list carries a requested name, and an empty request gives an empty display list |
| QueueActivity.Low | bin/check-rabbitmq-queue-activity.rb:118-119 | the `<=` test on either total holds exactly when the smaller of the two totals is at or below the bound, equality included |
| QueueActivity.Matching | bin/check-rabbitmq-queue-activity.rb:107-116 | the entries appended for one requested name all carry that name and are at most as many as the records |
| QueueActivity.MatchingEmptyIffUnlisted | bin/check-rabbitmq-queue-activity.rb:101-116 | a requested name yields no display entries exactly when the listing's names do not include it, so the names the inner loop is skipped for are exactly those with no matches |
| QueueActivity.Missing | bin/check-rabbitmq-queue-activity.rb:101-105 | the names the listing lacks produce only `NotAvailable` messages, at most one per requested name |
| QueueActivity.Classify | bin/check-rabbitmq-queue-activity.rb:118-124 | the threshold step adds one message exactly when a total is at or below the warning threshold; the critical list is non-empty exactly when a total is also at or below the critical threshold, and then holds only the display list; the warning list keeps the earlier messages in front, and the display list is the only thing it can gain |
| QueueActivity.Decide | bin/check-rabbitmq-queue-activity.rb:125-131 | OK exactly when both lists are empty; CRITICAL with the critical list whenever that list is non-empty, regardless of warnings; otherwise WARNING with the non-empty warning list |
| QueueActivity.Evaluate | bin/check-rabbitmq-queue-activity.rb:93-131 | the verdict in terms of the inputs: OK exactly when every requested name is present and both totals exceed the warning threshold; CRITICAL exactly when a total is at or below both thresholds, reporting only the display list; WARNING otherwise, reporting the missing-name messages followed by the display list if traffic was at or below the warning threshold |
| QueueActivityRun.AddMatches | bin/check-rabbitmq-queue-activity.rb:107-116 | the inner loop over the listing appends exactly the entries matched for the name, in listing order, and keeps the running totals equal to the sums of the display list |
| QueueActivityRun.Report | bin/check-rabbitmq-queue-activity.rb:118-131 | the nested threshold test and the precedence chain give the same verdict as the threshold step followed by the verdict rule |
| QueueActivityRun.Run | bin/check-rabbitmq-queue-activity.rb:93-131 | the check's loops, with their running totals and lists, give the verdict of the functional rule on every input |
| QueueActivity.SumAppend | bin/check-rabbitmq-queue-activity.rb:113-114 | the accumulated sums split over a concatenation of display lists |
| QueueActivity.MatchingSums | bin/check-rabbitmq-queue-activity.rb:107-114 | the entries matched for one name sum to the rates of every record carrying that name, an absent rate counting as 0 |
| QueueActivity.ShownSums | bin/check-rabbitmq-queue-activity.rb:97-114 | the sums of the display list equal, for each direction, the sum over the requested names (with multiplicity) of the rates of every record carrying that name, an absent rate counting as 0 |
| QueueActivity.TotalIn | bin/check-rabbitmq-queue-activity.rb:97-114 | the total ingress the check accumulates (from 0.0, adding each matched record's rate) equals the sum over the requested names, with multiplicity, of the ingress of every record carrying that name, an absent rate counting as 0 |
| QueueActivity.TotalOut | bin/check-rabbitmq-queue-activity.rb:97-114 | the same for the total egress |
| QueueActivityProperties.DuplicateCountsTwice | bin/check-rabbitmq-queue-activity.rb:101-114 | a name requested twice contributes its records' rates twice to each total |
| QueueActivityProperties.MatchingAppend | bin/check-rabbitmq-queue-activity.rb:107-116 | matching over a listing split in two gives the matches of the first part followed by those of the second |
| QueueActivityProperties.ShownAppend | bin/check-rabbitmq-queue-activity.rb:101-116 | the display list of a request split in two is the display list of the first part followed by that of the second |
| QueueActivityProperties.SingletonContributions | bin/check-rabbitmq-queue-activity.rb:101-116 | one requested name contributes exactly its matches, and one record contributes its own entry exactly when it carries the name; with the two splitting lemmas this orders the display list by request order first, then listing order |
| QueueActivityProperties.MatchingMembership | bin/check-rabbitmq-queue-activity.rb:107-115 | an entry is matched for a name exactly when some record carrying that name yields it |
| QueueActivityProperties.ShownMembership | bin/check-rabbitmq-queue-activity.rb:101-116 | an entry is on the display list exactly when some requested name and some record carrying that name yield it |
| QueueActivityProperties.MatchingLength | bin/check-rabbitmq-queue-activity.rb:107-116 | the entries matched for one name are exactly as many as the records carrying it |
| QueueActivityProperties.ShownLength | bin/check-rabbitmq-queue-activity.rb:101-116 | the display list has exactly one entry per (requested name, matching record) pair |
| QueueActivityProperties.MissingAppend | bin/check-rabbitmq-queue-activity.rb:101-105 | the missing-name messages of a request split in two are those of each part, in order |
| QueueActivityProperties.MissingNameAddsOnlyItsMessage | bin/check-rabbitmq-queue-activity.rb:101-105 | requesting a name the listing lacks adds exactly one `NotAvailable` message in its place, and changes neither the display list nor either total |
| QueueActivityProperties.MissingMembership | bin/check-rabbitmq-queue-activity.rb:101-105 | `NotAvailable(q)` is reported exactly when `q` is requested and absent from the listing |
| QueueActivityProperties.NoneMissingIffAllListed | bin/check-rabbitmq-queue-activity.rb:101-105 | no missing-name message is recorded exactly when every requested name is present in the listing |
| QueueActivityProperties.MissingNameIsNeverOk | bin/check-rabbitmq-queue-activity.rb:101-105 | a requested name absent from the listing rules out OK, whatever the thresholds |
| QueueActivityProperties.AllMissingIsCritical | bin/check-rabbitmq-queue-activity.rb:97-131 | with no requested name present, the display list is empty and both totals stay 0; the verdict is then CRITICAL (reporting only the empty display list) exactly when neither threshold is negative, WARNING with the missing-name messages and the empty display list when only the critical threshold is negative, and, when the warning threshold is negative, WARNING with the missing-name messages or OK for an empty request |
| QueueActivityProperties.ThresholdStep | bin/check-rabbitmq-queue-activity.rb:118-124 | the display list is recorded exactly when a total is at or below the warning threshold, on the critical list exactly when a total is also at or below the critical threshold, and at most one message is added |
| QueueActivityProperties.WarnNotAboveCriticalNeverWarnsOnTraffic | bin/check-rabbitmq-queue-activity.rb:118-124 | when the warning threshold is at or below the critical one (the defaults 250 and 500 are), low traffic always gives CRITICAL, and WARNING can report only missing names |
| QueueActivityProperties.EqualityTriggers | bin/check-rabbitmq-queue-activity.rb:118-119 | a total exactly equal to the warning threshold takes the verdict off OK, and makes it CRITICAL when the warning threshold is at or below the critical one |
| QueueActivityProperties.TwoQueuesShown | bin/check-rabbitmq-queue-activity.rb:107-116 | two requested names, each carried by one record, give their two entries in request order and the sums of their rates |
| QueueActivityProperties.LowTrafficIsCritical | bin/check-rabbitmq-queue-activity.rb:118-120 | queues a (100/50) and b (80/40) under the default thresholds give CRITICAL with both entries, a first |
| QueueActivityProperties.HighTrafficIsOk | bin/check-rabbitmq-queue-activity.rb:118-126 | queues a and b at 300/300 each under the default thresholds give OK |
| QueueActivityProperties.OneListedOneMissing | bin/check-rabbitmq-queue-activity.rb:101-116 | a listed name followed by an unlisted one gives the listed record's entry, its rates as totals, and one `NotAvailable` message for the other |
| QueueActivityProperties.MissingQueueWarns | bin/check-rabbitmq-queue-activity.rb:101-105 | a requested queue c absent from a busy listing gives WARNING reporting only that c is not available |

## Left out

- Connecting to the management API and fetching the queue listing
  (bin/check-rabbitmq-queue-activity.rb:78-91, 100). This is network I/O
  through the CarrotTop client, which is not part of this model. The listing is
  an input. So the model has no error path for a failed fetch. The source's
  `rescue` covers only the client's construction, and the fetch on line 100 has
  no handler at all.
- A matched record without a backing-queue status object. Lines 109 and 111
  index `queue['backing_queue_status']`, and when that object is absent Ruby
  raises `NoMethodError` and the check ends without a verdict. The model's
  record always carries the status, so only the individual rates can be
  absent. An error outcome for this crash is not modelled.
- Option declarations, defaults machinery and parsing
  (bin/check-rabbitmq-queue-activity.rb:24-76), including how `split(',')`
  splits the queue argument. The requested names are given as a sequence and
  the thresholds as numbers. Only the default thresholds 250 and 500 are kept
  (`DefaultThresholds`).
- The exit helpers `ok`, `warning` and `critical` and exact message rendering:
  Ruby's float `to_s`, `join(", ")` and `Array#inspect`. Messages are kept
  abstract, and a verdict carries the list it would print.
- Floating-point rounding of the sums. Rates are exact reals, so a sum here
  can differ from the IEEE double the source computes when rates are not
  exactly representable.

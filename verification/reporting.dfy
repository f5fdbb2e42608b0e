/**
 * What a run reports to its caller through the three callbacks: log lines,
 * progress and the single final result, kept as one trace of events in the
 * order the callbacks are invoked.
 */
module Reporting {
  import opened Errors
  import opened Sequences

  /** The progress fraction `num / den`, kept exact instead of as a float. */
  datatype Fraction = Ratio(num: nat, den: nat)

  /** The messages passed to the log callback. */
  datatype LogLine =
    | ReadingTable
    | FoundNames(count: nat)
    | Searching
    | Totals(tifCount: nat, matchCount: nat)
    | CopiedToRoot(attempt: nat, total: nat, fileName: string)
    | CopiedTo(attempt: nat, total: nat, fileName: string, relativeDir: string)
    | CopyError(fileName: string)
    | Completed
    | Fatal(error: Error)

  /** What the finished callback receives: the number of files copied and
      the number of .tif/.tiff files found, or (None, None) after a fatal
      error. */
  datatype RunResult = Done(copied: nat, totalTif: nat) | Failed

  datatype Event =
    | Log(line: LogLine)
    | Progress(fraction: Fraction, copied: nat, total: nat)
    | Finished(result: RunResult)

  /** The progress reports of a trace, in order. */
  function Progresses(events: seq<Event>): seq<Event> {
    Filter(events, (e: Event) => e.Progress?)
  }

  /** The final results reported in a trace, in order. */
  function Finishes(events: seq<Event>): seq<Event> {
    Filter(events, (e: Event) => e.Finished?)
  }

  /** The trace reports a result exactly once, as its very last event. */
  predicate FinishesOnce(events: seq<Event>) {
    && events != []
    && events[|events| - 1].Finished?
    && forall i :: 0 <= i < |events| - 1 ==> !events[i].Finished?
  }

  /** Appending events distributes over picking out progress reports and results. */
  lemma {:induction false} SelectConcat(a: seq<Event>, b: seq<Event>)
    ensures Progresses(a + b) == Progresses(a) + Progresses(b)
    ensures Finishes(a + b) == Finishes(a) + Finishes(b)
  {
    FilterConcat(a, b, (e: Event) => e.Progress?);
    FilterConcat(a, b, (e: Event) => e.Finished?);
  }

  /** A log line followed by a progress report contributes that report and
      no result. */
  lemma {:induction false} SelectStep(line: LogLine, p: Event)
    requires p.Progress?
    ensures Progresses([Log(line), p]) == [p]
    ensures Finishes([Log(line), p]) == []
  {
    var s := [Log(line), p];
    assert s[..1] == [Log(line)];
    assert [Log(line)][..0] == [];
    assert Filter([Log(line)], (e: Event) => e.Progress?) == [];
    assert Filter([Log(line)], (e: Event) => e.Finished?) == [];
  }

  /** A trace reports no result exactly when none of its events is one. */
  lemma {:induction false} NoFinishes(events: seq<Event>)
    ensures Finishes(events) == [] <==> forall i :: 0 <= i < |events| ==> !events[i].Finished?
  {
    FilterMembers(events, (e: Event) => e.Finished?);
    if forall i :: 0 <= i < |events| ==> !events[i].Finished? {
      FilterNone(events, (e: Event) => e.Finished?);
    } else {
      var i :| 0 <= i < |events| && events[i].Finished?;
      assert events[i] in Finishes(events);
    }
  }
}

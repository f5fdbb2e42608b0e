/**
 * The background job as a whole: load the identifiers, check the folders,
 * scan, and copy, reporting through the log, progress and finished
 * callbacks. Any error before the copy phase ends the run with a fatal log
 * line and a (None, None) result.
 */
module Worker {
  import opened Errors
  import opened Sequences
  import opened IdentifierLoader
  import opened TreeScanner
  import opened Reporting
  import opened CopyExecutor

  /** What opening the identifier table gives: no such file, a file the
      reader rejects, or the parsed table. */
  datatype TableSource = Missing | Unreadable | Parsed(table: Table)

  /** What the job is given: the table, the column selector, whether the
      table has no header row, the images folder (as the walk it yields, or
      None when it does not exist), the output folder, and whether the
      output folder can be created. */
  datatype Inputs = Inputs(
    source: TableSource,
    column: string,
    noHeader: bool,
    images: Option<seq<DirEntry>>,
    output: string,
    outputCreatable: bool)

  /** The file system afterwards and the callbacks made, in order. */
  datatype Outcome = Outcome(fs: FileSystem, events: seq<Event>)

  /** The identifier set, or the error that stops the run while loading it. */
  function Identifiers(source: TableSource, column: string, noHeader: bool): Result<set<string>> {
    match source
    case Missing => Err(TableNotFound)
    case Unreadable => Err(TableUnreadable)
    case Parsed(table) => LoadBaseNames(table, column, noHeader)
  }

  /** The handler for an error outside the copy loop. */
  function FailWith(e: Error): seq<Event> {
    [Log(Fatal(e)), Finished(Failed)]
  }

  /** The run, as a function of its inputs, the file system it starts from
      and what the environment does to each copy attempt. */
  function Run(inp: Inputs, fs0: FileSystem, faults: nat -> Fault): Outcome {
    RunFrom(inp, Identifiers(inp.source, inp.column, inp.noHeader), fs0, faults)
  }

  /** The run once reading the identifier table has given `loaded`. */
  function RunFrom(inp: Inputs, loaded: Result<set<string>>, fs0: FileSystem, faults: nat -> Fault): Outcome {
    var start := [Log(ReadingTable)];
    if loaded.Err? then Outcome(fs0, start + FailWith(loaded.error))
    else
      var found := start + [Log(FoundNames(|loaded.value|))];
      if inp.images.None? then Outcome(fs0, found + FailWith(ImagesFolderNotFound))
      else if !inp.outputCreatable then Outcome(fs0, found + FailWith(OutputNotCreatable))
      else
        var files := Qualifying(inp.images.value);
        var matches := Matching(files, loaded.value);
        var rest := CopyPhase(fs0.(dirs := fs0.dirs + {inp.output}), inp.output, |files|, matches, faults);
        Outcome(rest.fs, found + [Log(Searching), Log(Totals(|files|, |matches|))] + rest.events)
  }

  /** The run after the totals line: with no match a full progress bar and
      a zero result, otherwise the copy loop, the completion line and the
      result. */
  function CopyPhase(fs1: FileSystem, output: string, totalTif: nat, matches: seq<ScannedFile>, faults: nat -> Fault): Outcome {
    if matches == [] then
      Outcome(fs1, [Progress(Ratio(1, 1), 0, 0), Finished(Done(0, totalTif))])
    else
      var st := CopyRun(fs1, output, matches, faults, |matches|);
      Outcome(st.fs, st.events + [Log(Completed), Finished(Done(st.copied, totalTif))])
  }

  /** The worker: performs the run step by step. */
  method FilterAndCopy(inp: Inputs, fs0: FileSystem, faults: nat -> Fault) returns (fs: FileSystem, events: seq<Event>)
    ensures Outcome(fs, events) == Run(inp, fs0, faults)
    ensures FinishesOnce(events)
  {
    var loaded := Identifiers(inp.source, inp.column, inp.noHeader);
    assert Run(inp, fs0, faults) == RunFrom(inp, loaded, fs0, faults);
    RunReportsOnce(inp, loaded, fs0, faults);
    fs, events := Proceed(inp, loaded, fs0, faults);
  }

  /** The worker once reading the table has given `loaded`: it announces
      the read first, then goes on as `RunFrom` describes. */
  method Proceed(inp: Inputs, loaded: Result<set<string>>, fs0: FileSystem, faults: nat -> Fault) returns (fs: FileSystem, events: seq<Event>)
    ensures Outcome(fs, events) == RunFrom(inp, loaded, fs0, faults)
  {
    fs := fs0;
    events := [Log(ReadingTable)];
    if loaded.Err? {
      events := events + FailWith(loaded.error);
      return;
    }
    var names := loaded.value;
    events := events + [Log(FoundNames(|names|))];
    if inp.images.None? {
      events := events + FailWith(ImagesFolderNotFound);
      return;
    }
    if !inp.outputCreatable {
      events := events + FailWith(OutputNotCreatable);
      return;
    }
    fs := fs.(dirs := fs.dirs + {inp.output});
    events := events + [Log(Searching)];
    var matches, totalTif := ScanAndMatch(inp.images.value, names);
    events := events + [Log(Totals(totalTif, |matches|))];
    if |matches| == 0 {
      events := events + [Progress(Ratio(1, 1), 0, 0), Finished(Done(0, totalTif))];
      return;
    }
    var copied, copyEvents;
    fs, copied, copyEvents := CopyMatches(fs, inp.output, matches, faults);
    events := events + copyEvents + [Log(Completed), Finished(Done(copied, totalTif))];
  }

  /** The table was read, the images folder exists and the output folder
      can be created: nothing stops the run before the search. */
  predicate SetupSucceeds(inp: Inputs, loaded: Result<set<string>>) {
    loaded.Ok? && inp.images.Some? && inp.outputCreatable
  }

  /**
   * The phase after the totals line reports its result exactly once, as
   * its last event: (copied, total) with copied bounded by the matches.
   * It only adds directories and files. With no match it is the single
   * progress report (1.0, 0, 0) and the result (0, total).
   */
  lemma {:induction false} CopyPhaseReports(fs1: FileSystem, output: string, totalTif: nat, matches: seq<ScannedFile>, faults: nat -> Fault)
    ensures var o := CopyPhase(fs1, output, totalTif, matches, faults);
      && |o.events| >= 2
      && o.events[|o.events| - 1].Finished?
      && o.events[|o.events| - 1].result.Done?
      && o.events[|o.events| - 1].result.totalTif == totalTif
      && o.events[|o.events| - 1].result.copied <= |matches|
      && (forall i :: 0 <= i < |o.events| - 1 ==> !o.events[i].Finished?)
      && fs1.dirs <= o.fs.dirs && fs1.files.Keys <= o.fs.files.Keys
      && (matches == [] ==> o == Outcome(fs1, [Progress(Ratio(1, 1), 0, 0), Finished(Done(0, totalTif))]))
  {
    if matches != [] {
      var st := CopyRun(fs1, output, matches, faults, |matches|);
      CopyRunProgress(fs1, output, matches, faults, |matches|);
      CopyRunKeeps(fs1, output, matches, faults, |matches|);
      NoFinishes(st.events);
      var o := CopyPhase(fs1, output, totalTif, matches, faults);
      forall i | 0 <= i < |o.events| - 1 ensures !o.events[i].Finished? {
        if i < |st.events| {
          assert o.events[i] == st.events[i];
        }
      }
    }
  }

  /**
   * Progress of a copy phase with matches: one report per match, the i-th
   * after the i-th attempt with copied <= i, never decreasing, the last one
   * carrying the result's count; and when every source exists and is not its own destination that count is
   * the number of attempts that nothing failed.
   */
  lemma {:induction false} CopyPhaseProgress(fs1: FileSystem, output: string, totalTif: nat, matches: seq<ScannedFile>, faults: nat -> Fault)
    requires matches != []
    ensures var o := CopyPhase(fs1, output, totalTif, matches, faults);
      var ps := Progresses(o.events);
      && |o.events| >= 2 && o.events[|o.events| - 1].Finished? && o.events[|o.events| - 1].result.Done?
      && |ps| == |matches|
      && (forall j :: 0 <= j < |ps| ==> ReportsProgress(ps[j], j + 1, |matches|))
      && (forall i, j :: 0 <= i <= j < |ps| ==> ps[i].copied <= ps[j].copied)
      && ps[|ps| - 1].copied == o.events[|o.events| - 1].result.copied
      && (SourcesCopyable(fs1, output, matches) ==>
            o.events[|o.events| - 1].result.copied == NoFaultCount(faults, |matches|))
  {
    var st := CopyRun(fs1, output, matches, faults, |matches|);
    CopyRunProgress(fs1, output, matches, faults, |matches|);
    var tail := [Log(Completed), Finished(Done(st.copied, totalTif))];
    FilterNone(tail, (e: Event) => e.Progress?);
    SelectConcat(st.events, tail);
    if SourcesCopyable(fs1, output, matches) {
      CopyRunCount(fs1, output, matches, faults, |matches|);
    }
  }

  /** Every run starts by announcing the table read and reports its result
      exactly once, as its last callback. */
  lemma {:induction false} RunReportsOnce(inp: Inputs, loaded: Result<set<string>>, fs0: FileSystem, faults: nat -> Fault)
    ensures var events := RunFrom(inp, loaded, fs0, faults).events;
      events[0] == Log(ReadingTable) && FinishesOnce(events)
  {
    if SetupSucceeds(inp, loaded) {
      var files := Qualifying(inp.images.value);
      var matches := Matching(files, loaded.value);
      var rest := CopyPhase(fs0.(dirs := fs0.dirs + {inp.output}), inp.output, |files|, matches, faults);
      CopyPhaseReports(fs0.(dirs := fs0.dirs + {inp.output}), inp.output, |files|, matches, faults);
      var events := RunFrom(inp, loaded, fs0, faults).events;
      forall i | 0 <= i < |events| - 1 ensures !events[i].Finished? {
        if i >= 4 {
          assert events[i] == rest.events[i - 4];
        }
      }
    }
  }

  /**
   * Fatal errors: the run fails exactly when the setup does. It then
   * changes nothing on disk, and its callbacks are the opening line, the
   * identifier count if the table was read, the error's log line and the
   * (None, None) result.
   */
  lemma {:induction false} RunFails(inp: Inputs, loaded: Result<set<string>>, fs0: FileSystem, faults: nat -> Fault)
    ensures var r := RunFrom(inp, loaded, fs0, faults);
      && |r.events| >= 2
      && (r.events[|r.events| - 1] == Finished(Failed) <==> !SetupSucceeds(inp, loaded))
      && (!SetupSucceeds(inp, loaded) ==> r.fs == fs0)
    ensures var r := RunFrom(inp, loaded, fs0, faults);
      && (loaded.Err? ==> r.events == [Log(ReadingTable), Log(Fatal(loaded.error)), Finished(Failed)])
      && (loaded.Ok? && inp.images.None? ==>
            r.events == [Log(ReadingTable), Log(FoundNames(|loaded.value|)), Log(Fatal(ImagesFolderNotFound)), Finished(Failed)])
      && (loaded.Ok? && inp.images.Some? && !inp.outputCreatable ==>
            r.events == [Log(ReadingTable), Log(FoundNames(|loaded.value|)), Log(Fatal(OutputNotCreatable)), Finished(Failed)])
  {
    if SetupSucceeds(inp, loaded) {
      var files := Qualifying(inp.images.value);
      var matches := Matching(files, loaded.value);
      CopyPhaseReports(fs0.(dirs := fs0.dirs + {inp.output}), inp.output, |files|, matches, faults);
    }
  }

  /**
   * A run whose setup succeeds: the output folder exists afterwards, the
   * totals line reports the number of .tif/.tiff files and of matches, and
   * the result is (copied, total .tif files) with copied bounded by the
   * matches. With no match the only progress report is (1.0, 0, 0) and no
   * file is written.
   */
  lemma {:induction false} RunDone(inp: Inputs, loaded: Result<set<string>>, fs0: FileSystem, faults: nat -> Fault)
    requires SetupSucceeds(inp, loaded)
    ensures var r := RunFrom(inp, loaded, fs0, faults);
      var files := Qualifying(inp.images.value);
      var matches := Matching(files, loaded.value);
      && |r.events| >= 6
      && r.events[3] == Log(Totals(|files|, |matches|))
      && r.events[|r.events| - 1].Finished?
      && r.events[|r.events| - 1].result == Done(r.events[|r.events| - 1].result.copied, |files|)
      && r.events[|r.events| - 1].result.copied <= |matches| <= |files|
      && inp.output in r.fs.dirs
      && fs0.dirs <= r.fs.dirs && fs0.files.Keys <= r.fs.files.Keys
      && (matches == [] ==>
            && r.fs.files == fs0.files
            && r.events[4..] == [Progress(Ratio(1, 1), 0, 0), Finished(Done(0, |files|))])
  {
    var files := Qualifying(inp.images.value);
    var matches := Matching(files, loaded.value);
    MatchingMembers(files, loaded.value);
    var fs1 := fs0.(dirs := fs0.dirs + {inp.output});
    CopyPhaseReports(fs1, inp.output, |files|, matches, faults);
    var rest := CopyPhase(fs1, inp.output, |files|, matches, faults);
    assert RunFrom(inp, loaded, fs0, faults).events[4..] == rest.events;
  }

  /**
   * Progress of a run with matches: one report per match, the i-th after
   * the i-th attempt with copied <= i, never decreasing, the last one
   * carrying the final count; and when every source exists and is not its own destination the count is
   * the number of attempts that nothing failed.
   */
  lemma {:induction false} RunProgress(inp: Inputs, loaded: Result<set<string>>, fs0: FileSystem, faults: nat -> Fault)
    requires SetupSucceeds(inp, loaded)
    requires Matching(Qualifying(inp.images.value), loaded.value) != []
    ensures var r := RunFrom(inp, loaded, fs0, faults);
      var matches := Matching(Qualifying(inp.images.value), loaded.value);
      var ps := Progresses(r.events);
      && |r.events| >= 2 && r.events[|r.events| - 1].Finished? && r.events[|r.events| - 1].result.Done?
      && |ps| == |matches|
      && (forall j :: 0 <= j < |ps| ==> ReportsProgress(ps[j], j + 1, |matches|))
      && (forall i, j :: 0 <= i <= j < |ps| ==> ps[i].copied <= ps[j].copied)
      && ps[|ps| - 1].copied == r.events[|r.events| - 1].result.copied
      && (SourcesCopyable(fs0, inp.output, matches) ==>
            r.events[|r.events| - 1].result.copied == NoFaultCount(faults, |matches|))
  {
    var files := Qualifying(inp.images.value);
    var matches := Matching(files, loaded.value);
    var fs1 := fs0.(dirs := fs0.dirs + {inp.output});
    var rest := CopyPhase(fs1, inp.output, |files|, matches, faults);
    CopyPhaseProgress(fs1, inp.output, |files|, matches, faults);
    var head := [Log(ReadingTable), Log(FoundNames(|loaded.value|)), Log(Searching), Log(Totals(|files|, |matches|))];
    var events := RunFrom(inp, loaded, fs0, faults).events;
    assert events == head + rest.events;
    FilterNone(head, (e: Event) => e.Progress?);
    SelectConcat(head, rest.events);
  }
}

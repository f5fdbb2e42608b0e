/**
 * The copy phase: every match is copied to the mirrored place under the
 * output folder, one at a time, and a failure of one file does not stop the
 * others.
 *
 * The file system is a value: a map from path to contents and the set of
 * directories created. What the environment does to each attempt is an
 * input `faults`, indexed by the attempt's position.
 */
module CopyExecutor {
  import opened Strings
  import opened TreeScanner
  import opened Reporting

  /** The directory a file goes to: the output folder itself for files found
      directly in the images folder, otherwise the same relative directory
      under the output folder. */
  function DestDir(output: string, relativeDir: string): string {
    if relativeDir == "." then output else Join(output, relativeDir)
  }

  /** The full destination path of a matched file. */
  function Destination(output: string, f: ScannedFile): string {
    Join(DestDir(output, f.relativeDir), f.fileName)
  }

  type Bytes = seq<bv8>

  datatype FileSystem = FileSystem(files: map<string, Bytes>, dirs: set<string>)

  /** What happens to one attempt: `os.makedirs` raises, `shutil.copy2`
      raises, or neither does. */
  datatype Fault = DirFault | CopyFault | NoFault

  /** The copy goes through: nothing is injected, the source exists (a
      missing source makes `shutil.copy2` raise) and is not the destination
      itself (copying a file onto its own path raises `SameFileError`). */
  predicate Succeeds(output: string, fs: FileSystem, f: ScannedFile, fault: Fault) {
    fault == NoFault && f.src in fs.files && f.src != Destination(output, f)
  }

  /** Every match has a source that exists and is not its own destination. */
  predicate SourcesCopyable(fs: FileSystem, output: string, matches: seq<ScannedFile>) {
    forall j :: 0 <= j < |matches| ==> matches[j].src in fs.files && matches[j].src != Destination(output, matches[j])
  }

  /** One attempt: create the destination directory, then copy the file
      into it, overwriting what was there. */
  function Attempt(fs: FileSystem, output: string, f: ScannedFile, fault: Fault): FileSystem {
    var dir := DestDir(output, f.relativeDir);
    if fault == DirFault then fs
    else if Succeeds(output, fs, f, fault) then FileSystem(fs.files[Join(dir, f.fileName) := fs.files[f.src]], fs.dirs + {dir})
    else fs.(dirs := fs.dirs + {dir})
  }

  /** The log line for the `attempt`-th (from 1) successful copy. */
  function CopiedLine(attempt: nat, total: nat, f: ScannedFile): LogLine {
    if f.relativeDir == "." then CopiedToRoot(attempt, total, f.fileName)
    else CopiedTo(attempt, total, f.fileName, f.relativeDir)
  }

  /** The state after some attempts: the file system, the success counter
      and the events reported so far. */
  datatype CopyState = CopyState(fs: FileSystem, copied: nat, events: seq<Event>)

  /** The state after the first `k` attempts. Each attempt logs its outcome
      and then reports progress. */
  function CopyRun(fs0: FileSystem, output: string, matches: seq<ScannedFile>, faults: nat -> Fault, k: nat): CopyState
    requires k <= |matches|
  {
    if k == 0 then CopyState(fs0, 0, [])
    else
      var st := CopyRun(fs0, output, matches, faults, k - 1);
      var f := matches[k - 1];
      var ok := Succeeds(output, st.fs, f, faults(k - 1));
      var copied := if ok then st.copied + 1 else st.copied;
      var line := if ok then CopiedLine(k, |matches|, f) else CopyError(f.fileName);
      CopyState(Attempt(st.fs, output, f, faults(k - 1)), copied,
                st.events + [Log(line), Progress(Ratio(copied, |matches|), copied, |matches|)])
  }

  /** How many of the first `k` attempts have nothing injected. */
  function NoFaultCount(faults: nat -> Fault, k: nat): nat {
    if k == 0 then 0 else NoFaultCount(faults, k - 1) + (if faults(k - 1) == NoFault then 1 else 0)
  }

  /**
   * The copy loop. It runs every attempt whatever happens to the others,
   * reports progress after each, never counts a failed copy, and reports no
   * final result itself.
   */
  method CopyMatches(fs0: FileSystem, output: string, matches: seq<ScannedFile>, faults: nat -> Fault)
    returns (fs: FileSystem, copied: nat, events: seq<Event>)
    ensures CopyState(fs, copied, events) == CopyRun(fs0, output, matches, faults, |matches|)
    ensures copied <= |matches|
    ensures |Progresses(events)| == |matches| && Finishes(events) == []
    ensures SourcesCopyable(fs0, output, matches) ==> copied == NoFaultCount(faults, |matches|)
  {
    fs, copied, events := fs0, 0, [];
    var i := 0;
    while i < |matches|
      invariant i <= |matches|
      invariant CopyState(fs, copied, events) == CopyRun(fs0, output, matches, faults, i)
    {
      var f := matches[i];
      var dir := if f.relativeDir == "." then output else Join(output, f.relativeDir);
      var dest := Join(dir, f.fileName);
      var ok := false;
      if faults(i) != DirFault {
        fs := fs.(dirs := fs.dirs + {dir});
        if faults(i) == NoFault && f.src in fs.files && f.src != dest {
          fs := fs.(files := fs.files[dest := fs.files[f.src]]);
          copied := copied + 1;
          ok := true;
        }
      }
      var line := if ok then CopiedLine(i + 1, |matches|, f) else CopyError(f.fileName);
      events := events + [Log(line)];
      events := events + [Progress(Ratio(copied, |matches|), copied, |matches|)];
      i := i + 1;
    }
    CopyRunProgress(fs0, output, matches, faults, |matches|);
    if SourcesCopyable(fs0, output, matches) {
      CopyRunCount(fs0, output, matches, faults, |matches|);
    }
  }

  /** A progress report after `attempts` attempts out of `total`. */
  predicate ReportsProgress(e: Event, attempts: nat, total: nat) {
    e.Progress? && e.copied <= attempts && e.total == total && e.fraction == Ratio(e.copied, total)
  }

  /** One attempt appends one log line and then one progress report carrying
      the new count. */
  lemma {:induction false} CopyRunStep(fs0: FileSystem, output: string, matches: seq<ScannedFile>, faults: nat -> Fault, k: nat)
    requires 0 < k <= |matches|
    ensures var prev := CopyRun(fs0, output, matches, faults, k - 1);
      var st := CopyRun(fs0, output, matches, faults, k);
      var p := Progress(Ratio(st.copied, |matches|), st.copied, |matches|);
      && (st.copied == prev.copied || st.copied == prev.copied + 1)
      && |st.events| == |prev.events| + 2
      && Progresses(st.events) == Progresses(prev.events) + [p]
      && Finishes(st.events) == Finishes(prev.events)
  {
    var prev := CopyRun(fs0, output, matches, faults, k - 1);
    var st := CopyRun(fs0, output, matches, faults, k);
    var added := st.events[|prev.events|..];
    assert st.events == prev.events + added;
    var p := added[1];
    assert added == [Log(added[0].line), p] && p.Progress?;
    SelectStep(added[0].line, p);
    SelectConcat(prev.events, added);
  }

  /**
   * Progress: after the i-th attempt exactly one progress report follows,
   * with copied <= i, the counter never decreases, the last report carries
   * the final count, and no final result is reported inside the loop.
   */
  lemma {:induction false} CopyRunProgress(fs0: FileSystem, output: string, matches: seq<ScannedFile>, faults: nat -> Fault, k: nat)
    requires k <= |matches|
    ensures var st := CopyRun(fs0, output, matches, faults, k);
      var ps := Progresses(st.events);
      && st.copied <= k
      && |st.events| == 2 * k
      && Finishes(st.events) == []
      && |ps| == k
      && (forall j :: 0 <= j < k ==> ReportsProgress(ps[j], j + 1, |matches|))
      && (forall i, j :: 0 <= i <= j < k ==> ps[i].copied <= ps[j].copied)
      && (k > 0 ==> ps[k - 1].copied == st.copied)
  {
    if k > 0 {
      CopyRunProgress(fs0, output, matches, faults, k - 1);
      CopyRunStep(fs0, output, matches, faults, k);
      var prev := CopyRun(fs0, output, matches, faults, k - 1);
      var st := CopyRun(fs0, output, matches, faults, k);
      var p := Progress(Ratio(st.copied, |matches|), st.copied, |matches|);
      CountsGrow(Progresses(prev.events), p);
    }
  }

  /** A report whose count is at least the last one keeps the counts
      non-decreasing. */
  lemma {:induction false} CountsGrow(ps: seq<Event>, p: Event)
    requires forall j :: 0 <= j < |ps| ==> ps[j].Progress?
    requires p.Progress?
    requires forall i, j :: 0 <= i <= j < |ps| ==> ps[i].copied <= ps[j].copied
    requires |ps| > 0 ==> ps[|ps| - 1].copied <= p.copied
    ensures forall i, j :: 0 <= i <= j < |ps| + 1 ==> (ps + [p])[i].copied <= (ps + [p])[j].copied
  {
    var qs := ps + [p];
    forall i, j | 0 <= i <= j < |qs| ensures qs[i].copied <= qs[j].copied {
      if j == |ps| && i < |ps| {
        assert qs[i] == ps[i] && ps[i].copied <= ps[|ps| - 1].copied;
      }
    }
  }

  /** Partial failure: when every source exists and none is its own
      destination, the run copies exactly the attempts that nothing was
      injected into. */
  lemma {:induction false} CopyRunCount(fs0: FileSystem, output: string, matches: seq<ScannedFile>, faults: nat -> Fault, k: nat)
    requires k <= |matches|
    requires SourcesCopyable(fs0, output, matches)
    ensures CopyRun(fs0, output, matches, faults, k).copied == NoFaultCount(faults, k)
  {
    if k > 0 {
      CopyRunCount(fs0, output, matches, faults, k - 1);
      CopyRunKeeps(fs0, output, matches, faults, k - 1);
    }
  }

  /** A copy onto its own path fails like any other: the count stays, no
      file changes, and the attempt logs an error. */
  lemma {:induction false} SameFileFails(fs0: FileSystem, output: string, matches: seq<ScannedFile>, faults: nat -> Fault, k: nat)
    requires 0 < k <= |matches|
    requires matches[k - 1].src == Destination(output, matches[k - 1])
    ensures var prev := CopyRun(fs0, output, matches, faults, k - 1);
      var st := CopyRun(fs0, output, matches, faults, k);
      && st.copied == prev.copied
      && st.fs.files == prev.fs.files
      && st.events[|prev.events|] == Log(CopyError(matches[k - 1].fileName))
  {
  }

  /** Files are only ever added or overwritten: every path present before
      the run is still present. */
  lemma {:induction false} CopyRunKeeps(fs0: FileSystem, output: string, matches: seq<ScannedFile>, faults: nat -> Fault, k: nat)
    requires k <= |matches|
    ensures fs0.files.Keys <= CopyRun(fs0, output, matches, faults, k).fs.files.Keys
    ensures fs0.dirs <= CopyRun(fs0, output, matches, faults, k).fs.dirs
  {
    if k > 0 {
      CopyRunKeeps(fs0, output, matches, faults, k - 1);
    }
  }

  /** What one attempt does to the file system: it adds the destination
      directory unless creating it fails, writes the destination if the copy
      goes through, and touches nothing else. */
  lemma {:induction false} AttemptEffect(fs: FileSystem, output: string, f: ScannedFile, fault: Fault)
    ensures var after := Attempt(fs, output, f, fault);
      && after.dirs == fs.dirs + (if fault != DirFault then {DestDir(output, f.relativeDir)} else {})
      && (Succeeds(output, fs, f, fault) ==>
            after.files == fs.files[Destination(output, f) := fs.files[f.src]])
      && (!Succeeds(output, fs, f, fault) ==> after.files == fs.files)
  {
  }

  /** A copy that goes through writes the source's bytes at the destination. */
  lemma {:induction false} AttemptWrites(fs: FileSystem, output: string, f: ScannedFile, fault: Fault)
    requires Succeeds(output, fs, f, fault)
    ensures var after := Attempt(fs, output, f, fault);
      Destination(output, f) in after.files && after.files[Destination(output, f)] == fs.files[f.src]
  {
  }

  /** An attempt leaves every path other than its destination as it was. */
  lemma {:induction false} AttemptLeaves(fs: FileSystem, output: string, f: ScannedFile, fault: Fault, p: string)
    requires p != Destination(output, f)
    ensures var after := Attempt(fs, output, f, fault);
      (p in after.files <==> p in fs.files) && (p in fs.files ==> after.files[p] == fs.files[p])
  {
  }

  /**
   * Footprint: the directories created are exactly those of the attempts
   * whose directory creation did not fail (so a file is only ever copied
   * into a directory that exists), and every path whose contents appear or
   * change is the destination of an attempt that nothing was injected into.
   */
  lemma {:induction false} CopyRunFootprint(fs0: FileSystem, output: string, matches: seq<ScannedFile>, faults: nat -> Fault, k: nat)
    requires k <= |matches|
    ensures var st := CopyRun(fs0, output, matches, faults, k);
      && st.fs.dirs == fs0.dirs + (set j | 0 <= j < k && faults(j) != DirFault :: DestDir(output, matches[j].relativeDir))
      && (forall j :: 0 <= j < k && faults(j) == NoFault ==> DestDir(output, matches[j].relativeDir) in st.fs.dirs)
      && (forall p :: p in st.fs.files && (p !in fs0.files || st.fs.files[p] != fs0.files[p]) ==>
            exists j :: 0 <= j < k && p == Destination(output, matches[j])
                        && Succeeds(output, CopyRun(fs0, output, matches, faults, j).fs, matches[j], faults(j)))
  {
    if k > 0 {
      CopyRunFootprint(fs0, output, matches, faults, k - 1);
      var prev := CopyRun(fs0, output, matches, faults, k - 1);
      var st := CopyRun(fs0, output, matches, faults, k);
      var f := matches[k - 1];
      assert st.fs == Attempt(prev.fs, output, f, faults(k - 1));
      AttemptEffect(prev.fs, output, f, faults(k - 1));
      var before := set j | 0 <= j < k - 1 && faults(j) != DirFault :: DestDir(output, matches[j].relativeDir);
      var after := set j | 0 <= j < k && faults(j) != DirFault :: DestDir(output, matches[j].relativeDir);
      assert after == before + (if faults(k - 1) != DirFault then {DestDir(output, f.relativeDir)} else {});
      forall p | p in st.fs.files && (p !in fs0.files || st.fs.files[p] != fs0.files[p])
        ensures exists j :: 0 <= j < k && p == Destination(output, matches[j])
                            && Succeeds(output, CopyRun(fs0, output, matches, faults, j).fs, matches[j], faults(j))
      {
        if p != Destination(output, f) || !Succeeds(output, prev.fs, f, faults(k - 1)) {
          assert p in prev.fs.files && prev.fs.files[p] == st.fs.files[p];
        } else {
          assert p == Destination(output, matches[k - 1]) && Succeeds(output, prev.fs, matches[k - 1], faults(k - 1));
        }
      }
    }
  }

  /** Sources: when no source is a destination, every source is left as it
      was before the run. */
  lemma {:induction false} CopyRunKeepsSources(fs0: FileSystem, output: string, matches: seq<ScannedFile>, faults: nat -> Fault, k: nat)
    requires k <= |matches|
    requires forall i, j :: 0 <= i < |matches| && 0 <= j < |matches| ==> matches[i].src != Destination(output, matches[j])
    ensures var st := CopyRun(fs0, output, matches, faults, k);
      forall i :: 0 <= i < |matches| && matches[i].src in fs0.files ==>
        matches[i].src in st.fs.files && st.fs.files[matches[i].src] == fs0.files[matches[i].src]
  {
    if k > 0 {
      CopyRunKeepsSources(fs0, output, matches, faults, k - 1);
      var prev := CopyRun(fs0, output, matches, faults, k - 1);
      var st := CopyRun(fs0, output, matches, faults, k);
      var f := matches[k - 1];
      assert st.fs == Attempt(prev.fs, output, f, faults(k - 1));
      forall i | 0 <= i < |matches| && matches[i].src in fs0.files
        ensures matches[i].src in st.fs.files && st.fs.files[matches[i].src] == fs0.files[matches[i].src]
      {
        AttemptLeaves(prev.fs, output, f, faults(k - 1), matches[i].src);
      }
    }
  }

  /** The first k matches whose copy faces no injected fault and whose
      source existed hold, at their destinations in `fs`, the bytes their
      sources held in `fs0`. */
  predicate Delivered(fs0: FileSystem, fs: FileSystem, output: string, matches: seq<ScannedFile>, faults: nat -> Fault, k: nat)
    requires k <= |matches|
  {
    forall j :: 0 <= j < k && faults(j) == NoFault && matches[j].src in fs0.files ==>
      Destination(output, matches[j]) in fs.files &&
      fs.files[Destination(output, matches[j])] == fs0.files[matches[j].src]
  }

  /**
   * Contents: when no two matches share a destination and no source is a
   * destination, every copy that goes through leaves at its destination
   * exactly the bytes its source held before the run.
   */
  lemma {:induction false} CopyRunContents(fs0: FileSystem, output: string, matches: seq<ScannedFile>, faults: nat -> Fault, k: nat)
    requires k <= |matches|
    requires forall i, j :: 0 <= i < j < |matches| ==> Destination(output, matches[i]) != Destination(output, matches[j])
    requires forall i, j :: 0 <= i < |matches| && 0 <= j < |matches| ==> matches[i].src != Destination(output, matches[j])
    ensures Delivered(fs0, CopyRun(fs0, output, matches, faults, k).fs, output, matches, faults, k)
  {
    if k > 0 {
      CopyRunContents(fs0, output, matches, faults, k - 1);
      CopyRunKeepsSources(fs0, output, matches, faults, k - 1);
      var prev := CopyRun(fs0, output, matches, faults, k - 1);
      DeliveredStep(fs0, prev.fs, CopyRun(fs0, output, matches, faults, k).fs, output, matches, faults, k);
    }
  }

  /** One more attempt keeps every earlier delivery in place and delivers
      its own file when the copy goes through. */
  lemma {:induction false} DeliveredStep(fs0: FileSystem, fs: FileSystem, after: FileSystem, output: string, matches: seq<ScannedFile>, faults: nat -> Fault, k: nat)
    requires 0 < k <= |matches|
    requires after == Attempt(fs, output, matches[k - 1], faults(k - 1))
    requires forall j :: 0 <= j < k - 1 ==> Destination(output, matches[j]) != Destination(output, matches[k - 1])
    requires matches[k - 1].src != Destination(output, matches[k - 1])
    requires matches[k - 1].src in fs0.files ==>
               matches[k - 1].src in fs.files && fs.files[matches[k - 1].src] == fs0.files[matches[k - 1].src]
    requires Delivered(fs0, fs, output, matches, faults, k - 1)
    ensures Delivered(fs0, after, output, matches, faults, k)
  {
    var f := matches[k - 1];
    forall j | 0 <= j < k && faults(j) == NoFault && matches[j].src in fs0.files
      ensures Destination(output, matches[j]) in after.files
      ensures after.files[Destination(output, matches[j])] == fs0.files[matches[j].src]
    {
      if j < k - 1 {
        AttemptLeaves(fs, output, f, faults(k - 1), Destination(output, matches[j]));
      } else {
        AttemptWrites(fs, output, f, faults(k - 1));
      }
    }
  }

  /** The destination written out: `<output>/<file>` for the images folder
      itself, `<output>/<relative dir>/<file>` otherwise, where `<output>/`
      is the output folder itself when it already ends in `/`. */
  lemma {:induction false} DestinationMirrors(output: string, f: ScannedFile)
    requires output != []
    requires WellFormed(f)
    ensures var base := if output[|output| - 1] == '/' then output else output + "/";
      && (f.relativeDir == "." ==> Destination(output, f) == base + f.fileName)
      && (f.relativeDir != "." ==> Destination(output, f) == base + f.relativeDir + "/" + f.fileName)
  {
    if f.relativeDir != "." {
      var dir := Join(output, f.relativeDir);
      assert dir[|dir| - 1] == f.relativeDir[|f.relativeDir| - 1];
    }
  }

  /** The shape `os.walk` and `os.path.relpath` give a record: a plain file
      name, and a relative directory that is "." or a relative path with no
      leading or trailing separator. */
  predicate WellFormed(f: ScannedFile) {
    && f.fileName != []
    && (forall k :: 0 <= k < |f.fileName| ==> f.fileName[k] != '/')
    && (f.relativeDir == "." || (f.relativeDir != [] && f.relativeDir[0] != '/' && f.relativeDir[|f.relativeDir| - 1] != '/'))
  }

  /** Mirroring loses nothing: distinct (relative directory, file name)
      pairs never share a destination. */
  lemma {:induction false} DestinationInjective(output: string, f: ScannedFile, g: ScannedFile)
    requires output != []
    requires WellFormed(f) && WellFormed(g)
    requires Destination(output, f) == Destination(output, g)
    ensures f.relativeDir == g.relativeDir && f.fileName == g.fileName
  {
    DestinationMirrors(output, f);
    DestinationMirrors(output, g);
    var base := if output[|output| - 1] == '/' then output else output + "/";
    var pf := if f.relativeDir == "." then base else base + f.relativeDir + "/";
    var pg := if g.relativeDir == "." then base else base + g.relativeDir + "/";
    assert pf + f.fileName == pg + g.fileName;
    SplitAfterLastSlash(pf, f.fileName, pg, g.fileName);
    var xf := pf[|base|..];
    var xg := pg[|base|..];
    assert xf == xg;
    if f.relativeDir != "." && g.relativeDir != "." {
      assert xf == f.relativeDir + "/";
      assert xg == g.relativeDir + "/";
      assert f.relativeDir == xf[..|xf| - 1];
    }
  }

  /** Two ways of writing one path as a directory prefix ending in `/`
      followed by a name without `/` are the same. */
  lemma {:induction false} SplitAfterLastSlash(p: string, n: string, q: string, m: string)
    requires p != [] && p[|p| - 1] == '/' && q != [] && q[|q| - 1] == '/'
    requires forall k :: 0 <= k < |n| ==> n[k] != '/'
    requires forall k :: 0 <= k < |m| ==> m[k] != '/'
    requires p + n == q + m
    ensures p == q && n == m
  {
    var s := p + n;
    assert s[|p| - 1] == '/' && s[|q| - 1] == '/';
    assert forall k :: |p| <= k < |s| ==> s[k] == n[k - |p|];
    assert forall k :: |q| <= k < |s| ==> s[k] == m[k - |q|];
    assert |p| == |q|;
    assert p == s[..|p|] == q;
    assert n == s[|p|..] == m;
  }
}

/**
 * The recursive scan for .tif/.tiff files and the match against the
 * identifier set. The directory walk itself is an input: one entry per
 * directory `os.walk` visits, in its order, with the directory's path
 * relative to the images folder already computed.
 */
module TreeScanner {
  import opened Strings
  import opened Sequences

  /** One directory of the walk: its path, its path relative to the images
      folder ("." for the folder itself) and the names of its files. */
  datatype DirEntry = DirEntry(dirPath: string, relativeDir: string, fileNames: seq<string>)

  /** A qualifying file: full source path, relative directory, file name. */
  datatype ScannedFile = ScannedFile(src: string, relativeDir: string, fileName: string)

  /** The lower-cased name ends in ".tif" or ".tiff". */
  predicate IsTif(fileName: string) {
    var lower := Lower(fileName);
    EndsWith(lower, ".tif") || EndsWith(lower, ".tiff")
  }

  /** The record kept for the `j`-th file of directory `e`. */
  function FileAt(e: DirEntry, j: nat): ScannedFile
    requires j < |e.fileNames|
  {
    ScannedFile(Join(e.dirPath, e.fileNames[j]), e.relativeDir, e.fileNames[j])
  }

  /** The qualifying files among the first `j` files of directory `e`, in order. */
  function QualifyingIn(e: DirEntry, j: nat): seq<ScannedFile>
    requires j <= |e.fileNames|
  {
    if j == 0 then []
    else QualifyingIn(e, j - 1) + (if IsTif(e.fileNames[j - 1]) then [FileAt(e, j - 1)] else [])
  }

  /** The qualifying files of the whole walk, in walk order. */
  function Qualifying(walk: seq<DirEntry>): seq<ScannedFile> {
    if walk == [] then []
    else
      var last := walk[|walk| - 1];
      Qualifying(walk[..|walk| - 1]) + QualifyingIn(last, |last.fileNames|)
  }

  /** The file's case-preserved base name is an identifier. */
  predicate IsMatch(names: set<string>, f: ScannedFile) {
    Stem(f.fileName) in names
  }

  /** The files whose case-preserved base name is an identifier, in order. */
  function Matching(files: seq<ScannedFile>, names: set<string>): seq<ScannedFile> {
    Filter(files, f => IsMatch(names, f))
  }

  /**
   * The scan loop: counts every qualifying file and collects, in walk
   * order, those whose base name is in `names`.
   */
  method ScanAndMatch(walk: seq<DirEntry>, names: set<string>) returns (matches: seq<ScannedFile>, totalTif: nat)
    ensures totalTif == |Qualifying(walk)|
    ensures matches == Matching(Qualifying(walk), names)
    ensures |matches| <= totalTif
  {
    matches, totalTif := [], 0;
    var i := 0;
    while i < |walk|
      invariant 0 <= i <= |walk|
      invariant totalTif == |Qualifying(walk[..i])|
      invariant matches == Matching(Qualifying(walk[..i]), names)
    {
      ghost var seen := Qualifying(walk[..i]);
      matches, totalTif := ScanDirectory(walk[i], names, seen, matches, totalTif);
      QualifyingSnoc(walk, i);
      i := i + 1;
    }
    assert walk[..|walk|] == walk;
    MatchingMembers(Qualifying(walk), names);
  }

  /**
   * The inner loop over one directory's files: each .tif/.tiff name adds
   * one to the total and, when its base name is an identifier, its record
   * to the matches.
   */
  method ScanDirectory(entry: DirEntry, names: set<string>, ghost seen: seq<ScannedFile>,
                       matches0: seq<ScannedFile>, totalTif0: nat)
    returns (matches: seq<ScannedFile>, totalTif: nat)
    requires totalTif0 == |seen| && matches0 == Matching(seen, names)
    ensures totalTif == |seen + QualifyingIn(entry, |entry.fileNames|)|
    ensures matches == Matching(seen + QualifyingIn(entry, |entry.fileNames|), names)
  {
    matches, totalTif := matches0, totalTif0;
    var j := 0;
    assert seen + QualifyingIn(entry, 0) == seen;
    while j < |entry.fileNames|
      invariant 0 <= j <= |entry.fileNames|
      invariant totalTif == |seen + QualifyingIn(entry, j)|
      invariant matches == Matching(seen + QualifyingIn(entry, j), names)
    {
      var fname := entry.fileNames[j];
      ScanStep(entry, j, names, seen);
      if IsTif(fname) {
        totalTif := totalTif + 1;
        var base := Stem(fname);
        var file := ScannedFile(Join(entry.dirPath, fname), entry.relativeDir, fname);
        if base in names {
          matches := matches + [file];
        }
      }
      j := j + 1;
    }
  }

  /** What one more file of a directory adds to the count and to the matches. */
  lemma {:induction false} ScanStep(entry: DirEntry, j: nat, names: set<string>, seen: seq<ScannedFile>)
    requires j < |entry.fileNames|
    ensures var before := seen + QualifyingIn(entry, j);
            var after := seen + QualifyingIn(entry, j + 1);
            var fname := entry.fileNames[j];
            |after| == |before| + (if IsTif(fname) then 1 else 0) &&
            Matching(after, names) ==
              Matching(before, names) + (if IsTif(fname) && Stem(fname) in names then [FileAt(entry, j)] else [])
  {
    var before := seen + QualifyingIn(entry, j);
    if IsTif(entry.fileNames[j]) {
      var file := FileAt(entry, j);
      assert seen + QualifyingIn(entry, j + 1) == before + [file];
      MatchingSnoc(before, file, names);
    } else {
      assert QualifyingIn(entry, j + 1) == QualifyingIn(entry, j);
    }
  }

  /** The walk's qualifying files grow directory by directory. */
  lemma {:induction false} QualifyingSnoc(walk: seq<DirEntry>, i: nat)
    requires i < |walk|
    ensures Qualifying(walk[..i + 1]) == Qualifying(walk[..i]) + QualifyingIn(walk[i], |walk[i].fileNames|)
  {
    assert walk[..i + 1][..i] == walk[..i];
  }

  /** Membership: a file is matched exactly when it qualifies and its
      case-preserved base name is an identifier; so there are never more
      matches than qualifying files. */
  lemma {:induction false} MatchingMembers(files: seq<ScannedFile>, names: set<string>)
    ensures forall f :: f in Matching(files, names) <==> f in files && Stem(f.fileName) in names
    ensures |Matching(files, names)| <= |files|
  {
    FilterMembers(files, f => IsMatch(names, f));
    FilterLength(files, f => IsMatch(names, f));
  }

  /** One more file is matched after the others exactly when its base name
      is an identifier. */
  lemma {:induction false} MatchingSnoc(files: seq<ScannedFile>, f: ScannedFile, names: set<string>)
    ensures Matching(files + [f], names) == Matching(files, names) + (if IsMatch(names, f) then [f] else [])
  {
    assert (files + [f])[..|files|] == files;
  }

  /** Order: matching a concatenation matches each part and keeps them in
      sequence, so matches appear in walk order. */
  lemma {:induction false} MatchingConcat(a: seq<ScannedFile>, b: seq<ScannedFile>, names: set<string>)
    ensures Matching(a + b, names) == Matching(a, names) + Matching(b, names)
  {
    FilterConcat(a, b, f => IsMatch(names, f));
  }

  /** With no identifiers nothing matches; when every base name is an
      identifier everything does. */
  lemma {:induction false} MatchingExtremes(files: seq<ScannedFile>, names: set<string>)
    ensures Matching(files, {}) == []
    ensures (forall i :: 0 <= i < |files| ==> Stem(files[i].fileName) in names) ==> Matching(files, names) == files
  {
    FilterNone(files, f => IsMatch({}, f));
    if forall i :: 0 <= i < |files| ==> Stem(files[i].fileName) in names {
      FilterAll(files, f => IsMatch(names, f));
    }
  }

  /** The qualifying files of a walk are exactly the .tif/.tiff files of its
      directories, each recorded with its joined path and relative directory. */
  lemma {:induction false} QualifyingMembers(walk: seq<DirEntry>)
    ensures forall f :: f in Qualifying(walk) <==>
              exists i, j :: 0 <= i < |walk| && 0 <= j < |walk[i].fileNames| &&
                             IsTif(walk[i].fileNames[j]) && f == FileAt(walk[i], j)
  {
    if walk != [] {
      var prefix := walk[..|walk| - 1];
      var last := walk[|walk| - 1];
      QualifyingMembers(prefix);
      QualifyingInMembers(last, |last.fileNames|);
      forall f | f in Qualifying(walk)
        ensures exists i, j :: 0 <= i < |walk| && 0 <= j < |walk[i].fileNames| &&
                               IsTif(walk[i].fileNames[j]) && f == FileAt(walk[i], j)
      {
        if f in Qualifying(prefix) {
          var i, j :| 0 <= i < |prefix| && 0 <= j < |prefix[i].fileNames| &&
                      IsTif(prefix[i].fileNames[j]) && f == FileAt(prefix[i], j);
          assert prefix[i] == walk[i];
        } else {
          var j :| 0 <= j < |last.fileNames| && IsTif(last.fileNames[j]) && f == FileAt(last, j);
          assert walk[|walk| - 1] == last;
        }
      }
      forall i, j | 0 <= i < |walk| && 0 <= j < |walk[i].fileNames| && IsTif(walk[i].fileNames[j])
        ensures FileAt(walk[i], j) in Qualifying(walk)
      {
        if i < |walk| - 1 {
          assert prefix[i] == walk[i];
        }
      }
    }
  }

  lemma {:induction false} QualifyingInMembers(e: DirEntry, n: nat)
    requires n <= |e.fileNames|
    ensures forall f :: f in QualifyingIn(e, n) <==>
              exists j :: 0 <= j < n && IsTif(e.fileNames[j]) && f == FileAt(e, j)
  {
    if n > 0 {
      QualifyingInMembers(e, n - 1);
    }
  }

  /** How many of `names` are .tif/.tiff names. */
  function TifCount(names: seq<string>): nat {
    if names == [] then 0
    else TifCount(names[..|names| - 1]) + (if IsTif(names[|names| - 1]) then 1 else 0)
  }

  /** How many .tif/.tiff names the directories of a walk hold in total. */
  function WalkTifCount(walk: seq<DirEntry>): nat {
    if walk == [] then 0
    else WalkTifCount(walk[..|walk| - 1]) + TifCount(walk[|walk| - 1].fileNames)
  }

  /** The total counts every .tif/.tiff name of every directory, duplicates
      and non-matching files included. */
  lemma {:induction false} QualifyingCount(walk: seq<DirEntry>)
    ensures |Qualifying(walk)| == WalkTifCount(walk)
  {
    if walk != [] {
      var last := walk[|walk| - 1];
      QualifyingCount(walk[..|walk| - 1]);
      QualifyingInCount(last, |last.fileNames|);
      assert last.fileNames[..|last.fileNames|] == last.fileNames;
    }
  }

  lemma {:induction false} QualifyingInCount(e: DirEntry, n: nat)
    requires n <= |e.fileNames|
    ensures |QualifyingIn(e, n)| == TifCount(e.fileNames[..n])
  {
    if n > 0 {
      QualifyingInCount(e, n - 1);
      assert e.fileNames[..n][..n - 1] == e.fileNames[..n - 1];
    }
  }

  /** The test reads the last four or five characters, whatever their case:
      the name ends in ".tif" or ".tiff" once those are lower-cased. */
  lemma {:induction false} IsTifSuffix(name: string)
    ensures IsTif(name) <==>
              (|name| >= 4 && Lower(name[|name| - 4..]) == ".tif") ||
              (|name| >= 5 && Lower(name[|name| - 5..]) == ".tiff")
  {
    var lower := Lower(name);
    if |name| >= 4 {
      assert lower[|lower| - 4..] == Lower(name[|name| - 4..]);
    }
    if |name| >= 5 {
      assert lower[|lower| - 5..] == Lower(name[|name| - 5..]);
    }
  }

  /** The extension test ignores case. */
  lemma {:induction false} IsTifIgnoresCase(name: string)
    ensures IsTif(Upper(name)) == IsTif(name)
    ensures IsTif(Lower(name)) == IsTif(name)
  {
    assert Lower(Upper(name)) == Lower(name);
    assert Lower(Lower(name)) == Lower(name);
  }

  /** Base names are compared as they are: "IMG1.tif" does not match the
      identifier "img1", while "img1.TIF" does. */
  lemma {:induction false} MatchKeepsCase()
    ensures !IsMatch({"img1"}, ScannedFile("r/IMG1.tif", ".", "IMG1.tif"))
    ensures IsMatch({"img1"}, ScannedFile("r/img1.TIF", ".", "img1.TIF"))
  {
    var upper := "IMG1.tif";
    assert forall k :: 0 <= k < |upper| ==> upper[k] != '/';
    assert RFind(upper, '/') == -1;
    assert upper[4] == '.' && upper[5] != '.' && upper[6] != '.' && upper[7] != '.';
    assert RFind(upper, '.') == 4;
    assert upper[0] != '.';
    assert Stem(upper) == "IMG1";
    var lower := "img1.TIF";
    assert forall k :: 0 <= k < |lower| ==> lower[k] != '/';
    assert RFind(lower, '/') == -1;
    assert lower[4] == '.' && lower[5] != '.' && lower[6] != '.' && lower[7] != '.';
    assert RFind(lower, '.') == 4;
    assert lower[0] != '.';
    assert Stem(lower) == "img1";
  }
}

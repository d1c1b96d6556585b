/**
  The test side of Source/Test/MainTests.cs: the parser of the metadata
  prefix on test file names, the run-and-compare step of TestOneCase, and
  the scenario vectors, each stated as the counter rise a run over the
  scenario's trees gives.
*/
module MainTests {
  import opened Wrappers
  import opened Config
  import opened FsTree
  import opened SyncResults
  import opened Lister
  import opened SyncSpec
  import opened SyncProperties
  import opened Reconciler

  // ---------------------------------------------------------------------------
  // StripMetadataFromFilename

  /** Why StripMetadataFromFilename throws: an empty name (indexing
      fileName[0]), a flag other than `h` or `c`, or no `|` after the
      flags (indexing past the end). */
  datatype StripError = EmptyName | UnknownMetadata(flag: char) | MissingBar

  datatype Stripped = Stripped(name: string, isHidden: bool, isCopy: bool)

  /** The flags from `pos` on, up to the first `|`, as the loop reads them. */
  function FlagsFrom(s: string, pos: nat, hidden: bool, copy: bool): Result<Stripped, StripError>
    decreases |s| - pos
  {
    if pos >= |s| then Err(MissingBar)
    else if s[pos] == '|' then Ok(Stripped(s[pos + 1..], hidden, copy))
    else if s[pos] == 'h' then FlagsFrom(s, pos + 1, true, copy)
    else if s[pos] == 'c' then FlagsFrom(s, pos + 1, hidden, true)
    else Err(UnknownMetadata(s[pos]))
  }

  /** A test file name with its metadata removed: a name not starting with
      `*` is taken as it is; otherwise the flags run up to the first `|`. */
  function Strip(fileName: string): Result<Stripped, StripError> {
    if |fileName| == 0 then Err(EmptyName)
    else if fileName[0] != '*' then Ok(Stripped(fileName, false, false))
    else FlagsFrom(fileName, 1, false, false)
  }

  /** StripMetadataFromFilename: returns the name and the two flags, or
      the reason it throws. */
  method StripMetadataFromFilename(fileName: string) returns (r: Result<string, StripError>, isHidden: bool, isCopy: bool)
    ensures Strip(fileName) == if r.Ok? then Ok(Stripped(r.value, isHidden, isCopy)) else Err(r.error)
  {
    isHidden := false;
    isCopy := false;
    if |fileName| == 0 {
      return Err(EmptyName), isHidden, isCopy;
    }
    if fileName[0] != '*' {
      return Ok(fileName), isHidden, isCopy;
    }

    var pos := 1;
    while pos < |fileName| && fileName[pos] != '|'
      invariant 1 <= pos <= |fileName|
      invariant FlagsFrom(fileName, pos, isHidden, isCopy) == Strip(fileName)
      decreases |fileName| - pos
    {
      var c := fileName[pos];
      if c == 'h' {
        isHidden := true;
      } else if c == 'c' {
        isCopy := true;
      } else {
        return Err(UnknownMetadata(c)), isHidden, isCopy;
      }
      pos := pos + 1;
    }
    if pos == |fileName| {
      return Err(MissingBar), isHidden, isCopy;
    }
    return Ok(fileName[pos + 1..]), isHidden, isCopy;
  }

  /** Flags the parser knows. */
  predicate KnownFlags(flags: string) {
    forall i :: 0 <= i < |flags| ==> flags[i] == 'h' || flags[i] == 'c'
  }

  /** The name a test writes for `name` with the given flags. */
  function Tagged(flags: string, name: string): string {
    "*" + flags + "|" + name
  }

  lemma {:induction false} FlagsFromTagged(pre: string, flags: string, name: string, hidden: bool, copy: bool)
    requires KnownFlags(flags)
    ensures FlagsFrom(pre + flags + "|" + name, |pre|, hidden, copy) ==
              Ok(Stripped(name, hidden || 'h' in flags, copy || 'c' in flags))
    decreases |flags|
  {
    var s := pre + flags + "|" + name;
    if flags == [] {
      assert s == pre + "|" + name;
      assert s[|pre|] == '|' && s[|pre| + 1..] == name;
    } else {
      var f := flags[0];
      assert s[|pre|] == f;
      assert s == (pre + [f]) + flags[1..] + "|" + name;
      assert KnownFlags(flags[1..]);
      FlagsFromTagged(pre + [f], flags[1..], name, hidden || f == 'h', copy || f == 'c');
      assert forall x :: x in flags <==> x == f || x in flags[1..];
    }
  }

  /** A tagged name gives back the name, with each flag set exactly when its
      letter is among the flags. */
  lemma StripTagged(flags: string, name: string)
    requires KnownFlags(flags)
    ensures Strip(Tagged(flags, name)) == Ok(Stripped(name, 'h' in flags, 'c' in flags))
  {
    FlagsFromTagged("*", flags, name, false, false);
  }

  lemma {:induction false} FlagsFromUnknown(pre: string, flags: string, bad: char, rest: string, hidden: bool, copy: bool)
    requires KnownFlags(flags) && bad != 'h' && bad != 'c' && bad != '|'
    ensures FlagsFrom(pre + flags + [bad] + rest, |pre|, hidden, copy) == Err(UnknownMetadata(bad))
    decreases |flags|
  {
    var s := pre + flags + [bad] + rest;
    if flags == [] {
      assert s[|pre|] == bad;
    } else {
      var f := flags[0];
      assert s[|pre|] == f;
      assert s == (pre + [f]) + flags[1..] + [bad] + rest;
      assert KnownFlags(flags[1..]);
      FlagsFromUnknown(pre + [f], flags[1..], bad, rest, hidden || f == 'h', copy || f == 'c');
    }
  }

  /** A flag other than `h` or `c` before the `|` throws, naming that flag. */
  lemma StripUnknown(flags: string, bad: char, rest: string)
    requires KnownFlags(flags) && bad != 'h' && bad != 'c' && bad != '|'
    ensures Strip("*" + flags + [bad] + rest) == Err(UnknownMetadata(bad))
  {
    FlagsFromUnknown("*", flags, bad, rest, false, false);
  }

  lemma {:induction false} FlagsFromUnterminated(pre: string, flags: string, hidden: bool, copy: bool)
    requires KnownFlags(flags)
    ensures FlagsFrom(pre + flags, |pre|, hidden, copy) == Err(MissingBar)
    decreases |flags|
  {
    if flags != [] {
      var f := flags[0];
      assert (pre + flags)[|pre|] == f;
      assert pre + flags == (pre + [f]) + flags[1..];
      assert KnownFlags(flags[1..]);
      FlagsFromUnterminated(pre + [f], flags[1..], hidden || f == 'h', copy || f == 'c');
    }
  }

  /** Known flags with no `|` after them run off the end of the name. */
  lemma StripUnterminated(flags: string)
    requires KnownFlags(flags)
    ensures Strip("*" + flags) == Err(MissingBar)
  {
    FlagsFromUnterminated("*", flags, false, false);
  }

  /** A name that does not start with `*` carries no metadata. */
  lemma StripPlain(name: string)
    requires name != [] && name[0] != '*'
    ensures Strip(name) == Ok(Stripped(name, false, false))
  {
  }

  // ---------------------------------------------------------------------------
  // TestOneCase

  /** The run of TestOneCase: Sync over the trees, with no failing
      operation, into fresh counters. */
  method RunScenario(src: Tree, dest: Option<Tree>, prm: Params) returns (results: Results, synced: Option<Tree>)
    ensures fresh(results)
    ensures results.Value() == Delta(src, dest, prm)
    ensures synced == Some(Synced(src, dest, prm))
  {
    results := new Results();
    var ok;
    ok, synced := Sync(src, dest, prm, {}, results);
    NothingFailsRuns(src, dest, prm, []);
    AddZero(Delta(src, dest, prm));
  }

  /** The assertion of TestOneCase: fills a fresh SyncResults with the
      expected counters and compares. */
  method CompareWithExpected(expected: Counters, results: Results) returns (passed: bool)
    ensures passed <==> results.Value() == expected
  {
    var expectedResults := new Results();
    expectedResults.Set(expected.filesCopied, expected.filesUpToDate, expected.filesDeleted, expected.filesIgnored,
                        expected.directoriesCreated, expected.directoriesDeleted, expected.directoriesIgnored);
    var mismatch;
    passed, mismatch := expectedResults.CompareTo(results);
  }

  /** TestOneCase with no failing operation: runs Sync over the trees and
      compares the counters with the expected ones. With `-d` and no
      delete-exclusion list the test also compares hashes of the filtered
      source and the destination: `mirrored` is that comparison, and it
      always succeeds. */
  method TestOneCase(src: Tree, dest: Option<Tree>, prm: Params, expected: Counters) returns (passed: bool, mirrored: bool)
    ensures passed <==> Delta(src, dest, prm) == expected
    ensures mirrored <==> Mirrors(Synced(src, dest, prm), src, prm)
    ensures prm.deleteFromDest && prm.deleteExcludeFiles.None? && prm.deleteExcludeDirs.None? ==> mirrored
  {
    var results, synced := RunScenario(src, dest, prm);
    passed := CompareWithExpected(expected, results);
    if prm.deleteFromDest && prm.deleteExcludeFiles.None? && prm.deleteExcludeDirs.None? {
      MirrorsFilteredSource(src, dest, prm);
    }
    mirrored := Mirrors(synced.value, src, prm);
  }

  // ---------------------------------------------------------------------------
  // The scenario trees

  const Plain := Attrs(false, false, 0)
  const HiddenAttrs := Attrs(false, true, 0)

  /** A test file written at `now`, the time the test runs; `hidden` for a
      `*h|` name. The test suite gives each file a length drawn from a
      generator seeded by the file's full path; the model fixes one length
      per name instead, which only matters where a destination file is to
      be found up to date. Every scenario tree takes `now`, so the vectors
      below hold whenever the test runs. */
  function Meta(length: nat, now: int, hidden: bool): FileMeta {
    FileMeta(length, now, if hidden then HiddenAttrs else Plain)
  }

  /** `new InputParams()` with IsQuiet set, as every test starts. */
  const Defaults := Params(true, false, false, None, None, None, None, None, None)
  const WithDelete := Defaults.(deleteFromDest := true)

  /** The fixture's set-up before every test: a new InputParams with IsQuiet set. */
  method Initialization() returns (inputParams: InputParams)
    ensures fresh(inputParams) && inputParams.Snapshot() == Defaults
  {
    inputParams := new InputParams();
    inputParams.IsQuiet := true;
  }
  const HidingHidden := Defaults.(excludeHidden := true)

  /** Source directories {foo}; files foo.txt, bar.txt, foo\foo1.txt and
      foo\foo2.txt, the second and the fourth hidden when `hidden`. */
  function Foo(now: int, hidden: bool): Tree {
    Dir(Plain, map["foo1.txt" := Meta(3, now, false), "foo2.txt" := Meta(4, now, hidden)], map[])
  }

  function Source(now: int, hidden: bool): Tree {
    Dir(Plain, map["foo.txt" := Meta(1, now, false), "bar.txt" := Meta(2, now, hidden)], map["foo" := Foo(now, hidden)])
  }

  /** An empty directory that a test created. */
  const Made := Dir(Plain, map[], map[])

  /** Destination directories {foo}. */
  const DestFoo := Dir(Plain, map[], map["foo" := Made])

  /** foo.txt and foo\foo1.txt copied from the source (`*c|`), write time included. */
  function FooCopied(now: int): Tree {
    Dir(Plain, map["foo1.txt" := Meta(3, now, false)], map[])
  }

  function DestCopied(now: int): Tree {
    Dir(Plain, map["foo.txt" := Meta(1, now, false)], map["foo" := FooCopied(now)])
  }

  /** foo.txt and foo\foo1.txt written after the source files. Only the write
      time is modelled as differing: the test suite's lengths come from a
      generator seeded by each file's path, so they may differ as well, and
      either difference makes the file one to copy. */
  function FooDifferent(now: int): Tree {
    Dir(Plain, map["foo1.txt" := Meta(3, now + 1, false)], map[])
  }

  function DestDifferent(now: int): Tree {
    Dir(Plain, map["foo.txt" := Meta(1, now + 1, false)], map["foo" := FooDifferent(now)])
  }

  /** foo\foo3.txt and foo\foo4.txt, which the source does not have. */
  function FooExtra(now: int): Tree {
    Dir(Plain, map["foo3.txt" := Meta(5, now, false), "foo4.txt" := Meta(6, now, false)], map[])
  }

  function DestExtra(now: int): Tree {
    Dir(Plain, map[], map["foo" := FooExtra(now)])
  }

  /** Destination directories {barbar}. */
  const DestBarbar := Dir(Plain, map[], map["barbar" := Made])

  // ---------------------------------------------------------------------------
  // Counting a run level by level

  /** The counters of a run over a directory with no selected
      subdirectory. */
  lemma LeafDelta(src: Tree, dest: Option<Tree>, prm: Params)
    requires SelectedDirs(src, prm) == {}
    ensures var d, ff := Base(dest), SelectedFiles(src, prm);
              Delta(src, dest, prm) ==
                Counters(|ToCopy(ff, d.files)|, |UpToDate(ff, d.files)|, |FilesToDelete(ff, d.files, prm)|,
                         |DroppedFiles(src.files, Some(prm))|, if dest.None? then 1 else 0,
                         |DirsToDelete({}, d.subdirs, prm)|, |DroppedDirs(src.subdirs, Some(prm))|)
  {
    DeltaSplit(src, dest, prm);
  }

  /** The counters of a run over a directory with one selected subdirectory:
      the directory's own counts plus those of the run over that
      subdirectory. */
  lemma OneChildDelta(src: Tree, dest: Option<Tree>, prm: Params, n: string)
    requires SelectedDirs(src, prm) == {n}
    ensures var d, ff := Base(dest), SelectedFiles(src, prm);
            var c, child := Delta(src, dest, prm), Delta(src.subdirs[n], Lookup(d.subdirs, n), prm);
              && c.filesCopied == |ToCopy(ff, d.files)| + child.filesCopied
              && c.filesUpToDate == |UpToDate(ff, d.files)| + child.filesUpToDate
              && c.filesDeleted == |FilesToDelete(ff, d.files, prm)| + child.filesDeleted
              && c.directoriesCreated == (if dest.None? then 1 else 0) + child.directoriesCreated
              && c.directoriesDeleted == |DirsToDelete({n}, d.subdirs, prm)| + child.directoriesDeleted
              && c.filesIgnored == |DroppedFiles(src.files, Some(prm))| + child.filesIgnored
              && c.directoriesIgnored == |DroppedDirs(src.subdirs, Some(prm))| + child.directoriesIgnored
  {
    var f := ChildDeltas(src, Base(dest), prm);
    DeltaSplit(src, dest, prm);
    SingletonSum(f, n);
    assert f(n) == Delta(src.subdirs[n], Lookup(Base(dest).subdirs, n), prm);
  }

  /** A sum over one name is that name's term. */
  lemma SingletonSum(f: string -> Counters, n: string)
    ensures SumCounters({n}, f) == f(n)
  {
    SumCountersRemove({n}, f, n);
    assert {n} - {n} == {};
    AddZeroRight(f(n));
  }

  lemma AddZeroRight(c: Counters)
    ensures Add(c, Zero) == c
  {
  }

  /** The counters of a run put together from two parts, field by field. */
  lemma Compose(c: Counters, local: Counters, child: Counters)
    requires c.filesCopied == local.filesCopied + child.filesCopied
    requires c.filesUpToDate == local.filesUpToDate + child.filesUpToDate
    requires c.filesDeleted == local.filesDeleted + child.filesDeleted
    requires c.filesIgnored == local.filesIgnored + child.filesIgnored
    requires c.directoriesCreated == local.directoriesCreated + child.directoriesCreated
    requires c.directoriesDeleted == local.directoriesDeleted + child.directoriesDeleted
    requires c.directoriesIgnored == local.directoriesIgnored + child.directoriesIgnored
    ensures Add(local, child) == c
  {
  }

  /** `local` holds the counts a run over `src` into `dest` makes at the top
      level, and `fd` is the set of subdirectories it selects. */
  predicate LevelCounts(src: Tree, dest: Option<Tree>, prm: Params, fd: set<string>, local: Counters) {
    var d, ff := Base(dest), SelectedFiles(src, prm);
    && SelectedDirs(src, prm) == fd
    && local == Counters(|ToCopy(ff, d.files)|, |UpToDate(ff, d.files)|, |FilesToDelete(ff, d.files, prm)|,
                         |DroppedFiles(src.files, Some(prm))|, if dest.None? then 1 else 0,
                         |DirsToDelete(fd, d.subdirs, prm)|, |DroppedDirs(src.subdirs, Some(prm))|)
  }

  /** A run over a directory that selects no subdirectory makes only its
      top-level counts. */
  lemma {:induction false} LeafLevel(src: Tree, dest: Option<Tree>, prm: Params, local: Counters)
    requires LevelCounts(src, dest, prm, {}, local)
    ensures Delta(src, dest, prm) == local
  {
    LeafDelta(src, dest, prm);
  }

  /** A run over a directory with one selected subdirectory makes its
      top-level counts plus those of the run over that subdirectory. */
  lemma {:induction false} OneChildLevel(src: Tree, dest: Option<Tree>, prm: Params, n: string, local: Counters)
    requires LevelCounts(src, dest, prm, {n}, local)
    ensures n in src.subdirs
    ensures Delta(src, dest, prm) == Add(local, Delta(src.subdirs[n], Lookup(Base(dest).subdirs, n), prm))
  {
    assert n in SelectedDirs(src, prm);
    OneChildDelta(src, dest, prm, n);
    Compose(Delta(src, dest, prm), local, Delta(src.subdirs[n], Lookup(Base(dest).subdirs, n), prm));
  }

  /** A map of two different names has two keys. */
  lemma PairKeys<T>(a: string, x: T, b: string, y: T)
    requires a != b
    ensures map[a := x, b := y].Keys == {a, b} && |{a, b}| == 2
  {
  }

  /** Without a filtering configuration the listing keeps every entry. */
  lemma Unfiltered(src: Tree, prm: Params)
    requires !prm.AreSourceFilesFiltered()
    ensures SelectedFiles(src, prm) == src.files && SelectedDirs(src, prm) == src.subdirs.Keys
    ensures DroppedFiles(src.files, Some(prm)) == {} && DroppedDirs(src.subdirs, Some(prm)) == {}
  {
  }

  /** Into a directory with no entries every selected file is copied and
      nothing is up to date or deleted. */
  lemma IntoNothing(ff: map<string, FileMeta>, fd: set<string>, prm: Params)
    ensures ToCopy(ff, map[]) == ff.Keys && UpToDate(ff, map[]) == {}
    ensures FilesToDelete(ff, map[], prm) == {} && DirsToDelete(fd, map[], prm) == {}
  {
  }

  // ---------------------------------------------------------------------------
  // Runs over foo

  /** foo into a directory with no entries, or into none: both files are
      copied, and foo is created when it is missing. */
  lemma {:induction false} FooIntoEmpty(dest: Option<Tree>, prm: Params, now: int, hidden: bool)
    requires !prm.AreSourceFilesFiltered()
    requires Base(dest).files == map[] && Base(dest).subdirs == map[]
    ensures Delta(Foo(now, hidden), dest, prm) == Counters(2, 0, 0, 0, if dest.None? then 1 else 0, 0, 0)
  {
    var foo := Foo(now, hidden);
    Unfiltered(foo, prm);
    IntoNothing(foo.files, {}, prm);
    PairKeys("foo1.txt", Meta(3, now, false), "foo2.txt", Meta(4, now, hidden));
    LeafDelta(foo, dest, prm);
  }

  /** The sets of the run of foo into FooCopied, by size. */
  lemma {:induction false} FooCopiedCounts(prm: Params, now: int, hidden: bool)
    requires !prm.AreSourceFilesFiltered()
    ensures var ff, df := SelectedFiles(Foo(now, hidden), prm), FooCopied(now).files;
              && SelectedDirs(Foo(now, hidden), prm) == {}
              && |ToCopy(ff, df)| == 1 && |UpToDate(ff, df)| == 1 && |FilesToDelete(ff, df, prm)| == 0
              && |DroppedFiles(Foo(now, hidden).files, Some(prm))| == 0
              && |DroppedDirs(Foo(now, hidden).subdirs, Some(prm))| == 0
              && |DirsToDelete({}, map[], prm)| == 0
  {
    var foo, df := Foo(now, hidden), FooCopied(now).files;
    Unfiltered(foo, prm);
    assert ToCopy(foo.files, df) == {"foo2.txt"};
    assert UpToDate(foo.files, df) == {"foo1.txt"};
    assert FilesToDelete(foo.files, df, prm) == {};
    IntoNothing(foo.files, {}, prm);
  }

  /** foo into a copy holding foo1.txt: foo2.txt is copied, foo1.txt is up
      to date. */
  lemma {:induction false} FooIntoCopied(prm: Params, now: int, hidden: bool)
    requires !prm.AreSourceFilesFiltered()
    ensures Delta(Foo(now, hidden), Some(FooCopied(now)), prm) == Counters(1, 1, 0, 0, 0, 0, 0)
  {
    FooCopiedCounts(prm, now, hidden);
    LeafDelta(Foo(now, hidden), Some(FooCopied(now)), prm);
  }

  /** foo into a directory whose foo1.txt was written at another time: both
      files are copied. */
  lemma {:induction false} FooIntoDifferent(prm: Params, now: int, hidden: bool)
    requires !prm.AreSourceFilesFiltered()
    ensures Delta(Foo(now, hidden), Some(FooDifferent(now)), prm) == Counters(2, 0, 0, 0, 0, 0, 0)
  {
    var foo, df := Foo(now, hidden), FooDifferent(now).files;
    Unfiltered(foo, prm);
    assert ToCopy(foo.files, df) == {"foo1.txt", "foo2.txt"};
    assert UpToDate(foo.files, df) == {};
    assert FilesToDelete(foo.files, df, prm) == {};
    IntoNothing(foo.files, {}, prm);
    PairKeys("foo1.txt", Meta(3, now, false), "foo2.txt", Meta(4, now, hidden));
    LeafDelta(foo, Some(FooDifferent(now)), prm);
  }

  /** foo into a directory holding only foo3.txt and foo4.txt: both source
      files are copied, and the two others are deleted under `-d`. */
  lemma {:induction false} FooIntoExtra(prm: Params, now: int, hidden: bool)
    requires !prm.AreSourceFilesFiltered() && prm.deleteExcludeFiles.None?
    ensures Delta(Foo(now, hidden), Some(FooExtra(now)), prm) ==
              Counters(2, 0, if prm.deleteFromDest then 2 else 0, 0, 0, 0, 0)
  {
    var foo, df := Foo(now, hidden), FooExtra(now).files;
    Unfiltered(foo, prm);
    assert ToCopy(foo.files, df) == {"foo1.txt", "foo2.txt"};
    assert UpToDate(foo.files, df) == {};
    assert FilesToDelete(foo.files, df, prm) == if prm.deleteFromDest then {"foo3.txt", "foo4.txt"} else {};
    IntoNothing(foo.files, {}, prm);
    PairKeys("foo1.txt", Meta(3, now, false), "foo2.txt", Meta(4, now, hidden));
    PairKeys("foo3.txt", Meta(5, now, false), "foo4.txt", Meta(6, now, false));
    LeafDelta(foo, Some(FooExtra(now)), prm);
  }

  /** The sets of the run of foo with a hidden foo2.txt under ExcludeHidden
      into no directory, by size. */
  lemma {:induction false} FooHidingCounts(now: int)
    ensures var foo := Foo(now, true);
            var ff := SelectedFiles(foo, HidingHidden);
              && SelectedDirs(foo, HidingHidden) == {}
              && |ToCopy(ff, map[])| == 1 && |UpToDate(ff, map[])| == 0 && |FilesToDelete(ff, map[], HidingHidden)| == 0
              && |DroppedFiles(foo.files, Some(HidingHidden))| == 1
              && |DroppedDirs(foo.subdirs, Some(HidingHidden))| == 0
              && |DirsToDelete({}, map[], HidingHidden)| == 0
  {
    var foo := Foo(now, true);
    assert DroppedFiles(foo.files, Some(HidingHidden)) == {"foo2.txt"};
    var ff := SelectedFiles(foo, HidingHidden);
    assert ff == map["foo1.txt" := Meta(3, now, false)];
    assert ff.Keys == {"foo1.txt"};
    assert SelectedDirs(foo, HidingHidden) == {};
    assert DroppedDirs(foo.subdirs, Some(HidingHidden)) == {};
    IntoNothing(ff, {}, HidingHidden);
  }

  /** foo with a hidden foo2.txt, under ExcludeHidden, into no directory:
      foo1.txt is copied, foo2.txt is ignored, foo is created. */
  lemma {:induction false} FooHidingIntoMissing(now: int)
    ensures Delta(Foo(now, true), None, HidingHidden) == Counters(1, 0, 0, 1, 1, 0, 0)
  {
    FooHidingCounts(now);
    assert Base(None).files == map[] && Base(None).subdirs == map[];
    LeafDelta(Foo(now, true), None, HidingHidden);
  }

  // ---------------------------------------------------------------------------
  // Runs over the source

  /** The source into no directory: foo.txt and bar.txt are copied and the
      root is created, then foo is synchronised into nothing. */
  lemma {:induction false} SourceIntoMissing(prm: Params, now: int, hidden: bool)
    requires !prm.AreSourceFilesFiltered()
    ensures Delta(Source(now, hidden), None, prm) ==
              Add(Counters(2, 0, 0, 0, 1, 0, 0), Delta(Foo(now, hidden), None, prm))
  {
    var src := Source(now, hidden);
    Unfiltered(src, prm);
    IntoNothing(src.files, {"foo"}, prm);
    PairKeys("foo.txt", Meta(1, now, false), "bar.txt", Meta(2, now, hidden));
    OneChildLevel(src, None, prm, "foo", Counters(2, 0, 0, 0, 1, 0, 0));
  }

  /** The source into a root holding only the directory foo: foo.txt and
      bar.txt are copied, then foo is synchronised into the one there. */
  lemma {:induction false} SourceIntoFooOnly(dest: Tree, prm: Params, now: int, hidden: bool)
    requires !prm.AreSourceFilesFiltered()
    requires dest.files == map[] && dest.subdirs.Keys == {"foo"}
    ensures Delta(Source(now, hidden), Some(dest), prm) ==
              Add(Counters(2, 0, 0, 0, 0, 0, 0), Delta(Foo(now, hidden), Some(dest.subdirs["foo"]), prm))
  {
    var src := Source(now, hidden);
    Unfiltered(src, prm);
    IntoNothing(src.files, {"foo"}, prm);
    assert DirsToDelete({"foo"}, dest.subdirs, prm) == {};
    PairKeys("foo.txt", Meta(1, now, false), "bar.txt", Meta(2, now, hidden));
    OneChildLevel(src, Some(dest), prm, "foo", Counters(2, 0, 0, 0, 0, 0, 0));
  }

  /** The source into a copy holding foo.txt and foo\foo1.txt: bar.txt is
      copied, foo.txt is up to date, then foo is synchronised. */
  lemma {:induction false} SourceIntoCopied(prm: Params, now: int, hidden: bool)
    requires !prm.AreSourceFilesFiltered()
    ensures Delta(Source(now, hidden), Some(DestCopied(now)), prm) ==
              Add(Counters(1, 1, 0, 0, 0, 0, 0), Delta(Foo(now, hidden), Some(FooCopied(now)), prm))
  {
    var src, d := Source(now, hidden), DestCopied(now);
    Unfiltered(src, prm);
    assert ToCopy(src.files, d.files) == {"bar.txt"};
    assert UpToDate(src.files, d.files) == {"foo.txt"};
    assert FilesToDelete(src.files, d.files, prm) == {};
    assert DirsToDelete({"foo"}, d.subdirs, prm) == {};
    OneChildLevel(src, Some(d), prm, "foo", Counters(1, 1, 0, 0, 0, 0, 0));
  }

  /** The source into a root whose foo.txt and foo\foo1.txt were written at
      another time: foo.txt and bar.txt are copied, then foo is synchronised. */
  lemma {:induction false} SourceIntoDifferent(prm: Params, now: int, hidden: bool)
    requires !prm.AreSourceFilesFiltered()
    ensures Delta(Source(now, hidden), Some(DestDifferent(now)), prm) ==
              Add(Counters(2, 0, 0, 0, 0, 0, 0), Delta(Foo(now, hidden), Some(FooDifferent(now)), prm))
  {
    var src, d := Source(now, hidden), DestDifferent(now);
    Unfiltered(src, prm);
    assert ToCopy(src.files, d.files) == {"foo.txt", "bar.txt"};
    assert UpToDate(src.files, d.files) == {};
    assert FilesToDelete(src.files, d.files, prm) == {};
    assert DirsToDelete({"foo"}, d.subdirs, prm) == {};
    PairKeys("foo.txt", Meta(1, now, false), "bar.txt", Meta(2, now, hidden));
    OneChildLevel(src, Some(d), prm, "foo", Counters(2, 0, 0, 0, 0, 0, 0));
  }

  /** The source into a root holding only the directory barbar: foo.txt and
      bar.txt are copied, barbar is deleted under `-d`, and foo is
      synchronised into nothing. */
  lemma {:induction false} SourceIntoBarbar(prm: Params, now: int, hidden: bool)
    requires !prm.AreSourceFilesFiltered() && prm.deleteExcludeDirs.None?
    ensures Delta(Source(now, hidden), Some(DestBarbar), prm) ==
              Add(Counters(2, 0, 0, 0, 0, if prm.deleteFromDest then 1 else 0, 0), Delta(Foo(now, hidden), None, prm))
  {
    var src := Source(now, hidden);
    Unfiltered(src, prm);
    IntoNothing(src.files, {"foo"}, prm);
    assert DirsToDelete({"foo"}, DestBarbar.subdirs, prm) == if prm.deleteFromDest then {"barbar"} else {};
    assert Lookup(DestBarbar.subdirs, "foo") == None;
    PairKeys("foo.txt", Meta(1, now, false), "bar.txt", Meta(2, now, hidden));
    OneChildLevel(src, Some(DestBarbar), prm, "foo", Counters(2, 0, 0, 0, 0, if prm.deleteFromDest then 1 else 0, 0));
  }

  /** The source with hidden bar.txt, under ExcludeHidden, into no
      directory: foo.txt is copied, bar.txt ignored, the root created. */
  lemma {:induction false} SourceHidingIntoMissing(now: int)
    ensures Delta(Source(now, true), None, HidingHidden) ==
              Add(Counters(1, 0, 0, 1, 1, 0, 0), Delta(Foo(now, true), None, HidingHidden))
  {
    var src := Source(now, true);
    assert DroppedFiles(src.files, Some(HidingHidden)) == {"bar.txt"};
    var ff := SelectedFiles(src, HidingHidden);
    assert ff == map["foo.txt" := Meta(1, now, false)];
    assert ff.Keys == {"foo.txt"};
    assert DroppedDirs(src.subdirs, Some(HidingHidden)) == {};
    assert SelectedDirs(src, HidingHidden) == {"foo"};
    assert Base(None).files == map[] && Base(None).subdirs == map[];
    IntoNothing(ff, {"foo"}, HidingHidden);
    assert LevelCounts(src, None, HidingHidden, {"foo"}, Counters(1, 0, 0, 1, 1, 0, 0));
    OneChildLevel(src, None, HidingHidden, "foo", Counters(1, 0, 0, 1, 1, 0, 0));
  }

  // ---------------------------------------------------------------------------
  // The test vectors: what each test expects is what a run gives

  /** The counters the tests expect, as SyncResults.Set fills them. */
  const AllCopiedBothCreated := Counters(4, 0, 0, 0, 2, 0, 0)
  const AllCopied := Counters(4, 0, 0, 0, 0, 0, 0)
  const TwoCopiedTwoUpToDate := Counters(2, 2, 0, 0, 0, 0, 0)
  const AllCopiedTwoDeleted := Counters(4, 0, 2, 0, 0, 0, 0)
  const AllCopiedOneCreatedOneDeleted := Counters(4, 0, 0, 0, 1, 1, 0)
  const AllCopiedOneCreated := Counters(4, 0, 0, 0, 1, 0, 0)
  const TwoCopiedTwoIgnoredBothCreated := Counters(2, 0, 0, 2, 2, 0, 0)

  /** No destination, `-d`: four files copied, two directories created. */
  lemma DestinationFolderDoesNotExist(now: int)
    ensures Delta(Source(now, false), None, WithDelete) == AllCopiedBothCreated
  {
    FooIntoEmpty(None, WithDelete, now, false);
    SourceIntoMissing(WithDelete, now, false);
  }

  /** Destination with an empty foo, `-d`: four files copied. */
  lemma DestinationFolderExists(now: int)
    ensures Delta(Source(now, false), Some(DestFoo), WithDelete) == AllCopied
  {
    SourceIntoFooOnly(DestFoo, WithDelete, now, false);
    FooIntoEmpty(Some(Made), WithDelete, now, false);
  }

  /** foo.txt and foo\foo1.txt already copied, `-d`: two copied, two up to
      date. */
  lemma TwoFilesUpToDate(now: int)
    ensures Delta(Source(now, false), Some(DestCopied(now)), WithDelete) == TwoCopiedTwoUpToDate
  {
    SourceIntoCopied(WithDelete, now, false);
    FooIntoCopied(WithDelete, now, false);
  }

  /** foo.txt and foo\foo1.txt present but written at another time, `-d`:
      all four copied. */
  lemma TwoFilesDifferent(now: int)
    ensures Delta(Source(now, false), Some(DestDifferent(now)), WithDelete) == AllCopied
  {
    SourceIntoDifferent(WithDelete, now, false);
    FooIntoDifferent(WithDelete, now, false);
  }

  /** foo\foo3.txt and foo\foo4.txt in the destination, `-d`: four copied,
      those two deleted. */
  lemma TwoExtraFilesDeleted(now: int)
    ensures Delta(Source(now, false), Some(DestExtra(now)), WithDelete) == AllCopiedTwoDeleted
  {
    SourceIntoFooOnly(DestExtra(now), WithDelete, now, false);
    FooIntoExtra(WithDelete, now, false);
  }

  /** A directory barbar in the destination, `-d`: four copied, foo
      created, barbar deleted. */
  lemma ExtraDirectoryDeleted(now: int)
    ensures Delta(Source(now, false), Some(DestBarbar), WithDelete) == AllCopiedOneCreatedOneDeleted
  {
    SourceIntoBarbar(WithDelete, now, false);
    FooIntoEmpty(None, WithDelete, now, false);
  }

  /** foo\foo3.txt and foo\foo4.txt in the destination, no `-d`: four
      copied, nothing deleted. */
  lemma TwoExtraFilesKept(now: int)
    ensures Delta(Source(now, false), Some(DestExtra(now)), Defaults) == AllCopied
  {
    SourceIntoFooOnly(DestExtra(now), Defaults, now, false);
    FooIntoExtra(Defaults, now, false);
  }

  /** A directory barbar in the destination, no `-d`: four copied, foo
      created, barbar kept. */
  lemma ExtraDirectoryKept(now: int)
    ensures Delta(Source(now, false), Some(DestBarbar), Defaults) == AllCopiedOneCreated
  {
    SourceIntoBarbar(Defaults, now, false);
    FooIntoEmpty(None, Defaults, now, false);
  }

  /** bar.txt and foo\foo2.txt hidden, no destination, `-d`: hidden files
      are copied like any other. */
  lemma TwoHiddenCopied(now: int)
    ensures Delta(Source(now, true), None, WithDelete) == AllCopiedBothCreated
  {
    FooIntoEmpty(None, WithDelete, now, true);
    SourceIntoMissing(WithDelete, now, true);
  }

  /** bar.txt and foo\foo2.txt hidden, no destination, ExcludeHidden: two
      copied, two ignored, two directories created. */
  lemma TwoHiddenExcluded(now: int)
    ensures Delta(Source(now, true), None, HidingHidden) == TwoCopiedTwoIgnoredBothCreated
  {
    SourceHidingIntoMissing(now);
    FooHidingIntoMissing(now);
  }

  // ---------------------------------------------------------------------------
  // The tests: each passes, and each one run with `-d` finds the
  // destination a mirror of the source

  method Copying4FilesDestinationFolderDoesNotExist(now: int) returns (passed: bool, mirrored: bool)
    ensures passed && mirrored
  {
    var inputParams := Initialization();
    inputParams.DeleteFromDest := true;
    assert inputParams.Snapshot() == WithDelete;
    DestinationFolderDoesNotExist(now);
    passed, mirrored := TestOneCase(Source(now, false), None, inputParams.Snapshot(), AllCopiedBothCreated);
  }

  method Copying4FilesDestinationFolderExists(now: int) returns (passed: bool, mirrored: bool)
    ensures passed && mirrored
  {
    DestinationFolderExists(now);
    passed, mirrored := TestOneCase(Source(now, false), Some(DestFoo), WithDelete, AllCopied);
  }

  method Copying4FilesTwoFilesAlreadyExistAndAreUpToDate(now: int) returns (passed: bool, mirrored: bool)
    ensures passed && mirrored
  {
    TwoFilesUpToDate(now);
    passed, mirrored := TestOneCase(Source(now, false), Some(DestCopied(now)), WithDelete, TwoCopiedTwoUpToDate);
  }

  method Copying4FilesTwoFilesAlreadyExistButAreDifferent(now: int) returns (passed: bool, mirrored: bool)
    ensures passed && mirrored
  {
    TwoFilesDifferent(now);
    passed, mirrored := TestOneCase(Source(now, false), Some(DestDifferent(now)), WithDelete, AllCopied);
  }

  method Copying4FilesTwoAdditionalFilesExistInDestination(now: int) returns (passed: bool, mirrored: bool)
    ensures passed && mirrored
  {
    TwoExtraFilesDeleted(now);
    passed, mirrored := TestOneCase(Source(now, false), Some(DestExtra(now)), WithDelete, AllCopiedTwoDeleted);
  }

  method Copying4FilesAdditionalDirectoryExistsInDestination(now: int) returns (passed: bool, mirrored: bool)
    ensures passed && mirrored
  {
    ExtraDirectoryDeleted(now);
    passed, mirrored := TestOneCase(Source(now, false), Some(DestBarbar), WithDelete, AllCopiedOneCreatedOneDeleted);
  }

  method Copying4FilesTwoAdditionalFileExistInDestination(now: int) returns (passed: bool)
    ensures passed
  {
    TwoExtraFilesKept(now);
    var mirrored;
    passed, mirrored := TestOneCase(Source(now, false), Some(DestExtra(now)), Defaults, AllCopied);
  }

  method Copying4FilesAdditionalDirectoryInDestination(now: int) returns (passed: bool)
    ensures passed
  {
    ExtraDirectoryKept(now);
    var mirrored;
    passed, mirrored := TestOneCase(Source(now, false), Some(DestBarbar), Defaults, AllCopiedOneCreated);
  }

  method Copying4FilesTwoAreHidden(now: int) returns (passed: bool, mirrored: bool)
    ensures passed && mirrored
  {
    TwoHiddenCopied(now);
    passed, mirrored := TestOneCase(Source(now, true), None, WithDelete, AllCopiedBothCreated);
  }

  method Copying4FilesTwoAreHiddenWithExcludeHidden(now: int) returns (passed: bool)
    ensures passed
  {
    TwoHiddenExcluded(now);
    var mirrored;
    passed, mirrored := TestOneCase(Source(now, true), None, HidingHidden, TwoCopiedTwoIgnoredBothCreated);
  }
}

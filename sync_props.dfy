/**
  What a run promises as a whole, stated over the order-independent
  description in SyncSpec (which ProcessDirectory is proved to follow):
  the copy/up-to-date split of the selected files, the mirror the
  destination becomes under deletion, that a second run finds nothing to
  do and cannot fail, and what survives without deletion.
*/
module SyncProperties {
  import opened Wrappers
  import opened Config
  import opened Filter
  import opened FsTree
  import opened SyncResults
  import opened Lister
  import opened SyncSpec

  // ---------------------------------------------------------------------------
  // Counting the files of one directory

  /** Every selected source file is either copied or up to date, never both,
      so on success filesCopied + filesUpToDate rises by the number of
      selected source files. */
  lemma CopiedPlusUpToDate(src: Tree, d: Tree, prm: Params)
    ensures var c := FilesDelta(src, d, prm);
              c.filesCopied + c.filesUpToDate == |SelectedFiles(src, prm)|
  {
    var ff := SelectedFiles(src, prm);
    var copy, current := ToCopy(ff, d.files), UpToDate(ff, d.files);
    assert copy * current == {};
    assert copy + current == ff.Keys;
  }

  /** Every source file is either selected or counted as ignored. */
  lemma SelectedPlusIgnored(src: Tree, prm: Params)
    ensures |SelectedFiles(src, prm)| + |DroppedFiles(src.files, Some(prm))| == |src.files|
  {
    var kept, dropped := SelectedFiles(src, prm).Keys, DroppedFiles(src.files, Some(prm));
    assert kept * dropped == {};
    assert kept + dropped == src.files.Keys;
  }

  /** Under deletion, a destination copy of a source file the filter drops is
      deleted, unless the delete-exclusion list spares it. */
  lemma IgnoredSourceFileDeleted(src: Tree, d: Tree, prm: Params, n: string)
    requires prm.deleteFromDest
    requires prm.AreSourceFilesFiltered() && n in src.files && DropsFile(prm, n, src.files[n])
    requires n in d.files
    requires !ShouldExclude(prm.deleteExcludeFiles, None, n)
    ensures n in FilesToDelete(SelectedFiles(src, prm), d.files, prm)
    ensures n !in SyncedFiles(src, d, prm)
  {
  }

  // ---------------------------------------------------------------------------
  // The destination as a mirror of the filtered source

  /** The entries of SyncedDirs, one name at a time. */
  lemma SyncedDirsEntries(src: Tree, d: Tree, prm: Params)
    ensures var fd := SelectedDirs(src, prm);
              forall n :: n in SyncedDirs(src, d, prm) <==> (n in d.subdirs || n in fd) && n !in DirsToDelete(fd, d.subdirs, prm)
    ensures var fd := SelectedDirs(src, prm);
              forall n :: n in SyncedDirs(src, d, prm) ==>
                SyncedDirs(src, d, prm)[n] == if n in fd then Synced(src.subdirs[n], Lookup(d.subdirs, n), prm) else d.subdirs[n]
  {
  }

  /** `t` holds exactly the selected files of `src`, with their length, write
      time and attributes, and exactly its selected subdirectories, each a
      mirror in turn. */
  predicate Mirrors(t: Tree, src: Tree, prm: Params)
    decreases src
  {
    && t.files == SelectedFiles(src, prm)
    && t.subdirs.Keys == SelectedDirs(src, prm)
    && forall n :: n in t.subdirs ==> n in src.subdirs && Mirrors(t.subdirs[n], src.subdirs[n], prm)
  }

  /** With deletion on and no delete-exclusion list, a run that gets through
      leaves the destination a mirror of the filtered source, whatever it
      held before. */
  lemma {:induction false} MirrorsFilteredSource(src: Tree, dest: Option<Tree>, prm: Params)
    requires prm.deleteFromDest && prm.deleteExcludeFiles.None? && prm.deleteExcludeDirs.None?
    ensures Mirrors(Synced(src, dest, prm), src, prm)
    decreases src
  {
    var d, t := Base(dest), Synced(src, dest, prm);
    var ff, fd := SelectedFiles(src, prm), SelectedDirs(src, prm);
    assert FilesToDelete(ff, d.files, prm) == d.files.Keys - ff.Keys;
    assert t.files == ff;
    SyncedDirsEntries(src, d, prm);
    assert t.subdirs.Keys == fd;
    forall n | n in t.subdirs
      ensures n in src.subdirs && Mirrors(t.subdirs[n], src.subdirs[n], prm)
    {
      MirrorsFilteredSource(src.subdirs[n], Lookup(d.subdirs, n), prm);
    }
  }

  // ---------------------------------------------------------------------------
  // A second run

  /** The file half of a second run: nothing to copy, nothing to delete,
      every selected file up to date. */
  lemma SecondFilesHalf(src: Tree, dest: Option<Tree>, prm: Params)
    ensures var t := Synced(src, dest, prm);
              && ToCopy(SelectedFiles(src, prm), t.files) == {}
              && UpToDate(SelectedFiles(src, prm), t.files) == SelectedFiles(src, prm).Keys
              && FilesToDelete(SelectedFiles(src, prm), t.files, prm) == {}
              && SyncedFiles(src, t, prm) == t.files
  {
    var ff, t := SelectedFiles(src, prm), Synced(src, dest, prm);
    assert forall n :: n in ff ==> n in t.files && t.files[n] == ff[n];
    assert FilesToDelete(ff, t.files, prm) == {};
    assert (t.files + ff) - {} == t.files;
  }

  /** The directory half of a second run: nothing to delete, and each
      selected subdirectory already holds the result of the first run. */
  lemma SecondDirsHalf(src: Tree, dest: Option<Tree>, prm: Params)
    ensures var t, fd := Synced(src, dest, prm), SelectedDirs(src, prm);
              && DirsToDelete(fd, t.subdirs, prm) == {}
              && forall n :: n in fd ==>
                   n in src.subdirs && Lookup(t.subdirs, n) == Some(Synced(src.subdirs[n], Lookup(Base(dest).subdirs, n), prm))
  {
    SyncedDirsEntries(src, Base(dest), prm);
  }

  /** Running again over the result changes nothing. */
  lemma {:induction false} SyncedIdempotent(src: Tree, dest: Option<Tree>, prm: Params)
    ensures var t := Synced(src, dest, prm); Synced(src, Some(t), prm) == t
    decreases src
  {
    var d := Base(dest);
    forall n | n in SelectedDirs(src, prm)
      ensures var c := Synced(src.subdirs[n], Lookup(d.subdirs, n), prm);
                Synced(src.subdirs[n], Some(c), prm) == c
    {
      SyncedIdempotent(src.subdirs[n], Lookup(d.subdirs, n), prm);
    }
    SecondFilesHalf(src, dest, prm);
    SecondDirsSame(src, dest, prm);
  }

  /** The directory half of a second run leaves the subdirectories as they
      are, given that each selected one is already its own fixed point. */
  lemma SecondDirsSame(src: Tree, dest: Option<Tree>, prm: Params)
    requires forall n :: n in SelectedDirs(src, prm) ==>
               var c := Synced(src.subdirs[n], Lookup(Base(dest).subdirs, n), prm);
               Synced(src.subdirs[n], Some(c), prm) == c
    ensures var t := Synced(src, dest, prm); SyncedDirs(src, t, prm) == t.subdirs
  {
    var t := Synced(src, dest, prm);
    SecondDirsHalf(src, dest, prm);
    SyncedDirsEntries(src, t, prm);
    var again := SyncedDirs(src, t, prm);
    assert again.Keys == t.subdirs.Keys;
    assert forall n :: n in again ==> again[n] == t.subdirs[n];
  }

  /** A second run over the result needs no copy, deletion or creation, so
      no failing operation can stop it. */
  lemma {:induction false} SecondRunCannotFail(src: Tree, dest: Option<Tree>, prm: Params, fails: set<Path>, path: Path)
    ensures Runs(src, Some(Synced(src, dest, prm)), prm, fails, path)
    decreases src
  {
    var d, t := Base(dest), Synced(src, dest, prm);
    var fd := SelectedDirs(src, prm);
    SecondFilesHalf(src, dest, prm);
    SecondDirsHalf(src, dest, prm);
    forall n | n in fd
      ensures Runs(src.subdirs[n], Lookup(t.subdirs, n), prm, fails, path + [n])
    {
      SecondRunCannotFail(src.subdirs[n], Lookup(d.subdirs, n), prm, fails, path + [n]);
    }
  }

  /** Delta counter by counter: what this directory adds, plus the sum over
      the recursive runs. */
  lemma DeltaSplit(src: Tree, dest: Option<Tree>, prm: Params)
    ensures var d, ff, fd := Base(dest), SelectedFiles(src, prm), SelectedDirs(src, prm);
              var c, sum := Delta(src, dest, prm), SumCounters(fd, ChildDeltas(src, d, prm));
              && c.filesCopied == |ToCopy(ff, d.files)| + sum.filesCopied
              && c.filesUpToDate == |UpToDate(ff, d.files)| + sum.filesUpToDate
              && c.filesDeleted == |FilesToDelete(ff, d.files, prm)| + sum.filesDeleted
              && c.directoriesCreated == (if dest.None? then 1 else 0) + sum.directoriesCreated
              && c.directoriesDeleted == |DirsToDelete(fd, d.subdirs, prm)| + sum.directoriesDeleted
              && c.filesIgnored == |DroppedFiles(src.files, Some(prm))| + sum.filesIgnored
              && c.directoriesIgnored == |DroppedDirs(src.subdirs, Some(prm))| + sum.directoriesIgnored
  {
  }

  /** A run in which nothing was copied, deleted or created. */
  predicate Quiet(c: Counters) {
    c.filesCopied == 0 && c.filesDeleted == 0 && c.directoriesCreated == 0 && c.directoriesDeleted == 0
  }

  /** A sum of quiet terms is quiet. */
  lemma {:induction false} SumQuiet(keys: set<string>, f: string -> Counters)
    requires forall k :: k in keys ==> Quiet(f(k))
    ensures Quiet(SumCounters(keys, f))
    decreases |keys|
  {
    if keys != {} {
      var x :| x in keys;
      SumCountersRemove(keys, f, x);
      SumQuiet(keys - {x}, f);
    }
  }

  /** A second run over the result copies, deletes and creates nothing; it
      counts every selected file of the top directory as up to date. */
  lemma {:induction false} SecondRunQuiet(src: Tree, dest: Option<Tree>, prm: Params)
    ensures var c := Delta(src, Some(Synced(src, dest, prm)), prm);
              Quiet(c) && FilesDelta(src, Synced(src, dest, prm), prm).filesUpToDate == |SelectedFiles(src, prm)|
    decreases src, 2
  {
    SecondFilesHalf(src, dest, prm);
    SecondDirsHalf(src, dest, prm);
    SecondChildrenQuiet(src, dest, prm);
    DeltaSplit(src, Some(Synced(src, dest, prm)), prm);
  }

  /** The recursive runs of a second run are quiet, in sum. */
  lemma {:induction false} SecondChildrenQuiet(src: Tree, dest: Option<Tree>, prm: Params)
    ensures Quiet(SumCounters(SelectedDirs(src, prm), ChildDeltas(src, Synced(src, dest, prm), prm)))
    decreases src, 1
  {
    var fd := SelectedDirs(src, prm);
    var f := ChildDeltas(src, Synced(src, dest, prm), prm);
    forall n | n in fd
      ensures Quiet(f(n))
    {
      SecondChildQuiet(src, dest, prm, n);
    }
    SumQuiet(fd, f);
  }

  /** The second run into one selected subdirectory is quiet. */
  lemma {:induction false} SecondChildQuiet(src: Tree, dest: Option<Tree>, prm: Params, n: string)
    requires n in SelectedDirs(src, prm)
    ensures Quiet(ChildDeltas(src, Synced(src, dest, prm), prm)(n))
    decreases src, 0
  {
    SecondDirsHalf(src, dest, prm);
    SecondRunQuiet(src.subdirs[n], Lookup(Base(dest).subdirs, n), prm);
  }

  // ---------------------------------------------------------------------------
  // Without deletion

  /** A sum whose terms all leave one counter at zero leaves it at zero. */
  lemma {:induction false} SumCountersZero(keys: set<string>, f: string -> Counters, k: Counter)
    requires forall n :: n in keys ==> Get(f(n), k) == 0
    ensures Get(SumCounters(keys, f), k) == 0
    decreases |keys|
  {
    if keys != {} {
      var x :| x in keys;
      SumCountersRemove(keys, f, x);
      SumCountersZero(keys - {x}, f, k);
    }
  }

  /** Without `-d`, a run deletes nothing anywhere in the tree: both deletion
      counters stay put. */
  lemma {:induction false} NoDeleteCountsNoDeletion(src: Tree, dest: Option<Tree>, prm: Params)
    requires !prm.deleteFromDest
    ensures Delta(src, dest, prm).filesDeleted == 0 && Delta(src, dest, prm).directoriesDeleted == 0
    decreases src, 2
  {
    NoDeleteChildren(src, dest, prm);
    DeltaSplit(src, dest, prm);
  }

  /** The recursive runs of a directory without `-d` delete nothing, in sum. */
  lemma {:induction false} NoDeleteChildren(src: Tree, dest: Option<Tree>, prm: Params)
    requires !prm.deleteFromDest
    ensures var sum := SumCounters(SelectedDirs(src, prm), ChildDeltas(src, Base(dest), prm));
              sum.filesDeleted == 0 && sum.directoriesDeleted == 0
    decreases src, 1
  {
    var fd := SelectedDirs(src, prm);
    var f := ChildDeltas(src, Base(dest), prm);
    forall n | n in fd
      ensures Get(f(n), FilesDeleted) == 0 && Get(f(n), DirectoriesDeleted) == 0
    {
      NoDeleteChild(src, dest, prm, n);
    }
    SumCountersZero(fd, f, FilesDeleted);
    SumCountersZero(fd, f, DirectoriesDeleted);
  }

  /** The run into one selected subdirectory deletes nothing either. */
  lemma {:induction false} NoDeleteChild(src: Tree, dest: Option<Tree>, prm: Params, n: string)
    requires !prm.deleteFromDest && n in SelectedDirs(src, prm)
    ensures var c := ChildDeltas(src, Base(dest), prm)(n); c.filesDeleted == 0 && c.directoriesDeleted == 0
    decreases src, 0
  {
    NoDeleteCountsNoDeletion(src.subdirs[n], Lookup(Base(dest).subdirs, n), prm);
  }

  /** Without `-d`, every destination entry survives, and a destination file
      the filtered source does not list is left as it was. */
  lemma NoDeleteKeepsEverything(src: Tree, d: Tree, prm: Params)
    requires !prm.deleteFromDest
    ensures var t := Synced(src, Some(d), prm);
              && d.files.Keys <= t.files.Keys
              && d.subdirs.Keys <= t.subdirs.Keys
              && forall n :: n in d.files && n !in SelectedFiles(src, prm) ==> t.files[n] == d.files[n]
  {
  }

  // ---------------------------------------------------------------------------
  // Nothing failing

  /** When no operation throws, the run gets through. */
  lemma {:induction false} NothingFailsRuns(src: Tree, dest: Option<Tree>, prm: Params, path: Path)
    ensures Runs(src, dest, prm, {}, path)
    decreases src
  {
    var d := Base(dest);
    forall n | n in SelectedDirs(src, prm)
      ensures Runs(src.subdirs[n], Lookup(d.subdirs, n), prm, {}, path + [n])
    {
      NothingFailsRuns(src.subdirs[n], Lookup(d.subdirs, n), prm, path + [n]);
    }
  }
}

/**
  One-way synchronisation of a directory tree (Sync and ProcessDirectory in
  Source/BlinkSyncLib/BlinkSync.cs), over in-memory trees. The destination
  is threaded through as a value: ProcessDirectory receives the destination
  directory as it stands (None when it does not exist) and returns it as it
  leaves it; `fails` says which filesystem operations throw. The counters
  live in the Results object, updated in place.

  Each directory is handled in a fixed order: make sure it exists, list the
  selected source files and all destination files, copy what is not up to
  date, delete extra files (with deletion on), list subdirectories and
  recurse into each selected one, then delete extra subdirectories (with
  deletion on). The first operation that throws ends the whole run. The
  loops are methods of their own, each adding to a local count what the
  source adds to a counter; the caller adds the count to the counter when
  the loop ends, before anything reads it.
*/
module Reconciler {
  import opened Wrappers
  import opened Config
  import opened Filter
  import opened FsTree
  import opened SyncResults
  import opened Lister
  import opened Eraser
  import opened Passes
  import opened SyncSpec

  // ---------------------------------------------------------------------------
  // Where a pass stops when a step throws

  /** A name of a listing without repeats is not among the names before it. */
  lemma DistinctPrefix(s: seq<string>, i: nat)
    requires Distinct(s) && i < |s|
    ensures s[i] !in s[..i]
  {
  }

  /** A copy pass that throws on `x`, after copying the names `done`, leaves
      every file as it was, copied, or (for `x`) cleared of read-only. */
  lemma CopyFailedLeft(hashDest: map<string, FileMeta>, hashSrc: map<string, FileMeta>, done: seq<string>, x: string,
                       files: map<string, FileMeta>)
    requires forall n :: n in done ==> n in hashSrc
    requires x !in done && x in hashSrc && !(x in hashDest && hashDest[x] == hashSrc[x])
    requires files == CopiedOver(hashDest, hashSrc, done)
             || (x in hashDest && files == CopiedOver(hashDest, hashSrc, done)[x := ClearFile(hashDest[x])])
    ensures forall n :: FileLeft(Lookup(hashDest, n), Lookup(files, n), Lookup(hashDest + hashSrc, n))
  {
    CopiedOverEntries(hashDest, hashSrc, done);
  }

  /** A deletion pass that throws on `x`, after deleting among the names
      `done`, leaves every entry as it was, deleted, or (for `x`) cleared. */
  lemma DeleteFailedLeft<T>(m0: map<string, T>, done: seq<string>, del: set<string>, x: string, m: map<string, T>,
                            cleared: T -> T)
    requires x in del && x !in done && x in m0
    requires m == RemovedFrom(m0, done, del)[x := cleared(m0[x])]
    ensures forall n :: Lookup(m, n) == Lookup(m0, n) || (n in del && (n !in m || (n == x && m[n] == cleared(m0[n]))))
  {
    RemovedFromEntries(m0, done, del);
  }

  // ---------------------------------------------------------------------------
  // The file half

  /** Fills a Hashtable from a listing: name to metadata. */
  method BuildTable(m: map<string, FileMeta>, names: seq<string>) returns (table: map<string, FileMeta>)
    requires Distinct(names) && forall n :: n in names ==> n in m
    ensures forall n :: n in table <==> n in names
    ensures forall n :: n in table ==> table[n] == m[n]
  {
    table := map[];
    for i := 0 to |names|
      invariant forall n :: n in table <==> n in names[..i]
      invariant forall n :: n in table ==> table[n] == m[n]
    {
      var name := names[i];
      table := table[name := m[name]];
      assert names[..i + 1] == names[..i] + [name];
    }
    assert names[..|names|] == names;
  }

  /** One turn of the copy loop: a file whose same-named destination has equal
      length, write time and attributes is up to date; any other is copied
      over the destination (read-only cleared first) and given the source's
      attributes. `ok` is false when the copy throws. */
  method CopyOrSkip(srcFile: string, meta: FileMeta, destFile: Option<FileMeta>, files0: map<string, FileMeta>,
                    fails: set<Path>, path: Path)
    returns (ok: bool, isUpToDate: bool, files: map<string, FileMeta>)
    ensures isUpToDate <==> destFile == Some(meta)
    ensures ok <==> isUpToDate || path + [srcFile] !in fails
    ensures isUpToDate ==> files == files0
    ensures ok && !isUpToDate ==> files == files0[srcFile := meta]
    ensures !ok ==> files == files0 || (destFile.Some? && files == files0[srcFile := ClearFile(destFile.value)])
  {
    files := files0;
    isUpToDate := false;
    if destFile.Some? && meta.length == destFile.value.length
       && meta.writeTime == destFile.value.writeTime && meta.attrs == destFile.value.attrs {
      isUpToDate := true;
    }
    if !isUpToDate {
      if destFile.Some? && destFile.value.attrs.readOnly {
        files := files[srcFile := ClearFile(destFile.value)];
      }
      if path + [srcFile] in fails {
        return false, isUpToDate, files;
      }
      files := files[srcFile := meta];
    }
    ok := true;
  }

  /** A file outside the copy set has its source and destination equal or no
      source at all, so whatever FileLeft allows leaves it as it was. */
  lemma UncopiedLeft(hashSrc: map<string, FileMeta>, hashDest: map<string, FileMeta>, copy: set<string>,
                     files: map<string, FileMeta>)
    requires forall n :: n in hashSrc ==> (n in copy <==> !(n in hashDest && hashDest[n] == hashSrc[n]))
    requires forall n :: FileLeft(Lookup(hashDest, n), Lookup(files, n), Lookup(hashDest + hashSrc, n))
    ensures forall n :: n !in copy ==> Lookup(files, n) == Lookup(hashDest, n)
  {
    forall n | n !in copy
      ensures Lookup(files, n) == Lookup(hashDest, n)
    {
      assert Lookup(hashDest + hashSrc, n) == Lookup(hashDest, n);
      assert FileLeft(Lookup(hashDest, n), Lookup(files, n), Lookup(hashDest + hashSrc, n));
    }
  }

  /** The copy-or-skip loop over the selected source files. The counts are
      the rises of FilesCopied and FilesUpToDate, up to a copy that throws. */
  method CopyFiles(fiSrc: seq<string>, hashSrc: map<string, FileMeta>, hashDest: map<string, FileMeta>,
                   fails: set<Path>, path: Path, ghost copy: set<string>, ghost current: set<string>)
    returns (ok: bool, files: map<string, FileMeta>, filesCopied: nat, filesUpToDate: nat)
    requires Distinct(fiSrc) && forall n :: n in fiSrc <==> n in hashSrc
    requires forall n :: n in copy ==> n in hashSrc
    requires forall n :: n in hashSrc ==> (n in copy <==> !(n in hashDest && hashDest[n] == hashSrc[n]))
    requires forall n :: n in hashSrc ==> (n in current <==> n in hashDest && hashDest[n] == hashSrc[n])
    ensures ok <==> forall n :: n in copy ==> path + [n] !in fails
    ensures ok ==> files == hashDest + hashSrc
    ensures forall n :: FileLeft(Lookup(hashDest, n), Lookup(files, n), Lookup(hashDest + hashSrc, n))
    ensures forall n :: n !in copy ==> Lookup(files, n) == Lookup(hashDest, n)
    ensures filesCopied <= Count(fiSrc, copy)
    ensures filesUpToDate <= Count(fiSrc, current)
    ensures ok ==> filesCopied == Count(fiSrc, copy)
    ensures ok ==> filesUpToDate == Count(fiSrc, current)
  {
    files := hashDest;
    filesCopied, filesUpToDate := 0, 0;
    for i := 0 to |fiSrc|
      invariant NoneFail(fiSrc[..i], copy, fails, path)
      invariant files == CopiedOver(hashDest, hashSrc, fiSrc[..i])
      invariant filesCopied == Count(fiSrc[..i], copy)
      invariant filesUpToDate == Count(fiSrc[..i], current)
    {
      var srcFile := fiSrc[i];
      NoneFailStep(fiSrc, i, copy, fails, path);
      CopiedOverStep(hashDest, hashSrc, fiSrc, i);
      PrefixStep(fiSrc, i, copy);
      PrefixStep(fiSrc, i, current);
      var copied, isUpToDate;
      copied, isUpToDate, files := CopyOrSkip(srcFile, hashSrc[srcFile], Lookup(hashDest, srcFile), files, fails, path);
      assert isUpToDate <==> srcFile in current;
      assert !isUpToDate <==> srcFile in copy;
      if !copied {
        CountPrefix(fiSrc, i, copy);
        CountPrefix(fiSrc, i, current);
        DistinctPrefix(fiSrc, i);
        CopyFailedLeft(hashDest, hashSrc, fiSrc[..i], srcFile, files);
        UncopiedLeft(hashSrc, hashDest, copy, files);
        return false, files, filesCopied, filesUpToDate;
      }
      if isUpToDate {
        filesUpToDate := filesUpToDate + 1;
      } else {
        filesCopied := filesCopied + 1;
      }
    }
    assert fiSrc[..|fiSrc|] == fiSrc;
    NoneFailAll(fiSrc, copy, fails, path);
    CopiedOverAll(hashDest, hashSrc, fiSrc);
    UncopiedLeft(hashSrc, hashDest, copy, files);
    ok := true;
  }

  /** One turn of the file deletion loop: a destination file that the
      filtered source listing lacks and the delete-exclusion list does not
      spare has its read-only flag cleared and is deleted. `ok` is false when
      the deletion throws, leaving the file in place, cleared. */
  method DeleteOneFile(destFile: string, srcFile: Option<FileMeta>, destMeta: FileMeta,
                       files0: map<string, FileMeta>, prm: Params, fails: set<Path>, path: Path)
    returns (ok: bool, deleted: bool, files: map<string, FileMeta>)
    ensures deleted <==> srcFile.None? && !ShouldExclude(prm.deleteExcludeFiles, None, destFile)
    ensures ok <==> !deleted || path + [destFile] !in fails
    ensures !deleted ==> files == files0
    ensures ok && deleted ==> files == files0 - {destFile}
    ensures !ok ==> files == files0[destFile := ClearFile(destMeta)]
  {
    files := files0;
    deleted := false;
    if srcFile.None? {
      if !ShouldExclude(prm.deleteExcludeFiles, None, destFile) {
        deleted := true;
        files := files[destFile := ClearFile(destMeta)];
        if path + [destFile] in fails {
          return false, deleted, files;
        }
        files := files - {destFile};
      }
    }
    ok := true;
  }

  /** The loop deleting destination files missing from the filtered source
      listing. The count is the rise of FilesDeleted, up to a deletion that throws. */
  method DeleteFiles(fiDest: seq<string>, hashSrc: map<string, FileMeta>, hashDest: map<string, FileMeta>,
                     files0: map<string, FileMeta>, prm: Params, fails: set<Path>, path: Path, ghost del: set<string>)
    returns (ok: bool, files: map<string, FileMeta>, filesDeleted: nat)
    requires prm.deleteFromDest
    requires Distinct(fiDest) && forall n :: n in fiDest <==> n in hashDest
    requires forall n :: n in del ==> n in hashDest && n in files0 && files0[n] == hashDest[n]
    requires forall n :: n in hashDest ==>
               (n in del <==> n !in hashSrc && !ShouldExclude(prm.deleteExcludeFiles, None, n))
    ensures ok <==> forall n :: n in del ==> path + [n] !in fails
    ensures ok ==> files == files0 - del
    ensures forall n :: FileLeft(Lookup(files0, n), Lookup(files, n), Lookup(files0 - del, n))
    ensures filesDeleted <= Count(fiDest, del)
    ensures ok ==> filesDeleted == Count(fiDest, del)
  {
    files := files0;
    filesDeleted := 0;
    for i := 0 to |fiDest|
      invariant NoneFail(fiDest[..i], del, fails, path)
      invariant files == RemovedFrom(files0, fiDest[..i], del)
      invariant filesDeleted == Count(fiDest[..i], del)
    {
      var destFile := fiDest[i];
      NoneFailStep(fiDest, i, del, fails, path);
      RemovedFromStep(files0, fiDest, i, del);
      PrefixStep(fiDest, i, del);
      var deletedOk, deleted;
      deletedOk, deleted, files := DeleteOneFile(destFile, Lookup(hashSrc, destFile), hashDest[destFile], files,
                                                 prm, fails, path);
      assert deleted <==> destFile in del;
      if !deletedOk {
        CountPrefix(fiDest, i, del);
        DistinctPrefix(fiDest, i);
        DeleteFailedLeft(files0, fiDest[..i], del, destFile, files, ClearFile);
        return false, files, filesDeleted;
      }
      if deleted {
        filesDeleted := filesDeleted + 1;
      }
    }
    assert fiDest[..|fiDest|] == fiDest;
    NoneFailAll(fiDest, del, fails, path);
    RemovedFromAll(files0, fiDest, del);
    ok := true;
  }

  /** A table filled from a listing of every name of a directory is that directory's map. */
  lemma TableOfListing<T>(table: map<string, T>, m: map<string, T>, keep: set<string>)
    requires forall n :: n in table <==> n in m && n in keep
    requires forall n :: n in table ==> table[n] == m[n]
    ensures table == map n | n in m && n in keep :: m[n]
  {
  }

  /** The two Hashtables the file half fills from its listings: the selected
      source files and every destination file, by name. */
  method FileTables(src: Tree, d: Tree, prm: Params, fiSrc: seq<string>, fiDest: seq<string>)
    returns (hashSrc: map<string, FileMeta>, hashDest: map<string, FileMeta>)
    requires Distinct(fiSrc) && forall n :: n in fiSrc <==> n in SelectedFiles(src, prm)
    requires Distinct(fiDest) && forall n :: n in fiDest <==> n in d.files
    ensures hashSrc == SelectedFiles(src, prm)
    ensures hashDest == d.files
  {
    hashSrc := BuildTable(src.files, fiSrc);
    hashDest := BuildTable(d.files, fiDest);
    TableOfListing(hashSrc, src.files, set n | n in src.files && n !in DroppedFiles(src.files, Some(prm)));
    TableOfListing(hashDest, d.files, d.files.Keys);
  }

  /** The deletion pass of the file half, after every selected source file
      was copied into `files0`. */
  method DeletePassFiles(src: Tree, d: Tree, prm: Params, fails: set<Path>, path: Path,
                         fiDest: seq<string>, hashSrc: map<string, FileMeta>, files0: map<string, FileMeta>)
    returns (ok: bool, files: map<string, FileMeta>, filesDeleted: nat)
    requires Distinct(fiDest) && forall n :: n in fiDest <==> n in d.files
    requires hashSrc == SelectedFiles(src, prm)
    requires files0 == d.files + SelectedFiles(src, prm)
    ensures ok <==> forall n :: n in FilesToDelete(SelectedFiles(src, prm), d.files, prm) ==> path + [n] !in fails
    ensures ok ==> files == SyncedFiles(src, d, prm)
    ensures FilesLeft(src, d, prm, files)
    ensures filesDeleted <= |FilesToDelete(SelectedFiles(src, prm), d.files, prm)|
    ensures ok ==> filesDeleted == |FilesToDelete(SelectedFiles(src, prm), d.files, prm)|
  {
    ghost var del := FilesToDelete(hashSrc, d.files, prm);
    if prm.deleteFromDest {
      RemovedCount(fiDest, d.files.Keys, del);
      ok, files, filesDeleted := DeleteFiles(fiDest, hashSrc, d.files, files0, prm, fails, path, del);
    } else {
      ok, files, filesDeleted := true, files0, 0;
      assert del == {};
      assert files - del == files;
    }
  }

  /** Copying and deleting the files of one directory, given its two
      listings: the loops of the first half of ProcessDirectory. Each count
      reaches its share of FilesDelta when nothing throws; the deletion pass
      does not start after a failed copy. */
  method FilesPass(src: Tree, d: Tree, prm: Params, fails: set<Path>, path: Path,
                   fiSrc: seq<string>, fiDest: seq<string>)
    returns (ok: bool, files: map<string, FileMeta>, filesCopied: nat, filesUpToDate: nat, filesDeleted: nat)
    requires Distinct(fiSrc) && forall n :: n in fiSrc <==> n in SelectedFiles(src, prm)
    requires Distinct(fiDest) && forall n :: n in fiDest <==> n in d.files
    ensures ok <==> FilesRun(src, d, prm, fails, path)
    ensures ok ==> files == SyncedFiles(src, d, prm)
    ensures FilesLeft(src, d, prm, files)
    ensures !CopiesRun(src, d, prm, fails, path) ==>
              filesDeleted == 0 && forall n :: n !in ToCopy(SelectedFiles(src, prm), d.files) ==> Lookup(files, n) == Lookup(d.files, n)
    ensures filesCopied <= |ToCopy(SelectedFiles(src, prm), d.files)|
    ensures filesUpToDate <= |UpToDate(SelectedFiles(src, prm), d.files)|
    ensures filesDeleted <= |FilesToDelete(SelectedFiles(src, prm), d.files, prm)|
    ensures ok ==> filesCopied == |ToCopy(SelectedFiles(src, prm), d.files)|
    ensures ok ==> filesUpToDate == |UpToDate(SelectedFiles(src, prm), d.files)|
    ensures ok ==> filesDeleted == |FilesToDelete(SelectedFiles(src, prm), d.files, prm)|
  {
    ghost var ff := SelectedFiles(src, prm);
    var hashSrc, hashDest := FileTables(src, d, prm, fiSrc, fiDest);

    // copy or skip every selected source file
    RemovedCount(fiSrc, ff.Keys, ToCopy(ff, d.files));
    RemovedCount(fiSrc, ff.Keys, UpToDate(ff, d.files));
    ok, files, filesCopied, filesUpToDate := CopyFiles(fiSrc, hashSrc, hashDest, fails, path,
                                                       ToCopy(ff, d.files), UpToDate(ff, d.files));
    filesDeleted := 0;
    if !ok {
      return;
    }

    // delete extra destination files
    ok, files, filesDeleted := DeletePassFiles(src, d, prm, fails, path, fiDest, hashSrc, files);
  }

  /** Listing, copying and deleting the files of one directory: the first half of ProcessDirectory. */
  method SyncFiles(src: Tree, d: Tree, prm: Params, fails: set<Path>, path: Path, results: Results)
    returns (ok: bool, files: map<string, FileMeta>)
    modifies results
    ensures ok <==> FilesRun(src, d, prm, fails, path)
    ensures ok ==> files == SyncedFiles(src, d, prm)
    ensures FilesLeft(src, d, prm, files)
    ensures !CopiesRun(src, d, prm, fails, path) ==>
              results.filesDeleted == old(results.filesDeleted)
              && forall n :: n !in ToCopy(SelectedFiles(src, prm), d.files) ==> Lookup(files, n) == Lookup(d.files, n)
    ensures results.directoriesCreated == old(results.directoriesCreated)
    ensures results.directoriesDeleted == old(results.directoriesDeleted)
    ensures results.directoriesIgnored == old(results.directoriesIgnored)
    ensures ok ==> results.Value() == Add(old(results.Value()), FilesDelta(src, d, prm))
    ensures Le(old(results.Value()), results.Value())
    ensures Le(results.Value(), Add(old(results.Value()), FilesDelta(src, d, prm)))
  {
    // list the selected source files and every destination file
    var fiSrc, _ := GetFiles(src, Some(prm), results);
    var fiDest, _ := GetFiles(d, None, results);
    var filesCopied, filesUpToDate, filesDeleted;
    ok, files, filesCopied, filesUpToDate, filesDeleted := FilesPass(src, d, prm, fails, path, fiSrc, fiDest);
    results.filesCopied := results.filesCopied + filesCopied;
    results.filesUpToDate := results.filesUpToDate + filesUpToDate;
    results.filesDeleted := results.filesDeleted + filesDeleted;
  }

  // ---------------------------------------------------------------------------
  // The directory half

  /** The counters through one turn of the recursion loop: the turn adds at
      most the child's Delta, exactly that when the child gets through, and
      the loop as a whole never more than the sum over every selected
      subdirectory. */
  lemma TurnCounts(start: Counters, before: Counters, after: Counters, done: set<string>, x: string,
                   fd: set<string>, f: string -> Counters, ok: bool)
    requires x !in done && done + {x} <= fd
    requires before == Add(start, SumCounters(done, f))
    requires Le(before, after) && Le(after, Add(before, f(x)))
    requires ok ==> after == Add(before, f(x))
    ensures ok ==> after == Add(start, SumCounters(done + {x}, f))
    ensures Le(start, after) && Le(after, Add(start, SumCounters(fd, f)))
  {
    SumCountersInsert(done, f, x);
    AddAssoc(start, SumCounters(done, f), f(x));
    SumCountersMonotone(done + {x}, fd, f);
    AddMonotone(start, SumCounters(done + {x}, f), SumCounters(fd, f));
    LeAdd(start, SumCounters(done, f));
  }

  /** The subdirectories after the recursion has gone into the names of `s`:
      each is as it was, or as its own run left it. */
  ghost predicate ChildrenLeft(src: Tree, d: Tree, s: seq<string>, prm: Params, subdirs: map<string, Tree>)
    requires forall n :: n in s ==> n in src.subdirs
  {
    forall n :: Lookup(subdirs, n) == Lookup(d.subdirs, n)
                || (n in s && Left(src.subdirs[n], Lookup(d.subdirs, n), prm, Lookup(subdirs, n)))
  }

  /** One more turn of the recursion loop keeps ChildrenLeft. */
  lemma ChildLeftStep(src: Tree, d: Tree, s: seq<string>, i: nat, prm: Params, subdirs: map<string, Tree>,
                      child: Option<Tree>, subdirs': map<string, Tree>)
    requires i < |s| && forall n :: n in s ==> n in src.subdirs
    requires s[i] !in s[..i] && ChildrenLeft(src, d, s[..i], prm, subdirs)
    requires Left(src.subdirs[s[i]], Lookup(d.subdirs, s[i]), prm, child)
    requires child.None? ==> Lookup(d.subdirs, s[i]).None?
    requires subdirs' == if child.Some? then subdirs[s[i] := child.value] else subdirs
    ensures ChildrenLeft(src, d, s[..i + 1], prm, subdirs')
  {
    assert s[..i + 1] == s[..i] + [s[i]];
    var x := s[i];
    assert Lookup(subdirs, x) == Lookup(d.subdirs, x);
    assert Lookup(subdirs', x) == child;
    forall n | n != x
      ensures Lookup(subdirs', n) == Lookup(subdirs, n)
    {
    }
  }

  /** ChildrenLeft over a listing holds over any longer one. */
  lemma ChildrenLeftWiden(src: Tree, d: Tree, s: seq<string>, t: seq<string>, prm: Params, subdirs: map<string, Tree>)
    requires forall n :: n in t ==> n in src.subdirs
    requires forall n :: n in s ==> n in t
    requires ChildrenLeft(src, d, s, prm, subdirs)
    ensures ChildrenLeft(src, d, t, prm, subdirs)
  {
  }

  /** Synchronising the first subdirectories of a listing leaves what ChildrenLeft allows. */
  lemma {:induction false} SyncedOverLeft(src: Tree, d: Tree, s: seq<string>, prm: Params)
    requires forall n :: n in s ==> n in src.subdirs
    ensures ChildrenLeft(src, d, s, prm, SyncedOver(src, d, s, prm))
  {
    if s != [] {
      var last := s[|s| - 1];
      var s' := s[..|s| - 1];
      SyncedOverLeft(src, d, s', prm);
      SyncedIsLeft(src.subdirs[last], Lookup(d.subdirs, last), prm);
      var m := SyncedOver(src, d, s, prm);
      forall n
        ensures Lookup(m, n) == Lookup(d.subdirs, n)
                || (n in s && Left(src.subdirs[n], Lookup(d.subdirs, n), prm, Lookup(m, n)))
      {
        if n != last {
          assert Lookup(m, n) == Lookup(SyncedOver(src, d, s', prm), n);
          assert n in s' ==> n in s;
        }
      }
    }
  }

  /** One turn of the recursion loop: ProcessDirectory on the subdirectory
      `n`. `child` is the subdirectory as the run leaves it, also when it
      throws (None when it was missing and could not be created). */
  method SyncChild(src: Tree, d: Tree, n: string, prm: Params, fails: set<Path>, path: Path, results: Results)
    returns (ok: bool, child: Option<Tree>)
    requires n in src.subdirs
    modifies results
    decreases src, 0
    ensures ok <==> Runs(src.subdirs[n], Lookup(d.subdirs, n), prm, fails, path + [n])
    ensures ok ==> child == Some(Synced(src.subdirs[n], Lookup(d.subdirs, n), prm))
    ensures Left(src.subdirs[n], Lookup(d.subdirs, n), prm, child)
    ensures child.None? ==> Lookup(d.subdirs, n).None?
    ensures ok ==> results.Value() == Add(old(results.Value()), ChildDeltas(src, d, prm)(n))
    ensures Le(old(results.Value()), results.Value())
    ensures Le(results.Value(), Add(old(results.Value()), ChildDeltas(src, d, prm)(n)))
  {
    assert ChildDeltas(src, d, prm)(n) == Delta(src.subdirs[n], Lookup(d.subdirs, n), prm);
    ok, child := ProcessDirectory(src.subdirs[n], Lookup(d.subdirs, n), prm, fails, path + [n], results);
  }

  /** The loop over the selected source subdirectories, recursing into each,
      stated over the listing it walks. */
  method SyncSubdirs(src: Tree, d: Tree, diSrcSubdirs: seq<string>, prm: Params, fails: set<Path>, path: Path,
                     results: Results)
    returns (ok: bool, subdirs: map<string, Tree>, hashSrcSubdirs: set<string>)
    requires Distinct(diSrcSubdirs) && forall n :: n in diSrcSubdirs ==> n in src.subdirs
    modifies results
    decreases src, 1
    ensures ChildrenLeft(src, d, diSrcSubdirs, prm, subdirs)
    ensures ok <==> forall n :: n in diSrcSubdirs ==>
                      Runs(src.subdirs[n], Lookup(d.subdirs, n), prm, fails, path + [n])
    ensures ok ==> hashSrcSubdirs == ToSet(diSrcSubdirs)
    ensures ok ==> subdirs == SyncedOver(src, d, diSrcSubdirs, prm)
    ensures ok ==> results.Value() == Add(old(results.Value()), SumCounters(ToSet(diSrcSubdirs), ChildDeltas(src, d, prm)))
    ensures Le(old(results.Value()), results.Value())
    ensures Le(results.Value(), Add(old(results.Value()), SumCounters(ToSet(diSrcSubdirs), ChildDeltas(src, d, prm))))
  {
    ghost var f := ChildDeltas(src, d, prm);
    ghost var start := results.Value();
    ghost var all := ToSet(diSrcSubdirs);
    ToSetMembers(diSrcSubdirs);
    subdirs := d.subdirs;
    hashSrcSubdirs := {};
    for i := 0 to |diSrcSubdirs|
      invariant hashSrcSubdirs == ToSet(diSrcSubdirs[..i])
      invariant ChildrenRun(src, d, diSrcSubdirs[..i], prm, fails, path)
      invariant subdirs == SyncedOver(src, d, diSrcSubdirs[..i], prm)
      invariant results.Value() == Add(start, SumCounters(hashSrcSubdirs, f))
    {
      var diSrcSubdir := diSrcSubdirs[i];
      ToSetStep(diSrcSubdirs, i);
      ChildrenStep(src, d, diSrcSubdirs, i, prm, fails, path);
      ToSetMembers(diSrcSubdirs[..i]);
      assert diSrcSubdir !in hashSrcSubdirs;
      ToSetMembers(diSrcSubdirs[..i + 1]);
      ghost var before := results.Value();
      var childOk, child := SyncChild(src, d, diSrcSubdir, prm, fails, path, results);
      TurnCounts(start, before, results.Value(), hashSrcSubdirs, diSrcSubdir, all, f, childOk);
      hashSrcSubdirs := hashSrcSubdirs + {diSrcSubdir};
      if !childOk {
        ghost var subdirsBefore := subdirs;
        subdirs := if child.Some? then subdirs[diSrcSubdir := child.value] else subdirs;
        SyncedOverLeft(src, d, diSrcSubdirs[..i], prm);
        DistinctPrefix(diSrcSubdirs, i);
        ChildLeftStep(src, d, diSrcSubdirs, i, prm, subdirsBefore, child, subdirs);
        ChildrenLeftWiden(src, d, diSrcSubdirs[..i + 1], diSrcSubdirs, prm, subdirs);
        return false, subdirs, hashSrcSubdirs;
      }
      subdirs := subdirs[diSrcSubdir := child.value];
    }
    assert diSrcSubdirs[..|diSrcSubdirs|] == diSrcSubdirs;
    SyncedOverLeft(src, d, diSrcSubdirs, prm);
    ChildrenRunAll(src, d, diSrcSubdirs, prm, fails, path);
    LeAdd(start, SumCounters(all, f));
    ok := true;
  }

  /** One turn of the subdirectory deletion loop: a destination
      subdirectory that the source listing lacks and the delete-exclusion
      list does not spare is deleted, whole. `ok` is false when the deletion
      throws, leaving the subdirectory in place with its read-only flags
      cleared. */
  method DeleteOneSubdir(name: string, inSource: bool, t: Tree, subdirs0: map<string, Tree>,
                         prm: Params, fails: set<Path>, path: Path)
    returns (ok: bool, deleted: bool, subdirs: map<string, Tree>)
    ensures deleted <==> !inSource && !ShouldExclude(prm.deleteExcludeDirs, None, name)
    ensures ok <==> !deleted || path + [name] !in fails
    ensures !deleted ==> subdirs == subdirs0
    ensures ok && deleted ==> subdirs == subdirs0 - {name}
    ensures !ok ==> subdirs == subdirs0[name := Cleared(t)]
  {
    subdirs := subdirs0;
    deleted := false;
    if !inSource {
      if !ShouldExclude(prm.deleteExcludeDirs, None, name) {
        deleted := true;
        var removed, rest := DeleteDirectory(t, path + [name] in fails);
        if !removed {
          return false, deleted, subdirs[name := rest.value];
        }
        subdirs := subdirs - {name};
      }
    }
    ok := true;
  }

  /** The loop deleting destination subdirectories that the source listing
      lacks. The count is the rise of DirectoriesDeleted, up to a deletion that throws. */
  method DeleteSubdirs(diDestSubdirs: seq<string>, d: Tree, hashSrcSubdirs: set<string>, subdirs0: map<string, Tree>,
                       prm: Params, fails: set<Path>, path: Path, ghost del: set<string>)
    returns (ok: bool, subdirs: map<string, Tree>, directoriesDeleted: nat)
    requires prm.deleteFromDest
    requires Distinct(diDestSubdirs) && forall n :: n in diDestSubdirs <==> n in d.subdirs
    requires forall n :: n in del ==> n in d.subdirs && n in subdirs0 && subdirs0[n] == d.subdirs[n]
    requires forall n :: n in d.subdirs ==>
               (n in del <==> n !in hashSrcSubdirs && !ShouldExclude(prm.deleteExcludeDirs, None, n))
    ensures ok <==> forall n :: n in del ==> path + [n] !in fails
    ensures ok ==> subdirs == subdirs0 - del
    ensures forall n :: Lookup(subdirs, n) == Lookup(subdirs0, n)
                        || (n in del && (n !in subdirs || subdirs[n] == Cleared(subdirs0[n])))
    ensures directoriesDeleted <= Count(diDestSubdirs, del)
    ensures ok ==> directoriesDeleted == Count(diDestSubdirs, del)
  {
    subdirs := subdirs0;
    directoriesDeleted := 0;
    for i := 0 to |diDestSubdirs|
      invariant NoneFail(diDestSubdirs[..i], del, fails, path)
      invariant subdirs == RemovedFrom(subdirs0, diDestSubdirs[..i], del)
      invariant directoriesDeleted == Count(diDestSubdirs[..i], del)
    {
      var diDestSubdir := diDestSubdirs[i];
      NoneFailStep(diDestSubdirs, i, del, fails, path);
      RemovedFromStep(subdirs0, diDestSubdirs, i, del);
      PrefixStep(diDestSubdirs, i, del);
      var deletedOk, deleted;
      deletedOk, deleted, subdirs := DeleteOneSubdir(diDestSubdir, diDestSubdir in hashSrcSubdirs,
                                                     d.subdirs[diDestSubdir], subdirs, prm, fails, path);
      assert deleted <==> diDestSubdir in del;
      if !deletedOk {
        CountPrefix(diDestSubdirs, i, del);
        DistinctPrefix(diDestSubdirs, i);
        DeleteFailedLeft(subdirs0, diDestSubdirs[..i], del, diDestSubdir, subdirs, Cleared);
        return false, subdirs, directoriesDeleted;
      }
      if deleted {
        directoriesDeleted := directoriesDeleted + 1;
      }
    }
    assert diDestSubdirs[..|diDestSubdirs|] == diDestSubdirs;
    NoneFailAll(diDestSubdirs, del, fails, path);
    RemovedFromAll(subdirs0, diDestSubdirs, del);
    ok := true;
  }

  /** The subdirectory map the directory half assembles is the one SyncedDirs describes. */
  lemma SyncedDirsShape(src: Tree, d: Tree, prm: Params, subdirs: map<string, Tree>)
    requires var fd := SelectedDirs(src, prm);
             subdirs == (d.subdirs + map n | n in fd :: Synced(src.subdirs[n], Lookup(d.subdirs, n), prm))
                        - DirsToDelete(fd, d.subdirs, prm)
    ensures subdirs == SyncedDirs(src, d, prm)
  {
  }

  /** The counters through the directory half: listing adds the dropped
      subdirectories, the recursion at most the children's rises and the
      deletion pass at most one per subdirectory to delete; a run that gets
      through adds exactly DirsDelta. */
  lemma DirsHalfCounts(start: Counters, afterListing: Counters, recursed: Counters, final: Counters,
                       ignored: nat, deleted: nat, toDelete: nat, children: Counters, whole: Counters, ok: bool)
    requires afterListing == Add(start, Counters(0, 0, 0, 0, 0, 0, ignored))
    requires recursed == Add(afterListing, children)
    requires final == Add(recursed, Counters(0, 0, 0, 0, 0, deleted, 0))
    requires deleted <= toDelete
    requires whole == Add(Counters(0, 0, 0, 0, 0, toDelete, ignored), children)
    requires ok ==> deleted == toDelete
    ensures Le(start, final) && Le(final, Add(start, whole))
    ensures ok ==> final == Add(start, whole)
  {
  }

  /** The counters of a directory half whose recursion failed: never more than DirsDelta. */
  lemma RecursionFailedCounts(start: Counters, afterListing: Counters, recursed: Counters,
                              ignored: nat, toDelete: nat, children: Counters, whole: Counters)
    requires afterListing == Add(start, Counters(0, 0, 0, 0, 0, 0, ignored))
    requires Le(afterListing, recursed) && Le(recursed, Add(afterListing, children))
    requires whole == Add(Counters(0, 0, 0, 0, 0, toDelete, ignored), children)
    ensures Le(start, recursed) && Le(recursed, Add(start, whole))
    ensures Le(recursed, Add(start, Add(Counters(0, 0, 0, 0, 0, 0, ignored), children)))
  {
  }

  /** Lists the subdirectories of the source, filtered, and of the destination. */
  method ListSubdirs(src: Tree, d: Tree, prm: Params, results: Results)
    returns (diSrcSubdirs: seq<string>, diDestSubdirs: seq<string>)
    modifies results
    ensures Distinct(diSrcSubdirs) && forall n :: n in diSrcSubdirs <==> n in SelectedDirs(src, prm)
    ensures Distinct(diDestSubdirs) && forall n :: n in diDestSubdirs <==> n in d.subdirs
    ensures results.Value() ==
              Add(old(results.Value()), Counters(0, 0, 0, 0, 0, 0, |DroppedDirs(src.subdirs, Some(prm))|))
  {
    ghost var native;
    diSrcSubdirs, native := GetDirectories(src, Some(prm), results);
    diDestSubdirs, native := GetDirectories(d, None, results);
  }

  /** The deletion pass of the directory half, after every selected
      subdirectory was synchronised into `subdirs0`. */
  method DeletePassDirs(src: Tree, d: Tree, prm: Params, fails: set<Path>, path: Path,
                        diDestSubdirs: seq<string>, hashSrcSubdirs: set<string>, subdirs0: map<string, Tree>)
    returns (ok: bool, subdirs: map<string, Tree>, directoriesDeleted: nat)
    requires hashSrcSubdirs == SelectedDirs(src, prm)
    requires Distinct(diDestSubdirs) && forall n :: n in diDestSubdirs <==> n in d.subdirs
    requires subdirs0 == d.subdirs + map n | n in SelectedDirs(src, prm) :: Synced(src.subdirs[n], Lookup(d.subdirs, n), prm)
    ensures ok <==> forall n :: n in DirsToDelete(SelectedDirs(src, prm), d.subdirs, prm) ==> path + [n] !in fails
    ensures ok ==> subdirs == SyncedDirs(src, d, prm)
    ensures forall n :: Lookup(subdirs, n) == Lookup(subdirs0, n)
                        || (n in d.subdirs && n in DirsToDelete(SelectedDirs(src, prm), d.subdirs, prm)
                            && (n !in subdirs || subdirs[n] == Cleared(d.subdirs[n])))
    ensures directoriesDeleted <= |DirsToDelete(SelectedDirs(src, prm), d.subdirs, prm)|
    ensures ok ==> directoriesDeleted == |DirsToDelete(SelectedDirs(src, prm), d.subdirs, prm)|
  {
    ghost var fd := SelectedDirs(src, prm);
    if prm.deleteFromDest {
      RemovedCount(diDestSubdirs, d.subdirs.Keys, DirsToDelete(fd, d.subdirs, prm));
      ok, subdirs, directoriesDeleted := DeleteSubdirs(diDestSubdirs, d, hashSrcSubdirs, subdirs0, prm, fails, path,
                                                       DirsToDelete(fd, d.subdirs, prm));
    } else {
      ok, subdirs, directoriesDeleted := true, subdirs0, 0;
      assert DirsToDelete(fd, d.subdirs, prm) == {};
      assert subdirs - DirsToDelete(fd, d.subdirs, prm) == subdirs;
    }
    if ok {
      SyncedDirsShape(src, d, prm, subdirs);
    }
  }

  /** Adds the deletions of the subdirectory deletion pass to DirectoriesDeleted. */
  method CountDeletedDirectories(results: Results, directoriesDeleted: nat)
    modifies results
    ensures results.Value() == Add(old(results.Value()), Counters(0, 0, 0, 0, 0, directoriesDeleted, 0))
  {
    results.directoriesDeleted := results.directoriesDeleted + directoriesDeleted;
  }

  /** The recursion loop's results over a listing of the selected subdirectories. */
  lemma SelectedListing(src: Tree, d: Tree, s: seq<string>, prm: Params)
    requires forall n :: n in s <==> n in SelectedDirs(src, prm)
    ensures forall n :: n in s ==> n in src.subdirs
    ensures ToSet(s) == SelectedDirs(src, prm)
    ensures SyncedOver(src, d, s, prm) ==
              d.subdirs + map n | n in SelectedDirs(src, prm) :: Synced(src.subdirs[n], Lookup(d.subdirs, n), prm)
  {
    ToSetMembers(s);
    SyncedOverAll(src, d, s, prm);
  }

  /** The directory half leaves its subdirectories as DirsLeft allows: the
      recursion leaves each selected one as its run did, and the deletion
      pass, if it started, removes or clears only subdirectories it deletes. */
  lemma DirsLeftFrom(src: Tree, d: Tree, prm: Params, s: seq<string>,
                     recursed: map<string, Tree>, subdirs: map<string, Tree>)
    requires forall n :: n in s <==> n in SelectedDirs(src, prm)
    requires forall n :: n in s ==> n in src.subdirs
    requires ChildrenLeft(src, d, s, prm, recursed)
    requires forall n :: Lookup(subdirs, n) == Lookup(recursed, n)
                        || (n in d.subdirs && n in DirsToDelete(SelectedDirs(src, prm), d.subdirs, prm)
                            && (n !in subdirs || subdirs[n] == Cleared(d.subdirs[n])))
    ensures DirsLeft(src, d, prm, subdirs)
  {
    forall n
      ensures SubdirLeft(src, d, prm, n, Lookup(subdirs, n))
    {
      if Lookup(subdirs, n) == Lookup(recursed, n) {
        assert Lookup(recursed, n) == Lookup(d.subdirs, n)
               || (n in s && Left(src.subdirs[n], Lookup(d.subdirs, n), prm, Lookup(recursed, n)));
      }
    }
  }

  /** Listing, synchronising and deleting the subdirectories of one
      directory: the second half of ProcessDirectory. */
  method SyncDirs(src: Tree, d: Tree, prm: Params, fails: set<Path>, path: Path, results: Results)
    returns (ok: bool, subdirs: map<string, Tree>)
    modifies results
    decreases src, 2
    ensures ok <==> DirsRun(src, d, prm, fails, path)
    ensures ok ==> subdirs == SyncedDirs(src, d, prm)
    ensures DirsLeft(src, d, prm, subdirs)
    ensures !RecursionRuns(src, d, prm, fails, path) ==>
              Le(results.Value(), Add(old(results.Value()), RecursionDelta(src, d, prm)))
              && forall n :: n !in SelectedDirs(src, prm) ==> Lookup(subdirs, n) == Lookup(d.subdirs, n)
    ensures ok ==> results.Value() == Add(old(results.Value()), DirsDelta(src, d, prm))
    ensures Le(old(results.Value()), results.Value())
    ensures Le(results.Value(), Add(old(results.Value()), DirsDelta(src, d, prm)))
  {
    ghost var start := results.Value();
    ghost var fd := SelectedDirs(src, prm);
    ghost var ignored := |DroppedDirs(src.subdirs, Some(prm))|;
    ghost var toDelete := |DirsToDelete(fd, d.subdirs, prm)|;
    ghost var whole := DirsDelta(src, d, prm);

    // list subdirectories and recurse into the selected ones
    var diSrcSubdirs, diDestSubdirs := ListSubdirs(src, d, prm, results);
    ghost var afterListing := results.Value();
    SelectedListing(src, d, diSrcSubdirs, prm);
    ghost var children := SumCounters(ToSet(diSrcSubdirs), ChildDeltas(src, d, prm));
    assert whole == Add(Counters(0, 0, 0, 0, 0, toDelete, ignored), children);
    var hashSrcSubdirs;
    ok, subdirs, hashSrcSubdirs := SyncSubdirs(src, d, diSrcSubdirs, prm, fails, path, results);
    ghost var recursed := results.Value();
    ghost var recursedSubdirs := subdirs;
    if !ok {
      DirsRunFrom(src, d, prm, fails, path, diSrcSubdirs, false, false);
      RecursionFailedCounts(start, afterListing, recursed, ignored, toDelete, children, whole);
      DirsLeftFrom(src, d, prm, diSrcSubdirs, subdirs, subdirs);
      return;
    }

    // delete extra destination subdirectories
    var directoriesDeleted;
    ok, subdirs, directoriesDeleted := DeletePassDirs(src, d, prm, fails, path, diDestSubdirs, hashSrcSubdirs, subdirs);
    DirsRunFrom(src, d, prm, fails, path, diSrcSubdirs, true, ok);
    DirsLeftFrom(src, d, prm, diSrcSubdirs, recursedSubdirs, subdirs);
    CountDeletedDirectories(results, directoriesDeleted);
    DirsHalfCounts(start, afterListing, recursed, results.Value(), ignored, directoriesDeleted, toDelete, children, whole, ok);
  }

  // ---------------------------------------------------------------------------
  // ProcessDirectory and Sync

  /** The counters through the two halves: the file half adds at most its
      FilesDelta and the directory half at most its DirsDelta; both getting
      through add exactly their sum. */
  lemma HalvesCounts(start: Counters, filesDone: Counters, end: Counters, fdl: Counters, ddl: Counters,
                     filesOk: bool, dirsOk: bool)
    requires Le(start, filesDone) && Le(filesDone, Add(start, fdl))
    requires filesOk ==> filesDone == Add(start, fdl)
    requires Le(filesDone, end) && Le(end, Add(filesDone, ddl))
    requires filesOk && dirsOk ==> end == Add(filesDone, ddl)
    ensures Le(start, end) && Le(end, Add(start, Add(fdl, ddl)))
    ensures filesOk && dirsOk ==> end == Add(start, Add(fdl, ddl))
  {
  }

  /** Creates the destination directory when it is missing, counting it. */
  method CreateDirectory(dest: Option<Tree>, fails: set<Path>, path: Path, results: Results)
    returns (ok: bool, diDest: Tree)
    modifies results
    ensures ok <==> dest.Some? || path !in fails
    ensures ok ==> diDest == Base(dest)
    ensures ok ==> results.Value() == Add(old(results.Value()), Created(dest))
    ensures !ok ==> results.Value() == old(results.Value())
  {
    if dest.None? {
      if path in fails {
        return false, EmptyDir;
      }
      results.directoriesCreated := results.directoriesCreated + 1;
      return true, EmptyDir;
    }
    return true, dest.value;
  }

  /** The two halves of ProcessDirectory on an existing destination
      directory `d`. A half that throws ends the run: after a failed copy no
      file is deleted, after a failed file half the subdirectories are not
      touched, and after a failed recursion no subdirectory of `d` is deleted. */
  method SyncContents(src: Tree, d: Tree, prm: Params, fails: set<Path>, path: Path, results: Results)
    returns (ok: bool, files: map<string, FileMeta>, subdirs: map<string, Tree>)
    modifies results
    decreases src, 3
    ensures ok <==> FilesRun(src, d, prm, fails, path) && DirsRun(src, d, prm, fails, path)
    ensures ok ==> files == SyncedFiles(src, d, prm) && subdirs == SyncedDirs(src, d, prm)
    ensures ok ==> results.Value() == Add(old(results.Value()), Add(FilesDelta(src, d, prm), DirsDelta(src, d, prm)))
    ensures Le(old(results.Value()), results.Value())
    ensures Le(results.Value(), Add(old(results.Value()), Add(FilesDelta(src, d, prm), DirsDelta(src, d, prm))))
    ensures FilesLeft(src, d, prm, files) && DirsLeft(src, d, prm, subdirs)
    ensures StagesKept(src, d, prm, fails, path, old(results.Value()), results.Value(), files, subdirs)
  {
    ghost var start := results.Value();
    ok, files := SyncFiles(src, d, prm, fails, path, results);
    ghost var filesDone := results.Value();
    if !ok {
      DirsUntouched(src, d, prm);
      LeAdd(start, Add(FilesDelta(src, d, prm), DirsDelta(src, d, prm)));
      HalvesCounts(start, filesDone, filesDone, FilesDelta(src, d, prm), DirsDelta(src, d, prm), false, false);
      return false, files, d.subdirs;
    }
    ok, subdirs := SyncDirs(src, d, prm, fails, path, results);
    HalvesCounts(start, filesDone, results.Value(), FilesDelta(src, d, prm), DirsDelta(src, d, prm), true, ok);
  }

  /** Subdirectories nobody touched are left as DirsLeft allows. */
  lemma DirsUntouched(src: Tree, d: Tree, prm: Params)
    ensures DirsLeft(src, d, prm, d.subdirs)
  {
    forall n
      ensures SubdirLeft(src, d, prm, n, Lookup(d.subdirs, n))
    {
    }
  }

  /** Synchronises one directory and, through the recursion, everything below
      it. `ok` is the return value, `synced` the destination directory as the
      run leaves it. A run that returns true leaves Synced and raises the
      counters by Delta; it returns true exactly when no operation it needs
      throws. A failing run stops at the first throw and undoes nothing: it
      leaves what Left allows, skips every later stage, and the counters keep
      what they gained so far, never more than Delta. */
  method ProcessDirectory(src: Tree, dest: Option<Tree>, prm: Params, fails: set<Path>, path: Path, results: Results)
    returns (ok: bool, synced: Option<Tree>)
    modifies results
    decreases src, 4
    ensures ok <==> Runs(src, dest, prm, fails, path)
    ensures ok ==> synced == Some(Synced(src, dest, prm))
    ensures ok ==> results.Value() == Add(old(results.Value()), Delta(src, dest, prm))
    ensures Le(old(results.Value()), results.Value())
    ensures Le(results.Value(), Add(old(results.Value()), Delta(src, dest, prm)))
    ensures Left(src, dest, prm, synced)
    ensures dest.None? && path in fails ==> synced == None && results.Value() == old(results.Value())
    ensures dest.Some? || path !in fails ==>
              synced.Some? && synced.value.attrs == Base(dest).attrs
              && StagesKept(src, Base(dest), prm, fails, path, Add(old(results.Value()), Created(dest)), results.Value(),
                            synced.value.files, synced.value.subdirs)
  {
    ghost var start := results.Value();
    ghost var delta := Delta(src, dest, prm);
    assert delta == Add(Created(dest), Add(FilesDelta(src, Base(dest), prm), DirsDelta(src, Base(dest), prm)));

    // create the destination directory if it does not exist
    var diDest;
    ok, diDest := CreateDirectory(dest, fails, path, results);
    if !ok {
      RunsFrom(src, dest, prm, fails, path, false, false, false);
      LeAdd(start, delta);
      return false, None;
    }
    ghost var created := results.Value();

    // copy and delete files, then recurse into and delete subdirectories
    var files, subdirs;
    ok, files, subdirs := SyncContents(src, diDest, prm, fails, path, results);
    RunsFrom(src, dest, prm, fails, path, true, FilesRun(src, diDest, prm, fails, path), DirsRun(src, diDest, prm, fails, path));
    CreatedCounts(start, created, results.Value(), Created(dest),
                  Add(FilesDelta(src, diDest, prm), DirsDelta(src, diDest, prm)),
                  Add(FilesDelta(src, diDest, prm), RecursionDelta(src, diDest, prm)), ok);
    synced := Some(Dir(diDest.attrs, files, subdirs));
  }

  /** The counters through ProcessDirectory: creating the directory adds
      Created, then the halves at most what they may add. */
  lemma CreatedCounts(start: Counters, created: Counters, end: Counters, cr: Counters, halves: Counters,
                      partial: Counters, ok: bool)
    requires created == Add(start, cr)
    requires Le(created, end) && Le(end, Add(created, halves))
    requires ok ==> end == Add(created, halves)
    ensures Le(start, end) && Le(end, Add(start, Add(cr, halves)))
    ensures ok ==> end == Add(start, Add(cr, halves))
    ensures Le(end, Add(created, partial)) ==> Le(end, Add(start, Add(cr, partial)))
  {
  }

  /** Sync: processes the root directories of the run. */
  method Sync(src: Tree, dest: Option<Tree>, prm: Params, fails: set<Path>, results: Results)
    returns (ok: bool, synced: Option<Tree>)
    modifies results
    ensures ok <==> Runs(src, dest, prm, fails, [])
    ensures ok ==> synced == Some(Synced(src, dest, prm))
    ensures ok ==> results.Value() == Add(old(results.Value()), Delta(src, dest, prm))
    ensures Le(old(results.Value()), results.Value())
    ensures Le(results.Value(), Add(old(results.Value()), Delta(src, dest, prm)))
    ensures Left(src, dest, prm, synced)
    ensures dest.None? && [] in fails ==> synced == None && results.Value() == old(results.Value())
    ensures dest.Some? || [] !in fails ==>
              synced.Some? && synced.value.attrs == Base(dest).attrs
              && StagesKept(src, Base(dest), prm, fails, [], Add(old(results.Value()), Created(dest)), results.Value(),
                            synced.value.files, synced.value.subdirs)
  {
    ok, synced := ProcessDirectory(src, dest, prm, fails, [], results);
  }
}

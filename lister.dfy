/**
  Directory listings (GetFiles and GetDirectories in
  Source/BlinkSyncLib/BlinkSync.cs). The filesystem lists a directory in an
  order of its own choosing; with a configuration that filters, the listing
  is then walked with an index and every dropped entry removed in place,
  each removal counted as ignored.
*/
module Lister {
  import opened Wrappers
  import opened FileSpec
  import opened Config
  import opened Filter
  import opened FsTree
  import opened SyncResults

  predicate Distinct(s: seq<string>) {
    forall i, j :: 0 <= i < j < |s| ==> s[i] != s[j]
  }

  /** DirectoryInfo.GetFiles / GetDirectories: every name once, in an order
      the filesystem picks. */
  method Enumerate<T>(m: map<string, T>) returns (names: seq<string>)
    ensures Distinct(names)
    ensures forall n :: n in names <==> n in m
  {
    names := [];
    var left := m.Keys;
    while left != {}
      invariant left <= m.Keys
      invariant Distinct(names)
      invariant forall n :: n in names <==> n in m && n !in left
      decreases left
    {
      var n :| n in left;
      names := names + [n];
      left := left - {n};
    }
  }

  // ---------------------------------------------------------------------------
  // Order-preserving removal and counting

  /** `s` with the names in `drop` removed, the rest in their order. */
  function Without(s: seq<string>, drop: set<string>): (r: seq<string>)
    ensures |r| <= |s|
    ensures forall n :: n in r <==> n in s && n !in drop
  {
    if s == [] then []
    else
      var last := s[|s| - 1];
      Without(s[..|s| - 1], drop) + (if last in drop then [] else [last])
  }

  /** How many entries of `s` lie in `S`. */
  function Count(s: seq<string>, S: set<string>): (c: nat)
    ensures c <= |s|
  {
    if s == [] then 0
    else Count(s[..|s| - 1], S) + (if s[|s| - 1] in S then 1 else 0)
  }

  lemma WithoutNothing(s: seq<string>)
    ensures Without(s, {}) == s
  {
    if s != [] {
      WithoutNothing(s[..|s| - 1]);
      assert s[..|s| - 1] + [s[|s| - 1]] == s;
    }
  }

  lemma {:induction false} WithoutDistinct(s: seq<string>, drop: set<string>)
    requires Distinct(s)
    ensures Distinct(Without(s, drop))
  {
    if s != [] {
      var init := s[..|s| - 1];
      WithoutDistinct(init, drop);
      assert s[|s| - 1] !in init;
    }
  }

  /** One more entry at the end of the prefix. */
  lemma PrefixStep(s: seq<string>, j: nat, drop: set<string>)
    requires j < |s|
    ensures Without(s[..j + 1], drop) == Without(s[..j], drop) + (if s[j] in drop then [] else [s[j]])
    ensures Count(s[..j + 1], drop) == Count(s[..j], drop) + (if s[j] in drop then 1 else 0)
  {
    assert s[..j + 1][..j] == s[..j];
  }

  /** One turn of the removal loop: the entry at the cursor is the next
      native entry; removing it or stepping over it keeps the loop's view. */
  lemma RemoveStep(native: seq<string>, j: nat, drop: set<string>, list: seq<string>, i: nat)
    requires i < |list| && j < |native|
    requires list[..i] == Without(native[..j], drop) && list[i..] == native[j..]
    ensures list[i] == native[j]
    ensures Count(native[..j + 1], drop) == Count(native[..j], drop) + (if native[j] in drop then 1 else 0)
    ensures native[j] in drop ==>
              var shorter := list[..i] + list[i + 1..];
              shorter[..i] == Without(native[..j + 1], drop) && shorter[i..] == native[j + 1..]
    ensures native[j] !in drop ==>
              list[..i + 1] == Without(native[..j + 1], drop) && list[i + 1..] == native[j + 1..]
  {
    assert list[i..][0] == list[i];
    PrefixStep(native, j, drop);
    if native[j] in drop {
      var shorter := list[..i] + list[i + 1..];
      assert shorter[..i] == list[..i];
      assert shorter[i..] == list[i + 1..] == list[i..][1..];
    } else {
      assert list[..i + 1] == list[..i] + [list[i]];
      assert list[i + 1..] == list[i..][1..];
    }
  }

  /** A prefix counts no more than the whole list. */
  lemma {:induction false} CountPrefix(s: seq<string>, i: nat, S: set<string>)
    requires i <= |s|
    ensures Count(s[..i], S) <= Count(s, S)
    decreases |s|
  {
    if i < |s| {
      var init := s[..|s| - 1];
      assert s[..i] == init[..i];
      CountPrefix(init, i, S);
    } else {
      assert s[..i] == s;
    }
  }

  /** Over a list without repeats, the count is the size of the set counted. */
  lemma {:induction false} CountCard(s: seq<string>, S: set<string>)
    requires Distinct(s)
    ensures Count(s, S) == |set n | n in s && n in S|
  {
    if s == [] {
      assert (set n | n in s && n in S) == {};
    } else {
      var init := s[..|s| - 1];
      var last := s[|s| - 1];
      CountCard(init, S);
      var before := set n | n in init && n in S;
      assert last !in init;
      if last in S {
        assert (set n | n in s && n in S) == before + {last};
      } else {
        assert (set n | n in s && n in S) == before;
      }
    }
  }

  // ---------------------------------------------------------------------------
  // The filter applied to a listing

  /** The file test of GetFiles: hidden under ExcludeHidden, or excluded by the file lists. */
  predicate DropsFile(prm: Params, name: string, meta: FileMeta) {
    (prm.excludeHidden && meta.attrs.hidden) || ShouldExclude(prm.excludeFiles, prm.includeFiles, name)
  }

  /** The directory test of GetDirectories, on the directory lists. */
  predicate DropsDir(prm: Params, name: string, sub: Tree) {
    (prm.excludeHidden && sub.attrs.hidden) || ShouldExclude(prm.excludeDirs, prm.includeDirs, name)
  }

  /** The files a listing with `filter` leaves out (none without a filtering configuration). */
  function DroppedFiles(files: map<string, FileMeta>, filter: Option<Params>): set<string> {
    if filter.Some? && filter.value.AreSourceFilesFiltered() then
      set n | n in files && DropsFile(filter.value, n, files[n])
    else {}
  }

  function DroppedDirs(subdirs: map<string, Tree>, filter: Option<Params>): set<string> {
    if filter.Some? && filter.value.AreSourceFilesFiltered() then
      set n | n in subdirs && DropsDir(filter.value, n, subdirs[n])
    else {}
  }

  /** The fast path loses nothing: without a filtering configuration the full
      test would not drop any entry either. */
  lemma FastPathDropsNothing(prm: Params, files: map<string, FileMeta>, subdirs: map<string, Tree>)
    requires !prm.AreSourceFilesFiltered()
    ensures forall n :: n in files ==> !DropsFile(prm, n, files[n])
    ensures forall n :: n in subdirs ==> !DropsDir(prm, n, subdirs[n])
  {
  }

  /** After removing `drop` from a listing of `keys`, the count removed is |drop|. */
  lemma RemovedCount(native: seq<string>, keys: set<string>, drop: set<string>)
    requires Distinct(native) && (forall n :: n in native <==> n in keys) && drop <= keys
    ensures Count(native, drop) == |drop|
  {
    CountCard(native, drop);
    assert (set n | n in native && n in drop) == drop;
  }

  /** The removal loop of GetFiles: walks the listing with an index and
      removes, in place, every file the configuration drops. The dropped
      files are tallied in a local and added to filesIgnored once the walk
      is over; nothing reads the counter in between. */
  method RemoveDroppedFiles(files: map<string, FileMeta>, prm: Params, native: seq<string>, ghost drop: set<string>,
                            results: Results)
    returns (fileList: seq<string>)
    requires forall n :: n in native ==> n in files && (n in drop <==> DropsFile(prm, n, files[n]))
    modifies results`filesIgnored
    ensures fileList == Without(native, drop)
    ensures results.filesIgnored == old(results.filesIgnored) + Count(native, drop)
  {
    fileList := native;
    var i: int := 0;
    var ignored := 0;
    ghost var j: nat := 0;
    while i < |fileList|
      invariant 0 <= i <= |fileList| && j <= |native|
      invariant fileList[..i] == Without(native[..j], drop)
      invariant fileList[i..] == native[j..]
      invariant ignored == Count(native[..j], drop)
      modifies {}
      decreases |fileList| - i
    {
      var fileInfo := fileList[i];
      RemoveStep(native, j, drop, fileList, i);
      assert fileInfo in drop <==> DropsFile(prm, fileInfo, files[fileInfo]);
      if DropsFile(prm, fileInfo, files[fileInfo]) {
        fileList := fileList[..i] + fileList[i + 1..];
        ignored := ignored + 1;
        i := i - 1;
      }
      i := i + 1;
      j := j + 1;
    }
    assert native[j..] == [] && native[..j] == native;
    assert fileList == fileList[..i];
    results.filesIgnored := results.filesIgnored + ignored;
  }

  /** The removal loop of GetDirectories, as RemoveDroppedFiles for subdirectories. */
  method RemoveDroppedDirs(subdirs: map<string, Tree>, prm: Params, native: seq<string>, ghost drop: set<string>,
                           results: Results)
    returns (directoryList: seq<string>)
    requires forall n :: n in native ==> n in subdirs && (n in drop <==> DropsDir(prm, n, subdirs[n]))
    modifies results`directoriesIgnored
    ensures directoryList == Without(native, drop)
    ensures results.directoriesIgnored == old(results.directoriesIgnored) + Count(native, drop)
  {
    directoryList := native;
    var i: int := 0;
    var ignored := 0;
    ghost var j: nat := 0;
    while i < |directoryList|
      invariant 0 <= i <= |directoryList| && j <= |native|
      invariant directoryList[..i] == Without(native[..j], drop)
      invariant directoryList[i..] == native[j..]
      invariant ignored == Count(native[..j], drop)
      modifies {}
      decreases |directoryList| - i
    {
      var subdirInfo := directoryList[i];
      RemoveStep(native, j, drop, directoryList, i);
      assert subdirInfo in drop <==> DropsDir(prm, subdirInfo, subdirs[subdirInfo]);
      if DropsDir(prm, subdirInfo, subdirs[subdirInfo]) {
        directoryList := directoryList[..i] + directoryList[i + 1..];
        ignored := ignored + 1;
        i := i - 1;
      }
      i := i + 1;
      j := j + 1;
    }
    assert native[j..] == [] && native[..j] == native;
    assert directoryList == directoryList[..i];
    results.directoriesIgnored := results.directoriesIgnored + ignored;
  }

  method GetFiles(dir: Tree, filter: Option<Params>, results: Results)
    returns (fileList: seq<string>, ghost native: seq<string>)
    modifies results
    ensures Distinct(native) && forall n :: n in native <==> n in dir.files
    ensures fileList == Without(native, DroppedFiles(dir.files, filter))
    ensures Distinct(fileList)
    ensures forall n :: n in fileList <==> n in dir.files && n !in DroppedFiles(dir.files, filter)
    ensures results.Value() == old(results.Value()).(filesIgnored := old(results.filesIgnored) + |DroppedFiles(dir.files, filter)|)
  {
    var listed := Enumerate(dir.files);
    native, fileList := listed, listed;
    ghost var drop := DroppedFiles(dir.files, filter);
    RemovedCount(native, dir.files.Keys, drop);
    WithoutDistinct(native, drop);
    if filter.Some? && filter.value.AreSourceFilesFiltered() {
      fileList := RemoveDroppedFiles(dir.files, filter.value, listed, drop, results);
    } else {
      WithoutNothing(native);
    }
  }

  method GetDirectories(dir: Tree, filter: Option<Params>, results: Results)
    returns (directoryList: seq<string>, ghost native: seq<string>)
    modifies results
    ensures Distinct(native) && forall n :: n in native <==> n in dir.subdirs
    ensures directoryList == Without(native, DroppedDirs(dir.subdirs, filter))
    ensures Distinct(directoryList)
    ensures forall n :: n in directoryList <==> n in dir.subdirs && n !in DroppedDirs(dir.subdirs, filter)
    ensures results.Value() == old(results.Value()).(directoriesIgnored := old(results.directoriesIgnored) + |DroppedDirs(dir.subdirs, filter)|)
  {
    var listed := Enumerate(dir.subdirs);
    native, directoryList := listed, listed;
    ghost var drop := DroppedDirs(dir.subdirs, filter);
    RemovedCount(native, dir.subdirs.Keys, drop);
    WithoutDistinct(native, drop);
    if filter.Some? && filter.value.AreSourceFilesFiltered() {
      directoryList := RemoveDroppedDirs(dir.subdirs, filter.value, listed, drop, results);
    } else {
      WithoutNothing(native);
    }
  }
}

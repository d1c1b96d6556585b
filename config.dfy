/**
  The run configuration: the settable InputParams object
  (Source/BlinkSyncLib/InputParams.cs), its older public-field copy with the
  derived areSourceFilesFiltered (Source/BlinkSyncLib/BlinkSync.cs), and the
  checks Main makes on a parsed configuration before it synchronises.
  A null pattern list is None; a present one, possibly empty, is Some.
*/
module Config {
  import opened Wrappers
  import opened FileSpec

  type Patterns = Option<seq<Matcher>>

  /** The configuration as ProcessDirectory reads it; nothing changes it during a run. */
  datatype Params = Params(
    isQuiet: bool,
    excludeHidden: bool,
    deleteFromDest: bool,
    excludeFiles: Patterns,
    excludeDirs: Patterns,
    includeFiles: Patterns,
    includeDirs: Patterns,
    deleteExcludeFiles: Patterns,
    deleteExcludeDirs: Patterns)
  {
    /** Whether listing the source needs the filter pass at all. */
    predicate AreSourceFilesFiltered() {
      excludeHidden || includeFiles.Some? || excludeFiles.Some? || includeDirs.Some? || excludeDirs.Some?
    }
  }

  /** The settable configuration object; callers and tests assign its properties one at a time. */
  class InputParams {
    var IsQuiet: bool
    var ExcludeHidden: bool
    var DeleteFromDest: bool
    var ExcludeFiles: Patterns
    var ExcludeDirs: Patterns
    var IncludeFiles: Patterns
    var IncludeDirs: Patterns
    var DeleteExcludeFiles: Patterns
    var DeleteExcludeDirs: Patterns

    /** `new InputParams()`: every flag false and every list null. */
    constructor ()
      ensures !IsQuiet && !ExcludeHidden && !DeleteFromDest
      ensures ExcludeFiles == None && ExcludeDirs == None && IncludeFiles == None && IncludeDirs == None
      ensures DeleteExcludeFiles == None && DeleteExcludeDirs == None
    {
      IsQuiet, ExcludeHidden, DeleteFromDest := false, false, false;
      ExcludeFiles, ExcludeDirs, IncludeFiles, IncludeDirs := None, None, None, None;
      DeleteExcludeFiles, DeleteExcludeDirs := None, None;
    }

    predicate AreSourceFilesFiltered()
      reads this
    {
      ExcludeHidden || IncludeFiles.Some? || ExcludeFiles.Some? || IncludeDirs.Some? || ExcludeDirs.Some?
    }

    /** The values the object holds now, as the reconciler reads them. */
    function Snapshot(): Params
      reads this
    {
      Params(IsQuiet, ExcludeHidden, DeleteFromDest, ExcludeFiles, ExcludeDirs,
             IncludeFiles, IncludeDirs, DeleteExcludeFiles, DeleteExcludeDirs)
    }
  }

  /** The property and the older field-based copy decide alike on every configuration. */
  lemma FilteredAgreesWithLegacy(p: InputParams)
    ensures p.AreSourceFilesFiltered() <==> p.Snapshot().AreSourceFilesFiltered()
  {
  }

  /** Only the five source-side settings decide: two objects that agree on them
      agree on AreSourceFilesFiltered, whatever their IsQuiet, DeleteFromDest
      and delete-exclusion lists. */
  lemma FilteredDependsOnlyOnSourceSettings(a: InputParams, b: InputParams)
    requires a.ExcludeHidden == b.ExcludeHidden
    requires a.IncludeFiles.Some? == b.IncludeFiles.Some? && a.ExcludeFiles.Some? == b.ExcludeFiles.Some?
    requires a.IncludeDirs.Some? == b.IncludeDirs.Some? && a.ExcludeDirs.Some? == b.ExcludeDirs.Some?
    ensures a.AreSourceFilesFiltered() <==> b.AreSourceFilesFiltered()
  {
  }

  /** Delete-exclusion lists never switch the filter on or off. */
  lemma DeleteExclusionsDoNotFilter(p: Params, files: Patterns, dirs: Patterns)
    ensures p.(deleteExcludeFiles := files, deleteExcludeDirs := dirs).AreSourceFilesFiltered()
            <==> p.AreSourceFilesFiltered()
  {
  }

  /** Neither does quiet mode or deletion. */
  lemma QuietAndDeleteDoNotFilter(p: Params, quiet: bool, delete: bool)
    ensures p.(isQuiet := quiet, deleteFromDest := delete).AreSourceFilesFiltered()
            <==> p.AreSourceFilesFiltered()
  {
  }

  /** ExcludeHidden with every list null is enough to filter. */
  lemma ExcludeHiddenAloneFilters(p: Params)
    requires p.excludeHidden
    requires p.includeFiles.None? && p.excludeFiles.None? && p.includeDirs.None? && p.excludeDirs.None?
    ensures p.AreSourceFilesFiltered()
  {
  }

  /** A present list filters even when it is empty. */
  lemma EmptyListFilters(p: Params)
    requires p.includeFiles == Some([])
    ensures p.AreSourceFilesFiltered()
  {
  }

  // ---------------------------------------------------------------------------
  // The checks Main makes before it synchronises

  /** Why Main exits with code 2 instead of synchronising. */
  datatype Rejection =
    | ConflictingFilters          // -if with -xf, or -id with -xd
    | DirectoriesContainEachOther
    | DeleteExclusionsNeedDelete  // -ndf or -ndd without -d
    | SourceNotFound

  predicate StartsWith(s: string, prefix: string) {
    |prefix| <= |s| && s[..|prefix|] == prefix
  }

  /** The containment test as the program writes it: each raw argument is
      compared with the full path of the other. */
  predicate ContainAsWritten(srcDir: string, destDir: string, fullSrcDir: string, fullDestDir: string) {
    StartsWith(destDir, fullSrcDir) || StartsWith(srcDir, fullDestDir)
  }

  /** The four checks in the order Main makes them. `fullSrcDir`/`fullDestDir`
      are what Path.GetFullPath returns and `srcExists` what Directory.Exists
      says; both are inputs here. */
  function CheckAsWritten(p: Params, srcDir: string, destDir: string, fullSrcDir: string, fullDestDir: string,
                          srcExists: bool): (r: Option<Rejection>)
    ensures r.None? <==>
              && (p.includeFiles.None? || p.excludeFiles.None?)
              && (p.includeDirs.None? || p.excludeDirs.None?)
              && !ContainAsWritten(srcDir, destDir, fullSrcDir, fullDestDir)
              && (p.deleteFromDest || (p.deleteExcludeFiles.None? && p.deleteExcludeDirs.None?))
              && srcExists
  {
    if (p.includeFiles.Some? && p.excludeFiles.Some?) || (p.includeDirs.Some? && p.excludeDirs.Some?) then
      Some(ConflictingFilters)
    else if ContainAsWritten(srcDir, destDir, fullSrcDir, fullDestDir) then
      Some(DirectoriesContainEachOther)
    else if (p.deleteExcludeFiles.Some? || p.deleteExcludeDirs.Some?) && !p.deleteFromDest then
      Some(DeleteExclusionsNeedDelete)
    else if !srcExists then
      Some(SourceNotFound)
    else
      None
  }

  /** With a relative destination inside the source, the raw destination never
      starts with the full source path, so the run goes ahead and the source
      tree would come to hold the destination it is copied into. */
  lemma RelativeNestedAccepted()
    ensures var p := Params(false, false, false, None, None, None, None, None, None);
            && Within("C:\\work\\src\\out", "C:\\work\\src")
            && CheckAsWritten(p, "src", "src\\out", "C:\\work\\src", "C:\\work\\src\\out", true) == None
  {
    var p := Params(false, false, false, None, None, None, None, None, None);
    assert !StartsWith("src\\out", "C:\\work\\src");
    assert !StartsWith("src", "C:\\work\\src\\out");
  }

  /** A character-wise prefix also rejects siblings that merely share a prefix. */
  lemma SiblingRejected()
    ensures var p := Params(false, false, false, None, None, None, None, None, None);
            && !Within("C:\\data2", "C:\\data") && !Within("C:\\data", "C:\\data2")
            && CheckAsWritten(p, "C:\\data", "C:\\data2", "C:\\data", "C:\\data2", true) == Some(DirectoriesContainEachOther)
  {
    assert "C:\\data2"[..|"C:\\data"|] == "C:\\data";
    assert "C:\\data2"[7] == '2';
  }

  /** `inner` names `outer` itself or a path below it: `outer` is a prefix that
      ends at a path separator of `inner`. */
  predicate Within(inner: string, outer: string) {
    StartsWith(inner, outer)
    && (|inner| == |outer| || (|outer| > 0 && outer[|outer| - 1] == '\\') || inner[|outer|] == '\\')
  }

  /** The containment test compared on full paths, component by component. */
  predicate Contain(fullSrcDir: string, fullDestDir: string) {
    Within(fullDestDir, fullSrcDir) || Within(fullSrcDir, fullDestDir)
  }

  /** The checks with the containment test made on the full paths. */
  function CheckInvocation(p: Params, fullSrcDir: string, fullDestDir: string, srcExists: bool): (r: Option<Rejection>)
    ensures r.None? <==>
              && (p.includeFiles.None? || p.excludeFiles.None?)
              && (p.includeDirs.None? || p.excludeDirs.None?)
              && !Contain(fullSrcDir, fullDestDir)
              && (p.deleteFromDest || (p.deleteExcludeFiles.None? && p.deleteExcludeDirs.None?))
              && srcExists
  {
    if (p.includeFiles.Some? && p.excludeFiles.Some?) || (p.includeDirs.Some? && p.excludeDirs.Some?) then
      Some(ConflictingFilters)
    else if Contain(fullSrcDir, fullDestDir) then
      Some(DirectoriesContainEachOther)
    else if (p.deleteExcludeFiles.Some? || p.deleteExcludeDirs.Some?) && !p.deleteFromDest then
      Some(DeleteExclusionsNeedDelete)
    else if !srcExists then
      Some(SourceNotFound)
    else
      None
  }

  /** An accepted configuration never consults an include list beside an
      exclude list, only has delete exclusions when it deletes, and neither
      directory lies inside the other. */
  lemma AcceptedIsConsistent(p: Params, fullSrcDir: string, fullDestDir: string, srcExists: bool)
    requires CheckInvocation(p, fullSrcDir, fullDestDir, srcExists).None?
    ensures p.excludeFiles.Some? ==> p.includeFiles.None?
    ensures p.excludeDirs.Some? ==> p.includeDirs.None?
    ensures p.deleteExcludeFiles.Some? || p.deleteExcludeDirs.Some? ==> p.deleteFromDest
    ensures !StartsWith(fullDestDir, fullSrcDir + "\\") && !StartsWith(fullSrcDir, fullDestDir + "\\")
    ensures fullSrcDir != fullDestDir
  {
    if StartsWith(fullDestDir, fullSrcDir + "\\") {
      assert fullDestDir[|fullSrcDir|] == (fullSrcDir + "\\")[|fullSrcDir|];
      assert fullDestDir[..|fullSrcDir|] == (fullSrcDir + "\\")[..|fullSrcDir|];
      assert Within(fullDestDir, fullSrcDir);
    }
    if StartsWith(fullSrcDir, fullDestDir + "\\") {
      assert fullSrcDir[|fullDestDir|] == (fullDestDir + "\\")[|fullDestDir|];
      assert fullSrcDir[..|fullDestDir|] == (fullDestDir + "\\")[..|fullDestDir|];
      assert Within(fullSrcDir, fullDestDir);
    }
  }

  /** Two different entries of one parent directory are accepted as source and destination. */
  lemma SiblingsAccepted(parent: string, a: string, b: string)
    requires a != b && a != [] && b != []
    requires '\\' !in a && '\\' !in b
    ensures !Contain(parent + "\\" + a, parent + "\\" + b)
  {
    SiblingNotWithin(parent, a, b);
    SiblingNotWithin(parent, b, a);
  }

  lemma SiblingNotWithin(parent: string, a: string, b: string)
    requires a != b && a != [] && b != []
    requires '\\' !in a && '\\' !in b
    ensures !Within(parent + "\\" + b, parent + "\\" + a)
  {
    var outer := parent + "\\" + a;
    var inner := parent + "\\" + b;
    var n := |parent| + 1;
    if StartsWith(inner, outer) {
      assert forall k :: 0 <= k < |a| ==> b[k] == inner[n + k] == outer[n + k] == a[k];
      assert |inner| > |outer| ==> outer[|outer| - 1] == a[|a| - 1] && inner[|outer|] == b[|a|];
    }
  }
}

/**
  Removing a whole destination subtree (DeleteDirectory in
  Source/BlinkSyncLib/BlinkSync.cs): read-only is cleared on every file and
  directory of the subtree, then the subtree is removed recursively. A
  recursive removal refuses a subtree that still holds a read-only entry.
*/
module Eraser {
  import opened Wrappers
  import opened FsTree
  import opened Lister

  function ClearFile(m: FileMeta): FileMeta {
    m.(attrs := m.attrs.(readOnly := false))
  }

  /** The subtree with read-only cleared everywhere and nothing else changed. */
  function Cleared(t: Tree): Tree {
    Dir(t.attrs.(readOnly := false),
        map n | n in t.files :: ClearFile(t.files[n]),
        map n | n in t.subdirs :: Cleared(t.subdirs[n]))
  }

  /** No entry of the subtree is read-only. */
  predicate Writable(t: Tree) {
    && !t.attrs.readOnly
    && (forall n :: n in t.files ==> !t.files[n].attrs.readOnly)
    && (forall n :: n in t.subdirs ==> Writable(t.subdirs[n]))
  }

  /** The same names, recursively, and the same metadata apart from read-only. */
  predicate SameButReadOnly(t: Tree, u: Tree) {
    && t.attrs.(readOnly := false) == u.attrs.(readOnly := false)
    && t.files.Keys == u.files.Keys
    && (forall n :: n in t.files ==> ClearFile(t.files[n]) == ClearFile(u.files[n]))
    && t.subdirs.Keys == u.subdirs.Keys
    && (forall n :: n in t.subdirs ==> SameButReadOnly(t.subdirs[n], u.subdirs[n]))
  }

  lemma {:induction false} ClearedIsWritable(t: Tree)
    ensures Writable(Cleared(t))
  {
    forall n | n in t.subdirs
      ensures Writable(Cleared(t.subdirs[n]))
    {
      ClearedIsWritable(t.subdirs[n]);
    }
  }

  lemma {:induction false} ClearedKeepsEverythingElse(t: Tree)
    ensures SameButReadOnly(t, Cleared(t))
  {
    forall n | n in t.subdirs
      ensures SameButReadOnly(t.subdirs[n], Cleared(t.subdirs[n]))
    {
      ClearedKeepsEverythingElse(t.subdirs[n]);
    }
  }

  /** Clearing a subtree with nothing read-only in it changes nothing. */
  lemma {:induction false} ClearWritableIsIdentity(t: Tree)
    requires Writable(t)
    ensures Cleared(t) == t
  {
    forall n | n in t.subdirs
      ensures Cleared(t.subdirs[n]) == t.subdirs[n]
    {
      ClearWritableIsIdentity(t.subdirs[n]);
    }
    assert (map n | n in t.files :: ClearFile(t.files[n])) == t.files;
    assert (map n | n in t.subdirs :: Cleared(t.subdirs[n])) == t.subdirs;
  }

  /** The file loop: every file that is read-only loses the flag. */
  method ClearFiles(files0: map<string, FileMeta>) returns (files: map<string, FileMeta>)
    ensures files == map n | n in files0 :: ClearFile(files0[n])
  {
    var fileNames := Enumerate(files0);
    files := files0;
    ghost var done: set<string> := {};
    for i := 0 to |fileNames|
      invariant done == set k | 0 <= k < i :: fileNames[k]
      invariant files.Keys == files0.Keys
      invariant forall n :: n in files ==> files[n] == if n in done then ClearFile(files0[n]) else files0[n]
    {
      var fileInfo := fileNames[i];
      if files[fileInfo].attrs.readOnly {
        files := files[fileInfo := ClearFile(files[fileInfo])];
      }
      done := done + {fileInfo};
    }
    assert forall n :: n in files0 ==> n in done by {
      forall n | n in files0 ensures n in done {
        var k :| 0 <= k < |fileNames| && fileNames[k] == n;
      }
    }
  }

  /** The directory loop, recursing into every subdirectory. */
  method ClearSubdirs(subdirs0: map<string, Tree>, ghost parent: Tree) returns (subdirs: map<string, Tree>)
    requires subdirs0 == parent.subdirs
    ensures subdirs == map n | n in subdirs0 :: Cleared(subdirs0[n])
    decreases parent, 0
  {
    var dirNames := Enumerate(subdirs0);
    subdirs := subdirs0;
    ghost var done: set<string> := {};
    for i := 0 to |dirNames|
      invariant done == set k | 0 <= k < i :: dirNames[k]
      invariant subdirs.Keys == subdirs0.Keys
      invariant forall n :: n in subdirs ==> subdirs[n] == if n in done then Cleared(subdirs0[n]) else subdirs0[n]
    {
      var subdir := dirNames[i];
      var cleared := ClearReadOnly(subdirs0[subdir]);
      subdirs := subdirs[subdir := cleared];
      done := done + {subdir};
    }
    assert forall n :: n in subdirs0 ==> n in done by {
      forall n | n in subdirs0 ensures n in done {
        var k :| 0 <= k < |dirNames| && dirNames[k] == n;
      }
    }
  }

  /** Clears read-only on every file, every subdirectory and the directory itself. */
  method ClearReadOnly(t: Tree) returns (r: Tree)
    ensures r == Cleared(t)
    decreases t, 1
  {
    var files := ClearFiles(t.files);
    var subdirs := ClearSubdirs(t.subdirs, t);
    var attrs := t.attrs;
    if attrs.readOnly {
      attrs := attrs.(readOnly := false);
    }
    r := Dir(attrs, files, subdirs);
  }

  /** DirectoryInfo.Delete(true): fails when told to, or on a read-only entry. */
  function RemoveTree(t: Tree, failing: bool): (ok: bool) {
    !failing && Writable(t)
  }

  /** DeleteDirectory: `ok` is false when it throws. On success the subtree is
      gone (None); on failure it stays, cleared of read-only. The clearing
      makes the removal depend only on `failing`. */
  method DeleteDirectory(t: Tree, failing: bool) returns (ok: bool, rest: Option<Tree>)
    ensures ok <==> !failing
    ensures ok ==> rest.None?
    ensures !ok ==> rest == Some(Cleared(t))
  {
    var cleared := ClearReadOnly(t);
    ClearedIsWritable(t);
    ok := RemoveTree(cleared, failing);
    rest := if ok then None else Some(cleared);
  }
}

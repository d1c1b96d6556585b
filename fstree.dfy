/**
  The in-memory directory tree standing for the disk. A directory maps names
  to file metadata and to subdirectories; FileInfo's Length, LastWriteTime
  and Attributes are the fields of FileMeta, and comparing Attributes is
  comparing Attrs values.
*/
module FsTree {
  import opened Wrappers

  /** FileAttributes: the two flags the program tests, and the rest of the bits. */
  datatype Attrs = Attrs(readOnly: bool, hidden: bool, other: nat)

  datatype FileMeta = FileMeta(length: nat, writeTime: int, attrs: Attrs)

  datatype Tree = Dir(attrs: Attrs, files: map<string, FileMeta>, subdirs: map<string, Tree>)

  /** A path below the root of a run: the names walked from the root. */
  type Path = seq<string>

  /** The attributes DirectoryInfo.Create gives a new directory. */
  const NewDirAttrs := Attrs(false, false, 0)

  /** A newly created, empty directory. */
  const EmptyDir := Dir(NewDirAttrs, map[], map[])

  /** The entry of `m` at `name`, or None when there is none (a Hashtable lookup giving null). */
  function Lookup<T>(m: map<string, T>, name: string): (r: Option<T>)
    ensures r.Some? <==> name in m
    ensures r.Some? ==> r.value == m[name]
  {
    if name in m then Some(m[name]) else None
  }
}

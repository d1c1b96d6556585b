/**
  The seven run counters (class Results in Source/BlinkSyncLib/BlinkSync.cs,
  the record SyncResults in Source/BlinkSyncLib/SyncResults.cs). Every counter
  only ever goes up during a run.
*/
module SyncResults {
  import opened Wrappers

  /** A snapshot of the seven counters. */
  datatype Counters = Counters(
    filesCopied: nat,
    filesUpToDate: nat,
    filesDeleted: nat,
    filesIgnored: nat,
    directoriesCreated: nat,
    directoriesDeleted: nat,
    directoriesIgnored: nat)

  const Zero := Counters(0, 0, 0, 0, 0, 0, 0)

  function Add(a: Counters, b: Counters): Counters {
    Counters(
      a.filesCopied + b.filesCopied,
      a.filesUpToDate + b.filesUpToDate,
      a.filesDeleted + b.filesDeleted,
      a.filesIgnored + b.filesIgnored,
      a.directoriesCreated + b.directoriesCreated,
      a.directoriesDeleted + b.directoriesDeleted,
      a.directoriesIgnored + b.directoriesIgnored)
  }

  /** Counter by counter, `a` is at most `b`. */
  predicate Le(a: Counters, b: Counters) {
    && a.filesCopied <= b.filesCopied
    && a.filesUpToDate <= b.filesUpToDate
    && a.filesDeleted <= b.filesDeleted
    && a.filesIgnored <= b.filesIgnored
    && a.directoriesCreated <= b.directoriesCreated
    && a.directoriesDeleted <= b.directoriesDeleted
    && a.directoriesIgnored <= b.directoriesIgnored
  }

  lemma LeAdd(a: Counters, b: Counters)
    ensures Le(a, Add(a, b))
  {
  }

  lemma LeTrans(a: Counters, b: Counters, c: Counters)
    requires Le(a, b) && Le(b, c)
    ensures Le(a, c)
  {
  }

  lemma AddMonotone(a: Counters, x: Counters, y: Counters)
    requires Le(x, y)
    ensures Le(Add(a, x), Add(a, y))
  {
  }

  /** Two stages that each raise the counters by at most `x` and `y` raise
      them by at most anything above `x + y`, and never lower them. */
  lemma Stages(start: Counters, mid: Counters, end: Counters, x: Counters, y: Counters, whole: Counters)
    requires Le(start, mid) && Le(mid, Add(start, x))
    requires Le(mid, end) && Le(end, Add(mid, y))
    requires Le(Add(x, y), whole)
    ensures Le(start, end) && Le(end, Add(start, whole))
  {
  }

  /** Zero adds nothing. */
  lemma AddZero(c: Counters)
    ensures Add(Zero, c) == c
  {
  }

  /** Adding in two steps is adding the sum. */
  lemma AddAssoc(a: Counters, b: Counters, c: Counters)
    ensures Add(Add(a, b), c) == Add(a, Add(b, c))
  {
  }

  /** The counters, in the order CompareTo checks them. */
  datatype Counter =
    | FilesCopied | FilesUpToDate | FilesDeleted | FilesIgnored
    | DirectoriesCreated | DirectoriesDeleted | DirectoriesIgnored

  function Rank(k: Counter): nat {
    match k
    case FilesCopied => 0
    case FilesUpToDate => 1
    case FilesDeleted => 2
    case FilesIgnored => 3
    case DirectoriesCreated => 4
    case DirectoriesDeleted => 5
    case DirectoriesIgnored => 6
  }

  function Get(c: Counters, k: Counter): nat {
    match k
    case FilesCopied => c.filesCopied
    case FilesUpToDate => c.filesUpToDate
    case FilesDeleted => c.filesDeleted
    case FilesIgnored => c.filesIgnored
    case DirectoriesCreated => c.directoriesCreated
    case DirectoriesDeleted => c.directoriesDeleted
    case DirectoriesIgnored => c.directoriesIgnored
  }

  /** The mutable counters object that ProcessDirectory receives by reference. */
  class Results {
    var filesCopied: nat
    var filesUpToDate: nat
    var filesDeleted: nat
    var filesIgnored: nat
    var directoriesCreated: nat
    var directoriesDeleted: nat
    var directoriesIgnored: nat

    function Value(): Counters
      reads this
    {
      Counters(filesCopied, filesUpToDate, filesDeleted, filesIgnored,
               directoriesCreated, directoriesDeleted, directoriesIgnored)
    }

    /** `new Results()`: every counter starts at zero. */
    constructor ()
      ensures Value() == Zero
    {
      filesCopied, filesUpToDate, filesDeleted, filesIgnored := 0, 0, 0, 0;
      directoriesCreated, directoriesDeleted, directoriesIgnored := 0, 0, 0;
    }

    /** Results.Set: assigns exactly the seven counters. */
    method Set(theFilesCopied: nat, theFilesUpToDate: nat, theFilesDeleted: nat, theFilesIgnored: nat,
               theDirectoriesCreated: nat, theDirectoriesDeleted: nat, theDirectoriesIgnored: nat)
      modifies this
      ensures Value() == Counters(theFilesCopied, theFilesUpToDate, theFilesDeleted, theFilesIgnored,
                                  theDirectoriesCreated, theDirectoriesDeleted, theDirectoriesIgnored)
    {
      filesCopied := theFilesCopied;
      filesUpToDate := theFilesUpToDate;
      filesDeleted := theFilesDeleted;
      filesIgnored := theFilesIgnored;
      directoriesCreated := theDirectoriesCreated;
      directoriesDeleted := theDirectoriesDeleted;
      directoriesIgnored := theDirectoriesIgnored;
    }

    /** Results.CompareTo: `equal` is the return value; `mismatch` names the
        counter whose "Result mismatch" line goes to the error stream. The
        first counter that differs, in the fixed order, decides. */
    method CompareTo(other: Results) returns (equal: bool, mismatch: Option<Counter>)
      ensures equal <==> Value() == other.Value()
      ensures equal <==> mismatch.None?
      ensures mismatch.Some? ==>
                Get(Value(), mismatch.value) != Get(other.Value(), mismatch.value)
                && forall k :: Rank(k) < Rank(mismatch.value) ==> Get(Value(), k) == Get(other.Value(), k)
    {
      if filesCopied != other.filesCopied {
        return false, Some(FilesCopied);
      }
      if filesUpToDate != other.filesUpToDate {
        return false, Some(FilesUpToDate);
      }
      if filesDeleted != other.filesDeleted {
        return false, Some(FilesDeleted);
      }
      if filesIgnored != other.filesIgnored {
        return false, Some(FilesIgnored);
      }
      if directoriesCreated != other.directoriesCreated {
        return false, Some(DirectoriesCreated);
      }
      if directoriesDeleted != other.directoriesDeleted {
        return false, Some(DirectoriesDeleted);
      }
      if directoriesIgnored != other.directoriesIgnored {
        return false, Some(DirectoriesIgnored);
      }
      return true, None;
    }
  }

  // ---------------------------------------------------------------------------
  // Sums of counters over the children of a directory

  /** The sum of `f(k)` over the names in `keys` (in no particular order). */
  ghost function SumCounters(keys: set<string>, f: string -> Counters): Counters
  {
    if keys == {} then Zero
    else
      var k :| k in keys;
      Add(f(k), SumCounters(keys - {k}, f))
  }

  lemma {:induction false} SumCountersRemove(keys: set<string>, f: string -> Counters, x: string)
    requires x in keys
    ensures SumCounters(keys, f) == Add(f(x), SumCounters(keys - {x}, f))
    decreases |keys|
  {
    var y :| y in keys && SumCounters(keys, f) == Add(f(y), SumCounters(keys - {y}, f));
    if y != x {
      var both := keys - {y} - {x};
      assert keys - {x} - {y} == both;
      SumCountersRemove(keys - {y}, f, x);
      SumCountersRemove(keys - {x}, f, y);
      assert SumCounters(keys, f) == Add(f(y), Add(f(x), SumCounters(both, f)));
      assert SumCounters(keys - {x}, f) == Add(f(y), SumCounters(both, f));
    }
  }

  /** Adding one more name adds its term. */
  lemma SumCountersInsert(keys: set<string>, f: string -> Counters, x: string)
    requires x !in keys
    ensures SumCounters(keys + {x}, f) == Add(SumCounters(keys, f), f(x))
  {
    SumCountersRemove(keys + {x}, f, x);
    assert keys + {x} - {x} == keys;
  }

  /** A sum over fewer names is at most the sum over more. */
  lemma {:induction false} SumCountersMonotone(small: set<string>, big: set<string>, f: string -> Counters)
    requires small <= big
    ensures Le(SumCounters(small, f), SumCounters(big, f))
    decreases |big|
  {
    if small != big {
      assert !(big <= small);
      var x :| x in big && x !in small;
      SumCountersRemove(big, f, x);
      SumCountersMonotone(small, big - {x}, f);
    }
  }

  /** Sums agree when the terms agree. */
  lemma {:induction false} SumCountersCongruent(keys: set<string>, f: string -> Counters, g: string -> Counters)
    requires forall k :: k in keys ==> f(k) == g(k)
    ensures SumCounters(keys, f) == SumCounters(keys, g)
    decreases |keys|
  {
    if keys != {} {
      var x :| x in keys;
      SumCountersRemove(keys, f, x);
      SumCountersRemove(keys, g, x);
      SumCountersCongruent(keys - {x}, f, g);
    }
  }
}

/**
  What a pass over a listing has done after its first entries, as functions
  of that prefix of the listing. Each pass of ProcessDirectory walks a
  listing front to back, so its loop state after `i` turns is one of these
  functions of `listing[..i]`; the lemmas say what they amount to once the
  whole listing has been walked.
*/
module Passes {
  import opened FsTree

  /** No name of `s` that lies in `S` names a failing path below `path`. */
  predicate NoneFail(s: seq<string>, S: set<string>, fails: set<Path>, path: Path) {
    if s == [] then true
    else
      var last := s[|s| - 1];
      NoneFail(s[..|s| - 1], S, fails, path) && (last in S ==> path + [last] !in fails)
  }

  /** `dest` after every name of `s` not already equal in `dest` took its
      entry from `src` (the copy pass). */
  function CopiedOver<T(==)>(dest: map<string, T>, src: map<string, T>, s: seq<string>): map<string, T>
    requires forall n :: n in s ==> n in src
  {
    if s == [] then dest
    else
      var last := s[|s| - 1];
      var m := CopiedOver(dest, src, s[..|s| - 1]);
      if last in dest && dest[last] == src[last] then m else m[last := src[last]]
  }

  /** The names of `s` as a set (the Hashtable a pass fills from its listing). */
  function ToSet(s: seq<string>): set<string> {
    if s == [] then {} else ToSet(s[..|s| - 1]) + {s[|s| - 1]}
  }

  /** `m` after every name of `s` that lies in `S` was removed from it (the deletion passes). */
  function RemovedFrom<T>(m: map<string, T>, s: seq<string>, S: set<string>): map<string, T> {
    if s == [] then m
    else
      var last := s[|s| - 1];
      var r := RemovedFrom(m, s[..|s| - 1], S);
      if last in S then r - {last} else r
  }

  lemma {:induction false} NoneFailAll(s: seq<string>, S: set<string>, fails: set<Path>, path: Path)
    ensures NoneFail(s, S, fails, path) <==> forall n :: n in s && n in S ==> path + [n] !in fails
  {
    if s != [] {
      var init := s[..|s| - 1];
      NoneFailAll(init, S, fails, path);
      assert s == init + [s[|s| - 1]];
    }
  }

  lemma {:induction false} CopiedOverEntries<T>(dest: map<string, T>, src: map<string, T>, s: seq<string>)
    requires forall n :: n in s ==> n in src
    ensures forall n :: n in CopiedOver(dest, src, s) <==> n in dest || n in s
    ensures forall n :: n in CopiedOver(dest, src, s) ==>
              CopiedOver(dest, src, s)[n] == if n in s then src[n] else dest[n]
  {
    if s != [] {
      var init := s[..|s| - 1];
      CopiedOverEntries(dest, src, init);
      assert s == init + [s[|s| - 1]];
    }
  }

  /** Once the whole source listing is walked, every source entry is in place. */
  lemma CopiedOverAll<T>(dest: map<string, T>, src: map<string, T>, s: seq<string>)
    requires forall n :: n in s <==> n in src
    ensures CopiedOver(dest, src, s) == dest + src
  {
    CopiedOverEntries(dest, src, s);
  }

  lemma {:induction false} RemovedFromEntries<T>(m: map<string, T>, s: seq<string>, S: set<string>)
    ensures forall n :: n in RemovedFrom(m, s, S) <==> n in m && !(n in s && n in S)
    ensures forall n :: n in RemovedFrom(m, s, S) ==> RemovedFrom(m, s, S)[n] == m[n]
  {
    if s != [] {
      var init := s[..|s| - 1];
      RemovedFromEntries(m, init, S);
      assert s == init + [s[|s| - 1]];
    }
  }

  /** Once a listing holding every name of `S` is walked, all of `S` is gone. */
  lemma RemovedFromAll<T>(m: map<string, T>, s: seq<string>, S: set<string>)
    requires forall n :: n in S ==> n in s
    ensures RemovedFrom(m, s, S) == m - S
  {
    RemovedFromEntries(m, s, S);
  }

  lemma {:induction false} ToSetMembers(s: seq<string>)
    ensures forall n :: n in ToSet(s) <==> n in s
  {
    if s != [] {
      var init := s[..|s| - 1];
      ToSetMembers(init);
      assert s == init + [s[|s| - 1]];
    }
  }

  /** One more turn of a pass: the functions above, one entry further. */
  lemma NoneFailStep(s: seq<string>, i: nat, S: set<string>, fails: set<Path>, path: Path)
    requires i < |s|
    ensures NoneFail(s[..i + 1], S, fails, path) <==>
              NoneFail(s[..i], S, fails, path) && (s[i] in S ==> path + [s[i]] !in fails)
  {
    assert s[..i + 1][..i] == s[..i];
  }

  lemma ToSetStep(s: seq<string>, i: nat)
    requires i < |s|
    ensures ToSet(s[..i + 1]) == ToSet(s[..i]) + {s[i]}
  {
    assert s[..i + 1][..i] == s[..i];
  }

  lemma CopiedOverStep<T>(dest: map<string, T>, src: map<string, T>, s: seq<string>, i: nat)
    requires i < |s| && forall n :: n in s ==> n in src
    ensures forall n :: n in s[..i + 1] ==> n in src
    ensures CopiedOver(dest, src, s[..i + 1]) ==
              var m := CopiedOver(dest, src, s[..i]);
              if s[i] in dest && dest[s[i]] == src[s[i]] then m else m[s[i] := src[s[i]]]
  {
    assert s[..i + 1][..i] == s[..i];
  }

  lemma RemovedFromStep<T>(m: map<string, T>, s: seq<string>, i: nat, S: set<string>)
    requires i < |s|
    ensures RemovedFrom(m, s[..i + 1], S) ==
              var r := RemovedFrom(m, s[..i], S);
              if s[i] in S then r - {s[i]} else r
  {
    assert s[..i + 1][..i] == s[..i];
  }
}

/**
  The filespec-list parser (Source/BlinkSyncLib/BlinkSync.cs, ParseFilespecs;
  a textual copy lives in Source/Test/SyncTools.cs). One command-line token
  holds comma-separated filespecs; a cursor `pos` walks the token, each
  segment ends at the first comma found from `pos + 1` on, and a segment
  that opens with a double quote always makes the parse fail.
*/
module FilespecList {
  import opened Wrappers
  import opened FileSpec

  /** String.IndexOf(c, from): the first index at or after `from` holding `c`, or -1. */
  function IndexOf(s: string, c: char, from: nat): (r: int)
    requires from <= |s|
    ensures r == -1 || (from <= r < |s| && s[r] == c)
    ensures r == -1 ==> forall k :: from <= k < |s| ==> s[k] != c
    ensures r != -1 ==> forall k :: from <= k < r ==> s[k] != c
    decreases |s| - from
  {
    if from == |s| then -1
    else if s[from] == c then from
    else IndexOf(s, c, from + 1)
  }

  /** The segments the parser cuts `s` into from the cursor `pos` on, or None
      when it fails: a segment opening with a double quote fails, any other
      ends at the first comma found from `pos + 1` on, or at the end of `s`. */
  function SegmentsFrom(s: string, pos: nat): Option<seq<string>>
    decreases |s| - pos
  {
    if pos >= |s| then Some([])
    else if s[pos] == '"' then None
    else
      var e := IndexOf(s, ',', pos + 1);
      if e == -1 then Some([s[pos..]])
      else
        match SegmentsFrom(s, e + 1)
        case None => None
        case Some(rest) => Some([s[pos..e]] + rest)
  }

  /** The segments of a whole token. */
  function Segments(t: string): Option<seq<string>> {
    SegmentsFrom(t, 0)
  }

  function Prepend(done: seq<string>, r: Option<seq<string>>): Option<seq<string>> {
    match r
    case None => None
    case Some(rest) => Some(done + rest)
  }

  lemma PrependAppend(done: seq<string>, seg: string, r: Option<seq<string>>)
    ensures Prepend(done, Prepend([seg], r)) == Prepend(done + [seg], r)
  {
    if r.Some? {
      assert done + ([seg] + r.value) == done + [seg] + r.value;
    }
  }

  /** One turn of the parser loop on an unquoted segment, stated on the patterns gathered so far. */
  lemma ParseStep(done: seq<string>, s: string, pos: nat, end: int)
    requires pos < |s| && s[pos] != '"'
    requires end == (var r := IndexOf(s, ',', pos + 1); if r == -1 then |s| else r)
    ensures pos < end <= |s| && (end < |s| ==> s[end] == ',')
    ensures Prepend(done, SegmentsFrom(s, pos)) == Prepend(done + [s[pos..end]], SegmentsFrom(s, end + 1))
  {
    var seg := s[pos..end];
    var r := SegmentsFrom(s, end + 1);
    if end == |s| {
      assert s[pos..] == seg;
      assert r == Some([]) && [seg] + [] == [seg];
    }
    assert SegmentsFrom(s, pos) == Prepend([seg], r);
    PrependAppend(done, seg, r);
  }

  /** The branch at the head of the parser loop: where the segment starting at
      `pos` ends, or -1 where the source returns false. */
  method ScanSegment(s: string, pos: nat, ghost done: seq<string>) returns (end: int)
    requires pos < |s|
    ensures end == -1 ==> s[pos] == '"'
    ensures end != -1 ==> pos < end <= |s|
    ensures s[pos] == '"' ==> SegmentsFrom(s, pos) == None && (end != -1 ==> end < |s| && s[end] == '"')
    ensures s[pos] != '"' ==> end != -1 && (end < |s| ==> s[end] == ',')
    ensures s[pos] != '"' ==> Prepend(done, SegmentsFrom(s, pos)) == Prepend(done + [s[pos..end]], SegmentsFrom(s, end + 1))
  {
    if s[pos] == '"' {
      if pos + 1 >= |s| {
        return -1;
      }
      end := IndexOf(s, '"', pos + 1);
    } else {
      end := IndexOf(s, ',', pos + 1);
      if end == -1 {
        end := |s|;
      }
      ParseStep(done, s, pos, end);
    }
  }

  /** ParseFilespecs(args, iArg, out matches): `ok` is the method's return value
      and `matches` its out parameter (None for the source's null). */
  method ParseFilespecs(args: seq<string>, iArg: int) returns (ok: bool, matches: Option<seq<Matcher>>)
    requires 0 <= iArg
    requires iArg < |args| ==> GlobOnly(args[iArg])
    ensures ok <==> matches.Some?
    ensures iArg >= |args| ==> !ok
    ensures iArg < |args| ==> (ok <==> Segments(args[iArg]).Some?)
    ensures ok ==> (var segs := Segments(args[iArg]).value;
                    |matches.value| == |segs| &&
                    forall i :: 0 <= i < |segs| ==> GlobOnly(segs[i]) && matches.value[i] == Compile(segs[i]))
  {
    matches := None;
    if iArg >= |args| {
      return false, None;
    }
    var regexList: seq<Matcher> := [];
    var filespecStr := args[iArg];
    ghost var done: seq<string> := [];
    var pos: int := 0;
    var end: int;
    assert Prepend(done, SegmentsFrom(filespecStr, pos)) == Segments(filespecStr) by {
      var r := Segments(filespecStr);
      if r.Some? { assert [] + r.value == r.value; }
    }
    while pos < |filespecStr|
      invariant 0 <= pos <= |filespecStr| + 1
      invariant Segments(filespecStr) == Prepend(done, SegmentsFrom(filespecStr, pos))
      invariant |regexList| == |done|
      invariant forall i :: 0 <= i < |done| ==> GlobOnly(done[i]) && regexList[i] == Compile(done[i])
      decreases |filespecStr| - pos
    {
      end := ScanSegment(filespecStr, pos, done);
      if end == -1 {
        return false, None;
      }
      var filespec := filespecStr[pos..end];
      GlobSlice(filespecStr, pos, end);
      CompileStep(done, regexList, filespec);
      regexList := regexList + [Compile(filespec)];
      done := done + [filespec];
      pos := end;
      if pos < |filespecStr| && filespecStr[pos] != ',' {
        return false, None;
      }
      pos := pos + 1;
    }
    assert done + [] == done;
    return true, Some(regexList);
  }

  // ---------------------------------------------------------------------------
  // What the parser accepts

  /** A filespec that can stand in an unquoted list. */
  predicate Plain(p: string) {
    p != [] && p[0] != '"' && ',' !in p
  }

  /** The comma-separated list of `parts`. */
  function Join(parts: seq<string>): string
    requires |parts| > 0
  {
    if |parts| == 1 then parts[0] else parts[0] + "," + Join(parts[1..])
  }

  lemma {:induction false} JoinStartsWith(parts: seq<string>)
    requires |parts| > 0 && forall i :: 0 <= i < |parts| ==> Plain(parts[i])
    ensures Plain(parts[0])
    ensures |parts| == 1 ==> Join(parts) == parts[0]
    ensures |parts| > 1 ==> Join(parts) == parts[0] + "," + Join(parts[1..])
    ensures Join(parts) != [] && Join(parts)[0] == parts[0][0]
  {
    assert Plain(parts[0]);
  }

  /** After a prefix, the comma search that starts inside a plain filespec
      stops at the comma that follows it, if any. */
  lemma PlainIndexOf(pre: string, p: string, rest: string)
    requires Plain(p) && (rest == [] || rest[0] == ',')
    ensures |pre| + 1 <= |pre + p + rest|
    ensures IndexOf(pre + p + rest, ',', |pre| + 1) == if rest == [] then -1 else |pre| + |p|
  {
    var t := pre + p + rest;
    assert forall k :: |pre| <= k < |pre| + |p| ==> t[k] == p[k - |pre|];
    if rest != [] {
      assert t[|pre| + |p|] == ',';
    }
  }

  /** After a prefix, a plain filespec followed by a comma or by the end of
      the token is one whole segment. */
  lemma PlainSegment(pre: string, p: string, rest: string)
    requires Plain(p) && (rest == [] || rest[0] == ',')
    ensures rest == [] ==> SegmentsFrom(pre + p + rest, |pre|) == Some([p])
    ensures rest != [] ==> SegmentsFrom(pre + p + rest, |pre|) == Prepend([p], SegmentsFrom(pre + p + rest, |pre| + |p| + 1))
  {
    var t := pre + p + rest;
    PlainIndexOf(pre, p, rest);
    assert t[|pre|] == p[0];
    if rest == [] {
      assert t[|pre|..] == p;
    } else {
      assert t[|pre|..|pre| + |p|] == p;
    }
  }

  /** After a prefix, the first filespec of a list of two or more is one
      segment, and parsing goes on after the comma that follows it. */
  lemma JoinSegment(pre: string, parts: seq<string>, tail: string)
    requires |parts| > 1 && forall i :: 0 <= i < |parts| ==> Plain(parts[i])
    ensures SegmentsFrom(pre + Join(parts) + tail, |pre|) ==
      Prepend([parts[0]], SegmentsFrom((pre + parts[0] + ",") + Join(parts[1..]) + tail, |pre + parts[0] + ","|))
  {
    JoinStartsWith(parts);
    var p, j := parts[0], Join(parts[1..]);
    Regroup(pre, p, j, tail);
    PlainSegment(pre, p, "," + j + tail);
  }

  /** The three ways the parser's proofs group a token around one comma. */
  lemma Regroup(pre: string, p: string, j: string, tail: string)
    ensures pre + (p + "," + j) + tail == pre + p + ("," + j + tail)
    ensures pre + (p + "," + j) + tail == (pre + p + ",") + j + tail
  {
  }

  /** After a prefix, a list of one filespec followed by `tail`. */
  lemma LastSegment(pre: string, parts: seq<string>, tail: string)
    requires |parts| == 1 && Plain(parts[0]) && (tail == [] || tail[0] == ',')
    ensures tail == [] ==> SegmentsFrom(pre + Join(parts) + tail, |pre|) == Some(parts)
    ensures tail != [] ==> (SegmentsFrom(pre + Join(parts) + tail, |pre|) ==
      Prepend(parts, SegmentsFrom(pre + Join(parts) + tail, |pre + parts[0] + ","|)))
  {
    var p := parts[0];
    assert Join(parts) == p;
    assert |pre + p + ","| == |pre| + |p| + 1;
    PlainSegment(pre, p, tail);
    assert parts == [p];
  }

  /** An unquoted list after any prefix yields its segments in order. */
  lemma {:induction false} ParseJoinFrom(pre: string, parts: seq<string>)
    requires |parts| > 0 && forall i :: 0 <= i < |parts| ==> Plain(parts[i])
    ensures SegmentsFrom(pre + Join(parts) + [], |pre|) == Some(parts)
    decreases |parts|
  {
    if |parts| == 1 {
      LastSegment(pre, parts, []);
    } else {
      JoinSegment(pre, parts, []);
      ParseJoinFrom(pre + parts[0] + ",", parts[1..]);
      assert [parts[0]] + parts[1..] == parts;
    }
  }

  /** An unquoted list yields its segments in order: parsing undoes Join. */
  lemma ParseJoin(parts: seq<string>)
    requires |parts| > 0 && forall i :: 0 <= i < |parts| ==> Plain(parts[i])
    ensures Segments(Join(parts)) == Some(parts)
  {
    ParseJoinFrom([], parts);
    assert [] + Join(parts) + [] == Join(parts);
  }

  /** After any prefix, a trailing comma adds no pattern. */
  lemma {:induction false} ParseTrailingCommaFrom(pre: string, parts: seq<string>)
    requires |parts| > 0 && forall i :: 0 <= i < |parts| ==> Plain(parts[i])
    ensures SegmentsFrom(pre + Join(parts) + ",", |pre|) == Some(parts)
    decreases |parts|
  {
    if |parts| == 1 {
      LastSegment(pre, parts, ",");
      assert SegmentsFrom(pre + Join(parts) + ",", |pre + parts[0] + ","|) == Some([]);
      assert parts + [] == parts;
    } else {
      JoinSegment(pre, parts, ",");
      ParseTrailingCommaFrom(pre + parts[0] + ",", parts[1..]);
      assert [parts[0]] + parts[1..] == parts;
    }
  }

  /** A trailing comma adds no pattern. */
  lemma ParseTrailingComma(parts: seq<string>)
    requires |parts| > 0 && forall i :: 0 <= i < |parts| ==> Plain(parts[i])
    ensures Segments(Join(parts) + ",") == Some(parts)
  {
    ParseTrailingCommaFrom([], parts);
    assert [] + Join(parts) == Join(parts);
  }

  /** The token made of a plain list, a comma and one last segment. */
  function ListThen(parts: seq<string>, last: string): string
    requires |parts| > 0
  {
    Join(parts) + "," + last
  }

  /** After any prefix, a segment opening with a quote fails, wherever it stands in the list. */
  lemma {:induction false} QuotedSegmentFailsFrom(pre: string, parts: seq<string>, quoted: string)
    requires |parts| > 0 && forall i :: 0 <= i < |parts| ==> Plain(parts[i])
    requires quoted != [] && quoted[0] == '"'
    ensures SegmentsFrom(pre + Join(parts) + ("," + quoted), |pre|) == None
    decreases |parts|
  {
    var t := pre + Join(parts) + ("," + quoted);
    if |parts| == 1 {
      LastSegment(pre, parts, "," + quoted);
      assert t[|pre + parts[0] + ","|] == '"';
    } else {
      JoinSegment(pre, parts, "," + quoted);
      QuotedSegmentFailsFrom(pre + parts[0] + ",", parts[1..], quoted);
    }
  }

  /** Every segment opening with a quote fails, wherever it stands in the list. */
  lemma QuotedSegmentFails(parts: seq<string>, quoted: string)
    requires forall i :: 0 <= i < |parts| ==> Plain(parts[i])
    requires quoted != [] && quoted[0] == '"'
    ensures Segments(if parts == [] then quoted else ListThen(parts, quoted)) == None
  {
    if parts != [] {
      QuotedSegmentFailsFrom([], parts, quoted);
      assert [] + Join(parts) + ("," + quoted) == ListThen(parts, quoted);
    }
  }

  /** An empty token parses to no patterns at all. */
  lemma EmptyTokenParses()
    ensures Segments("") == Some([])
  {
  }
}

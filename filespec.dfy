/**
  The filespec compiler (Source/BlinkSyncLib/BlinkSync.cs, FileSpecToRegex and
  FileSpecsToRegex). A filespec is trimmed, `.` is escaped, `*` becomes `.*`,
  `?` becomes `.?`, and the result is anchored with `^...$` and compiled with
  RegexOptions.IgnoreCase. The model states the meaning of that regex directly
  as a recursive glob matcher.
*/
module FileSpec {

  /** Char.IsWhiteSpace: the characters String.Trim removes from both ends. */
  predicate IsWhiteSpace(c: char) {
    var x := c as int;
    (9 <= x <= 13) || x == 0x20 || x == 0x85 || x == 0xA0 || x == 0x1680
    || (0x2000 <= x <= 0x200A) || x == 0x2028 || x == 0x2029
    || x == 0x202F || x == 0x205F || x == 0x3000
  }

  /** Leading white space removed. */
  function TrimStart(s: string): (r: string)
    ensures |r| <= |s| && r == s[|s| - |r|..]
    ensures r == [] || !IsWhiteSpace(r[0])
    ensures forall k :: 0 <= k < |s| - |r| ==> IsWhiteSpace(s[k])
  {
    if s != [] && IsWhiteSpace(s[0]) then TrimStart(s[1..]) else s
  }

  /** Trailing white space removed. */
  function TrimEnd(s: string): (r: string)
    ensures |r| <= |s| && r == s[..|r|]
    ensures r == [] || !IsWhiteSpace(r[|r| - 1])
    ensures forall k :: |r| <= k < |s| ==> IsWhiteSpace(s[k])
  {
    if s != [] && IsWhiteSpace(s[|s| - 1]) then TrimEnd(s[..|s| - 1]) else s
  }

  /** String.Trim. */
  function Trim(s: string): string {
    TrimEnd(TrimStart(s))
  }

  predicate AllWhiteSpace(s: string) {
    forall k :: 0 <= k < |s| ==> IsWhiteSpace(s[k])
  }

  /** Characters that the three Replace calls pass through to the regex
      unescaped and that would give it a meaning other than a literal. */
  predicate IsRegexMeta(c: char) {
    c in "+()[]^$\\|{}"
  }

  predicate GlobOnly(s: string) {
    forall k :: 0 <= k < |s| ==> !IsRegexMeta(s[k])
  }

  /** A trimmed filespec whose regex translation uses only `\.`, `.*` and `.?`. */
  type Glob = s: string | GlobOnly(s) witness []

  /** The compiled regex `^pattern$`, represented by the trimmed filespec it came from. */
  datatype Matcher = Matcher(glob: Glob)

  /** ASCII case folding, the model of RegexOptions.IgnoreCase. */
  function Fold(c: char): char {
    if 'A' <= c <= 'Z' then (c as int + 32) as char else c
  }

  /** Whole-string match of a glob against a name: `*` consumes any run and
      `?` at most one character, neither of them a line feed (the regex `.`
      does not match '\n'); any other character matches itself ignoring case. */
  predicate GlobMatch(p: string, n: string)
    decreases |p| + |n|
  {
    if p == [] then n == []
    else if p[0] == '*' then
      GlobMatch(p[1..], n) || (n != [] && n[0] != '\n' && GlobMatch(p, n[1..]))
    else if p[0] == '?' then
      GlobMatch(p[1..], n) || (n != [] && n[0] != '\n' && GlobMatch(p[1..], n[1..]))
    else
      n != [] && Fold(p[0]) == Fold(n[0]) && GlobMatch(p[1..], n[1..])
  }

  /** `regex.Match(name).Success` for `^pattern$`: the regex `$` also matches
      just before a final line feed. */
  predicate Accepts(m: Matcher, name: string) {
    GlobMatch(m.glob, name)
    || (|name| > 0 && name[|name| - 1] == '\n' && GlobMatch(m.glob, name[..|name| - 1]))
  }

  /** A slice of a filespec free of metacharacters is free of them too. */
  lemma GlobSlice(s: string, i: nat, j: nat)
    requires GlobOnly(s) && i <= j <= |s|
    ensures GlobOnly(s[i..j])
  {
    assert forall k :: 0 <= k < j - i ==> s[i..j][k] == s[i + k];
  }

  lemma TrimKeepsGlob(s: string)
    requires GlobOnly(s)
    ensures GlobOnly(Trim(s))
  {
  }

  /** FileSpecToRegex. */
  function Compile(fileSpec: string): Matcher
    requires GlobOnly(fileSpec)
  {
    TrimKeepsGlob(fileSpec);
    Matcher(Trim(fileSpec))
  }

  /** Compiling one more filespec keeps the matchers in step with the filespecs. */
  lemma CompileStep(specs: seq<string>, ms: seq<Matcher>, f: string)
    requires GlobOnly(f) && |ms| == |specs|
    requires forall i :: 0 <= i < |specs| ==> GlobOnly(specs[i]) && ms[i] == Compile(specs[i])
    ensures forall i :: 0 <= i <= |specs| ==>
      GlobOnly((specs + [f])[i]) && (ms + [Compile(f)])[i] == Compile((specs + [f])[i])
  {
    assert (specs + [f])[|specs|] == f;
    assert (ms + [Compile(f)])[|specs|] == Compile(f);
  }

  /** FileSpecsToRegex: one matcher per filespec, in the same order. */
  method FileSpecsToRegex(fileSpecs: seq<string>) returns (regexList: seq<Matcher>)
    requires forall i :: 0 <= i < |fileSpecs| ==> GlobOnly(fileSpecs[i])
    ensures |regexList| == |fileSpecs|
    ensures forall i :: 0 <= i < |fileSpecs| ==> regexList[i] == Compile(fileSpecs[i])
  {
    regexList := [];
    for i := 0 to |fileSpecs|
      invariant |regexList| == i
      invariant forall j :: 0 <= j < i ==> GlobOnly(fileSpecs[..i][j]) && regexList[j] == Compile(fileSpecs[..i][j])
    {
      var regex := Compile(fileSpecs[i]);
      CompileStep(fileSpecs[..i], regexList, fileSpecs[i]);
      assert fileSpecs[..i] + [fileSpecs[i]] == fileSpecs[..i + 1];
      regexList := regexList + [regex];
    }
    assert fileSpecs[..|fileSpecs|] == fileSpecs;
  }

  // ---------------------------------------------------------------------------
  // What a compiled filespec means

  predicate NoWildcards(p: string) {
    forall k :: 0 <= k < |p| ==> p[k] != '*' && p[k] != '?'
  }

  predicate FoldEqual(p: string, n: string) {
    |p| == |n| && forall k :: 0 <= k < |p| ==> Fold(p[k]) == Fold(n[k])
  }

  predicate NoLineFeed(n: string) {
    forall k :: 0 <= k < |n| ==> n[k] != '\n'
  }

  /** Without wildcards a filespec matches exactly the names equal to it up to case:
      `.` is a literal and the match is anchored at both ends. */
  lemma {:induction false} LiteralMatch(p: string, n: string)
    requires NoWildcards(p)
    ensures GlobMatch(p, n) <==> FoldEqual(p, n)
  {
    if p != [] && n != [] {
      LiteralMatch(p[1..], n[1..]);
      if FoldEqual(p, n) {
        assert FoldEqual(p[1..], n[1..]) by {
          forall k | 0 <= k < |p| - 1 ensures Fold(p[1..][k]) == Fold(n[1..][k]) {
            assert Fold(p[k + 1]) == Fold(n[k + 1]);
          }
        }
      }
      if GlobMatch(p, n) {
        forall k | 0 <= k < |p| ensures Fold(p[k]) == Fold(n[k]) {
          if k > 0 { assert Fold(p[1..][k - 1]) == Fold(n[1..][k - 1]); }
        }
      }
    }
  }

  /** `*` matches every run of characters that holds no line feed, the empty one included. */
  lemma {:induction false} StarMatch(n: string)
    ensures GlobMatch("*", n) <==> NoLineFeed(n)
  {
    assert "*"[1..] == [];
    if n != [] {
      StarMatch(n[1..]);
      if NoLineFeed(n) {
        assert NoLineFeed(n[1..]) by {
          forall k | 0 <= k < |n| - 1 ensures n[1..][k] != '\n' { assert n[k + 1] != '\n'; }
        }
      }
      if GlobMatch("*", n) {
        assert !GlobMatch([], n);
        assert n[0] != '\n' && GlobMatch("*", n[1..]);
        forall k | 0 <= k < |n| ensures n[k] != '\n' {
          if k > 0 { assert n[1..][k - 1] != '\n'; }
        }
      }
    }
  }

  /** `?` matches zero or one character, because it compiles to `.?`. */
  lemma QuestionMarkMatch(n: string)
    ensures GlobMatch("?", n) <==> n == [] || (|n| == 1 && n[0] != '\n')
  {
    assert "?"[1..] == [];
    if n != [] {
      assert GlobMatch([], n[1..]) <==> |n| == 1;
    }
  }

  /** Matching composes: a name made of a match of `p` followed by a match
      of `q` matches `p + q`. */
  lemma {:induction false} ConcatMatch(p: string, n: string, q: string, m: string)
    requires GlobMatch(p, n) && GlobMatch(q, m)
    ensures GlobMatch(p + q, n + m)
    decreases |p| + |n|
  {
    if p == [] {
      assert p + q == q && n + m == m;
    } else if p[0] == '*' {
      assert (p + q)[0] == '*' && (p + q)[1..] == p[1..] + q;
      if GlobMatch(p[1..], n) {
        ConcatMatch(p[1..], n, q, m);
      } else {
        ConcatMatch(p, n[1..], q, m);
        assert (n + m)[0] == n[0] && (n + m)[1..] == n[1..] + m;
      }
    } else if p[0] == '?' {
      assert (p + q)[0] == '?' && (p + q)[1..] == p[1..] + q;
      if GlobMatch(p[1..], n) {
        ConcatMatch(p[1..], n, q, m);
      } else {
        ConcatMatch(p[1..], n[1..], q, m);
        assert (n + m)[0] == n[0] && (n + m)[1..] == n[1..] + m;
      }
    } else {
      ConcatMatch(p[1..], n[1..], q, m);
      assert (p + q)[0] == p[0] && (p + q)[1..] == p[1..] + q;
      assert (n + m)[0] == n[0] && (n + m)[1..] == n[1..] + m;
    }
  }

  /** Every character of a filespec other than `*` and `?` must be matched
      by some character of the name, up to case. */
  lemma {:induction false} LiteralOccurs(p: string, n: string, k: nat)
    requires GlobMatch(p, n) && k < |p| && p[k] != '*' && p[k] != '?'
    ensures exists j :: 0 <= j < |n| && Fold(n[j]) == Fold(p[k])
    decreases |p| + |n|
  {
    if p[0] == '*' || p[0] == '?' {
      if GlobMatch(p[1..], n) {
        LiteralOccurs(p[1..], n, k - 1);
      } else {
        var rest := if p[0] == '*' then p else p[1..];
        var i := if p[0] == '*' then k else k - 1;
        LiteralOccurs(rest, n[1..], i);
        var j :| 0 <= j < |n| - 1 && Fold(n[1..][j]) == Fold(rest[i]);
        assert Fold(n[j + 1]) == Fold(p[k]);
      }
    } else if k > 0 {
      LiteralOccurs(p[1..], n[1..], k - 1);
      var j :| 0 <= j < |n| - 1 && Fold(n[1..][j]) == Fold(p[k]);
      assert Fold(n[j + 1]) == Fold(p[k]);
    } else {
      assert Fold(n[0]) == Fold(p[0]);
    }
  }

  /** A filespec without wildcards matches itself. */
  lemma SelfMatch(s: string)
    requires NoWildcards(s)
    ensures GlobMatch(s, s)
  {
    LiteralMatch(s, s);
  }

  /** `*` followed by a literal matches every name ending in that literal. */
  lemma SuffixMatch(pre: string, s: string)
    requires NoLineFeed(pre) && NoWildcards(s)
    ensures GlobMatch("*" + s, pre + s)
  {
    StarMatch(pre);
    SelfMatch(s);
    ConcatMatch("*", pre, s, s);
  }

  /** A literal followed by `*` matches every name starting with that literal. */
  lemma PrefixMatch(s: string, post: string)
    requires NoWildcards(s) && NoLineFeed(post)
    ensures GlobMatch(s + "*", s + post)
  {
    StarMatch(post);
    SelfMatch(s);
    ConcatMatch(s, s, "*", post);
  }

  /** A literal between two stars matches every name containing that literal. */
  lemma InfixMatch(pre: string, s: string, post: string)
    requires NoLineFeed(pre) && NoWildcards(s) && NoLineFeed(post)
    ensures GlobMatch("*" + s + "*", pre + s + post)
  {
    SuffixMatch(pre, s);
    StarMatch(post);
    ConcatMatch("*" + s, pre + s, "*", post);
  }

  /** No character of `n` is `c`, up to case. */
  predicate Lacks(n: string, c: char) {
    forall j :: 0 <= j < |n| ==> Fold(n[j]) != Fold(c)
  }

  /** A name lacking one of the literal characters of a filespec does not match it. */
  lemma Mismatch(p: string, n: string, k: nat)
    requires k < |p| && p[k] != '*' && p[k] != '?' && Lacks(n, p[k])
    ensures !GlobMatch(p, n)
  {
    if GlobMatch(p, n) {
      LiteralOccurs(p, n, k);
    }
  }

  function Lower(n: string): (r: string)
    ensures |r| == |n| && forall k :: 0 <= k < |n| ==> r[k] == Fold(n[k])
  {
    if n == [] then [] else [Fold(n[0])] + Lower(n[1..])
  }

  lemma FoldIdempotent(c: char)
    ensures Fold(Fold(c)) == Fold(c)
  {
  }

  /** The match ignores case: a name matches exactly when its lower-case form does. */
  lemma {:induction false} MatchIgnoresCase(p: string, n: string)
    ensures GlobMatch(p, n) <==> GlobMatch(p, Lower(n))
    decreases |p| + |n|
  {
    var l := Lower(n);
    if p != [] && n != [] {
      assert l[0] == Fold(n[0]) && l[1..] == Lower(n[1..]);
      FoldIdempotent(n[0]);
      if p[0] == '*' {
        MatchIgnoresCase(p, n[1..]);
        MatchIgnoresCase(p[1..], n);
        assert (l[0] == '\n') <==> (n[0] == '\n');
      } else if p[0] == '?' {
        MatchIgnoresCase(p[1..], n[1..]);
        MatchIgnoresCase(p[1..], n);
        assert (l[0] == '\n') <==> (n[0] == '\n');
      } else {
        MatchIgnoresCase(p[1..], n[1..]);
      }
    } else if p != [] {
      assert l == [];
    }
  }

  /** Leading and trailing white space of a filespec is not part of the pattern. */
  lemma {:induction false} TrimStartPadding(pad: string, s: string)
    requires AllWhiteSpace(pad)
    ensures TrimStart(pad + s) == TrimStart(s)
  {
    if pad != [] {
      assert (pad + s)[1..] == pad[1..] + s;
      assert AllWhiteSpace(pad[1..]) by {
        forall k | 0 <= k < |pad| - 1 ensures IsWhiteSpace(pad[1..][k]) { assert IsWhiteSpace(pad[k + 1]); }
      }
      TrimStartPadding(pad[1..], s);
    } else {
      assert pad + s == s;
    }
  }

  lemma {:induction false} TrimEndPadding(s: string, pad: string)
    requires AllWhiteSpace(pad)
    ensures TrimEnd(s + pad) == TrimEnd(s)
    decreases |pad|
  {
    if pad != [] {
      var last := |pad| - 1;
      assert (s + pad)[..|s + pad| - 1] == s + pad[..last];
      assert AllWhiteSpace(pad[..last]) by {
        forall k | 0 <= k < last ensures IsWhiteSpace(pad[..last][k]) { assert IsWhiteSpace(pad[k]); }
      }
      TrimEndPadding(s, pad[..last]);
    } else {
      assert s + pad == s;
    }
  }

  /** Compiling a padded filespec gives the matcher of the bare filespec. */
  lemma CompileIgnoresPadding(pre: string, core: string, post: string)
    requires AllWhiteSpace(pre) && AllWhiteSpace(post) && GlobOnly(core)
    requires core != [] && !IsWhiteSpace(core[0]) && !IsWhiteSpace(core[|core| - 1])
    ensures GlobOnly(pre + core + post) && Compile(pre + core + post).glob == core
  {
    assert GlobOnly(pre + core + post) by {
      forall k | 0 <= k < |pre + core + post| ensures !IsRegexMeta((pre + core + post)[k]) {
        if k < |pre| { assert IsWhiteSpace(pre[k]); }
        else if k < |pre| + |core| { assert (pre + core + post)[k] == core[k - |pre|]; }
        else { assert IsWhiteSpace(post[k - |pre| - |core|]); }
      }
    }
    assert pre + core + post == pre + (core + post);
    TrimStartPadding(pre, core + post);
    assert TrimStart(core + post) == core + post;
    TrimEndPadding(core, post);
    assert TrimEnd(core) == core;
  }
}

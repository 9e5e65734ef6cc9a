/** String models of the parts of Python's `os.path` that the server relies
    on (`join`, `split`, `basename` and `splitext`), with the POSIX rules of
    `posixpath`: a path is a plain `string`, `/` is the only separator, and
    only a leading `/` makes a path absolute. */
module PosixPath {

  import opened Options

  const Sep: char := '/'
  const ExtSep: char := '.'

  predicate StartsWithSep(p: string) {
    |p| > 0 && p[0] == Sep
  }

  predicate EndsWithSep(p: string) {
    |p| > 0 && p[|p| - 1] == Sep
  }

  /** Every character is a separator (vacuously true of ""). */
  predicate AllSep(p: string) {
    forall k :: 0 <= k < |p| ==> p[k] == Sep
  }

  /** No two adjacent separators, i.e. no empty path component inside `p`. */
  predicate NoDoubleSep(p: string) {
    forall k :: 0 <= k < |p| - 1 ==> !(p[k] == Sep && p[k + 1] == Sep)
  }

  /** `s.rfind(c)`: the index of the last `c` in `s`, or -1 when there is none. */
  function RFind(s: string, c: char): (r: int)
    ensures -1 <= r < |s|
    ensures r >= 0 ==> s[r] == c
    ensures forall k :: r < k < |s| ==> s[k] != c
  {
    if |s| == 0 then -1
    else if s[|s| - 1] == c then |s| - 1
    else RFind(s[..|s| - 1], c)
  }

  /** The contract of `RFind` pins its result down: the last occurrence. */
  lemma RFindIs(s: string, c: char, i: int)
    requires -1 <= i < |s|
    requires i >= 0 ==> s[i] == c
    requires forall k :: i < k < |s| ==> s[k] != c
    ensures RFind(s, c) == i
  {
  }

  /** `os.path.join(a, b)`: an absolute `b` replaces `a`; otherwise `b` is
      appended to `a`, with one separator in between unless `a` is empty or
      already ends with one. No normalisation and no check of `..` is made. */
  function Join(a: string, b: string): (r: string)
    ensures StartsWithSep(b) ==> r == b
  {
    if StartsWithSep(b) then b
    else if a == "" || EndsWithSep(a) then a + b
    else a + [Sep] + b
  }

  /** A relative `b` lands under `a`: the result starts with `a` and ends
      with `b`; between them is exactly one separator when `a` is a non-empty
      path without a trailing one, and nothing otherwise. */
  lemma JoinRelative(a: string, b: string)
    requires !StartsWithSep(b)
    ensures var r := Join(a, b);
            && |a| + |b| <= |r| <= |a| + |b| + 1
            && r[..|a|] == a && r[|r| - |b|..] == b
            && (a != "" && !EndsWithSep(a) ==> r[|a|] == Sep)
            && (a == "" || EndsWithSep(a) ==> |r| == |a| + |b|)
  {
  }

  /** `s.rstrip('/')`. */
  function RStripSep(s: string): (r: string)
    ensures |r| <= |s| && r == s[..|r|]
    ensures !EndsWithSep(r)
    ensures forall k :: |r| <= k < |s| ==> s[k] == Sep
  {
    if EndsWithSep(s) then RStripSep(s[..|s| - 1]) else s
  }

  /** `os.path.split(p)`: the head is everything up to the last separator,
      with trailing separators removed unless the head is made only of
      separators; the tail is what follows the last separator. */
  function Split(p: string): (r: (string, string))
    ensures Sep !in r.1
    ensures r.0 == "" <==> Sep !in p
    ensures r.0 == "" ==> r.1 == p
  {
    var i := RFind(p, Sep) + 1;
    var head := p[..i];
    var tail := p[i..];
    assert Sep !in tail by {
      forall k | 0 <= k < |tail| ensures tail[k] != Sep {
        assert tail[k] == p[i + k];
      }
    }
    if head != "" && !AllSep(head) then
      var stripped := RStripSep(head);
      assert stripped != "" by {
        var k :| 0 <= k < |head| && head[k] != Sep;
        assert k < |stripped|;
      }
      (stripped, tail)
    else
      (head, tail)
  }

  /** `os.path.basename(p)`: the part after the last separator, which is
      also the tail that `os.path.split` returns. */
  function Basename(p: string): (r: string)
    ensures Sep !in r
  {
    Split(p).1
  }

  /** The basename of `pre/x` is `x` whatever `pre` is. */
  lemma BasenameAfterSep(pre: string, x: string)
    requires Sep !in x
    ensures Basename(pre + [Sep] + x) == x
  {
    var p := pre + [Sep] + x;
    forall k | |pre| < k < |p| ensures p[k] != Sep {
      assert p[k] == x[k - |pre| - 1];
    }
    RFindIs(p, Sep, |pre|);
    assert p[|pre| + 1..] == x;
  }

  /** Splitting a path built from a single component gives an empty head. */
  lemma SplitBare(b: string)
    requires Sep !in b
    ensures Split(b) == ("", b)
  {
    RFindIs(b, Sep, -1);
  }

  /** Splitting `d + "/" + b` recovers `d` and `b`, provided `d` is a
      non-empty path without a trailing separator and `b` is one component. */
  lemma {:induction false} SplitJoined(d: string, b: string)
    requires d != "" && !EndsWithSep(d)
    requires Sep !in b
    ensures Split(d + [Sep] + b) == (d, b)
  {
    var p := d + [Sep] + b;
    RFindIs(p, Sep, |d|);
    var head := p[..|d| + 1];
    assert head == d + [Sep];
    assert !AllSep(head) by {
      assert head[|d| - 1] == d[|d| - 1] != Sep;
    }
    assert head[..|head| - 1] == d;
    assert RStripSep(head) == RStripSep(d) == d;
    assert p[|d| + 1..] == b;
  }

  /** The converse of `SplitJoined`: when the head of a path is a proper
      directory path and the path has no doubled separator, the path is
      exactly head, one separator, tail. */
  lemma {:induction false} SplitInverse(p: string)
    requires NoDoubleSep(p)
    requires Split(p).0 != "" && !AllSep(Split(p).0)
    ensures p == Split(p).0 + [Sep] + Split(p).1
  {
    var i := RFind(p, Sep) + 1;
    var head := p[..i];
    assert head != "" && !AllSep(head);
    assert head[i - 1] == Sep;
    assert i >= 2 by {
      var k :| 0 <= k < |head| && head[k] != Sep;
      assert k < i - 1;
    }
    assert head[i - 2] == p[i - 2] != Sep;
    assert head[..i - 1] == p[..i - 1];
    assert RStripSep(head) == RStripSep(p[..i - 1]) == p[..i - 1];
    assert p == p[..i - 1] + [Sep] + p[i..];
  }

  /** The dot that `os.path.splitext` splits at, if any: the last `.` of the
      last path component, provided that some character other than `.`
      precedes it in that component (so `.bashrc` has no extension). */
  function ExtDot(p: string): (r: Option<nat>)
    ensures r.Some? ==> RFind(p, Sep) < r.value < |p| && p[r.value] == ExtSep
    ensures r.Some? ==> forall k :: r.value < k < |p| ==> p[k] != ExtSep && p[k] != Sep
    ensures r.Some? ==> exists k :: RFind(p, Sep) < k < r.value && p[k] != ExtSep
  {
    var s := RFind(p, Sep);
    var d := RFind(p, ExtSep);
    if d > s && exists k :: s < k < d && p[k] != ExtSep then Some(d) else None
  }

  /** `get_ext`: the extension of the last path component without its
      leading dot, or "" when there is none. */
  function GetExt(p: string): (r: string)
    ensures ExtSep !in r && Sep !in r
  {
    match ExtDot(p)
    case None => ""
    case Some(d) =>
      var e := p[d + 1..];
      assert ExtSep !in e && Sep !in e by {
        forall k | 0 <= k < |e| ensures e[k] != ExtSep && e[k] != Sep {
          assert e[k] == p[d + 1 + k];
        }
      }
      e
  }

  /** The extension is what follows the last dot of the path. */
  lemma GetExtSuffix(p: string)
    ensures |GetExt(p)| <= |p| && GetExt(p) == p[|p| - |GetExt(p)|..]
    ensures GetExt(p) != "" ==> |GetExt(p)| < |p| && p[|p| - |GetExt(p)| - 1] == ExtSep
  {
    match ExtDot(p)
    case None =>
    case Some(d) =>
      assert GetExt(p) == p[d + 1..];
  }

  /** A name `stem.e` placed under a directory prefix has extension `e`,
      whenever `stem` is one component that is not made only of dots and `e`
      contains neither a dot nor a separator. This is the reading of the
      `"%s/%s.%s"` paths the request handlers build. */
  lemma {:induction false} GetExtOfStemDotExt(pre: string, stem: string, e: string)
    requires pre == "" || EndsWithSep(pre)
    requires Sep !in stem && (exists k :: 0 <= k < |stem| && stem[k] != ExtSep)
    requires ExtSep !in e && Sep !in e
    ensures GetExt(pre + stem + [ExtSep] + e) == e
  {
    var p := pre + stem + [ExtSep] + e;
    var d := |pre| + |stem|;
    assert p[d] == ExtSep;
    forall k | d < k < |p| ensures p[k] != ExtSep && p[k] != Sep {
      assert p[k] == e[k - d - 1];
    }
    RFindIs(p, ExtSep, d);
    forall k | |pre| <= k < |p| ensures p[k] != Sep {
      if k < d {
        assert p[k] == stem[k - |pre|];
      }
    }
    RFindIs(p, Sep, |pre| - 1);
    var k :| 0 <= k < |stem| && stem[k] != ExtSep;
    assert p[|pre| + k] == stem[k];
    assert ExtDot(p) == Some(d);
    assert p[d + 1..] == e;
  }

  /** The converse case of `GetExtOfStemDotExt`: when everything in the
      last component before its last dot is a dot (`.zip`, `..x`), the
      name has no extension at all. */
  lemma {:induction false} DotsOnlyStemNoExt(pre: string, stem: string, e: string)
    requires pre == "" || EndsWithSep(pre)
    requires forall k :: 0 <= k < |stem| ==> stem[k] == ExtSep
    requires ExtSep !in e && Sep !in e
    ensures GetExt(pre + stem + [ExtSep] + e) == ""
  {
    var p := pre + stem + [ExtSep] + e;
    var d := |pre| + |stem|;
    assert p[d] == ExtSep;
    forall k | d < k < |p| ensures p[k] != ExtSep && p[k] != Sep {
      assert p[k] == e[k - d - 1];
    }
    RFindIs(p, ExtSep, d);
    forall k | |pre| <= k < |p| ensures p[k] != Sep {
      if k < d {
        assert p[k] == stem[k - |pre|];
      }
    }
    RFindIs(p, Sep, |pre| - 1);
    forall k | |pre| - 1 < k < d ensures p[k] == ExtSep {
      assert p[k] == stem[k - |pre|];
    }
  }

  /** A path with no dot at all has no extension. */
  lemma NoDotNoExt(p: string)
    requires ExtSep !in p
    ensures GetExt(p) == ""
  {
    RFindIs(p, ExtSep, -1);
  }

}

/** The path arithmetic the archive code uses: `str.split("/")`, and
    `os.path.join`, `dirname`, `split` and `relpath` for plain relative
    names (segments separated by a single "/", no trailing "/"). */
module Paths {

  type Path = string

  const Sep: char := '/'

  /** `s.split("/")`: the pieces between separators, empty pieces included;
      never an empty list. */
  function Split(s: string): (r: seq<string>)
    ensures |r| >= 1
  {
    if s == [] then [""]
    else if s[0] == Sep then [""] + Split(s[1..])
    else
      var t := Split(s[1..]);
      [[s[0]] + t[0]] + t[1..]
  }

  /** No piece of a split holds a separator. */
  lemma {:induction false} SplitPieces(s: string)
    ensures forall k :: 0 <= k < |Split(s)| ==> Sep !in Split(s)[k]
    decreases |s|
  {
    if s != [] {
      SplitPieces(s[1..]);
      if s[0] != Sep {
        var t := Split(s[1..]);
        assert Split(s) == [[s[0]] + t[0]] + t[1..];
        forall k | 0 <= k < |Split(s)| ensures Sep !in Split(s)[k] {
          if k > 0 {
            assert Split(s)[k] == t[k];
          } else {
            assert Sep !in t[0];
          }
        }
      }
    }
  }

  /** `"/".join(segs)`. */
  function JoinSegs(segs: seq<string>): string
  {
    if segs == [] then ""
    else if |segs| == 1 then segs[0]
    else segs[0] + [Sep] + JoinSegs(segs[1..])
  }

  /** Index of the last separator in `p`, or -1 (Python's `p.rfind("/")`). */
  function LastSep(p: string): (r: int)
    ensures -1 <= r < |p|
    ensures r >= 0 ==> p[r] == Sep
    ensures forall k :: r < k < |p| ==> p[k] != Sep
  {
    if p == [] then -1
    else if p[|p| - 1] == Sep then |p| - 1
    else LastSep(p[..|p| - 1])
  }

  /** `os.path.join(d, x)` for a relative `x`. */
  function Join(d: Path, x: Path): (r: Path)
    ensures d == "" ==> r == x
    ensures d != "" ==> |r| == |d| + 1 + |x| && r[..|d|] == d && r[|d|] == Sep && r[|d| + 1..] == x
  {
    if d == "" then x else d + [Sep] + x
  }

  /** `os.path.dirname(p)`: everything before the last separator. */
  function DirName(p: Path): (r: Path)
    ensures r <= p
    ensures r != "" ==> |r| < |p| && p[|r|] == Sep
    ensures forall k :: |r| < k < |p| ==> p[k] != Sep
    ensures Sep !in p ==> r == ""
  {
    var i := LastSep(p);
    if i < 0 then "" else p[..i]
  }

  /** `os.path.split(p)[1]`: everything after the last separator. */
  function BaseName(p: Path): (r: Path)
    ensures Sep !in r
    ensures |r| <= |p| && r == p[|p| - |r|..]
    ensures |r| < |p| ==> p[|p| - |r| - 1] == Sep
  {
    p[LastSep(p) + 1..]
  }

  /** `os.path.relpath(p, start)` for a `p` that lies below `start`; any other
      `p` is returned as it is. */
  function RelPath(p: Path, start: Path): (r: Path)
    ensures start != "" && start + [Sep] <= p ==> start + [Sep] + r == p
    ensures start == "" || !(start + [Sep] <= p) ==> r == p
  {
    if start == "" then p
    else if start + [Sep] <= p then p[|start| + 1..]
    else p
  }

  lemma {:induction false} JoinSplit(s: string)
    ensures JoinSegs(Split(s)) == s
    decreases |s|
  {
    if s != [] {
      var c, r := s[0], s[1..];
      assert s == [c] + r;
      JoinSplit(r);
      if c == Sep {
        SplitSepHead(r);
        JoinSegsCons("", Split(r));
        assert "" + [Sep] + r == s;
      } else {
        var t := Split(r);
        SplitCharHead(c, r);
        assert t == [t[0]] + t[1..];
        JoinSegsExtendHead(c, t[0], t[1..]);
      }
    }
  }

  /** Splitting a string whose first character is a separator. */
  lemma SplitSepHead(r: string)
    ensures Split([Sep] + r) == [""] + Split(r)
  {
    assert ([Sep] + r)[1..] == r;
  }

  lemma JoinSegsCons(x: string, t: seq<string>)
    requires |t| >= 1
    ensures JoinSegs([x] + t) == x + [Sep] + JoinSegs(t)
  {
    assert ([x] + t)[1..] == t;
  }

  /** Putting a character in front of the first segment puts it in front of the join. */
  lemma JoinSegsExtendHead(c: char, x: string, rest: seq<string>)
    ensures JoinSegs([[c] + x] + rest) == [c] + JoinSegs([x] + rest)
  {
    if rest == [] {
      JoinSegsSingle([c] + x);
      JoinSegsSingle(x);
    } else {
      JoinSegsCons([c] + x, rest);
      JoinSegsCons(x, rest);
    }
  }

  lemma JoinSegsSingle(x: string)
    ensures JoinSegs([x]) == x
  {
  }

  lemma {:induction false} SplitNoSep(a: string)
    requires Sep !in a
    ensures Split(a) == [a]
    decreases |a|
  {
    if a != [] {
      assert Sep !in a[1..] by {
        forall k | 0 <= k < |a[1..]| ensures a[1..][k] != Sep { assert a[1..][k] == a[k + 1]; }
      }
      SplitNoSep(a[1..]);
      assert a == [a[0]] + a[1..];
    }
  }

  /** A separator-free name in front of a string extends the string's
      first piece. */
  lemma {:induction false} SplitPrefix(a: string, rest: string)
    requires Sep !in a
    ensures Split(a + rest) == [a + Split(rest)[0]] + Split(rest)[1..]
    decreases |a|
  {
    if a == [] {
      assert a + rest == rest;
      assert a + Split(rest)[0] == Split(rest)[0];
      assert Split(rest) == [Split(rest)[0]] + Split(rest)[1..];
    } else {
      var c, a' := a[0], a[1..];
      assert Sep !in a' by {
        forall k | 0 <= k < |a'| ensures a'[k] != Sep { assert a'[k] == a[k + 1]; }
      }
      SplitPrefix(a', rest);
      assert a + rest == [c] + (a' + rest);
      SplitCharHead(c, a' + rest);
      assert [c] + (a' + Split(rest)[0]) == a + Split(rest)[0];
    }
  }

  /** Splitting a string whose first character is not a separator. */
  lemma SplitCharHead(c: char, r: string)
    requires c != Sep
    ensures Split([c] + r) == [[c] + Split(r)[0]] + Split(r)[1..]
  {
    assert ([c] + r)[1..] == r;
  }

  /** Splitting at the first separator. */
  lemma SplitConcat(a: string, b: string)
    requires Sep !in a
    ensures Split(a + [Sep] + b) == [a] + Split(b)
  {
    assert a + [Sep] + b == a + ([Sep] + b);
    SplitPrefix(a, [Sep] + b);
    assert ([Sep] + b)[1..] == b;
    assert Split([Sep] + b) == [""] + Split(b);
    assert a + "" == a;
  }

  /** Split undoes JoinSegs on segments that hold no separator. */
  lemma {:induction false} SplitJoin(segs: seq<string>)
    requires |segs| >= 1
    requires forall k :: 0 <= k < |segs| ==> Sep !in segs[k]
    ensures Split(JoinSegs(segs)) == segs
    decreases |segs|
  {
    if |segs| == 1 {
      SplitNoSep(segs[0]);
    } else {
      SplitJoin(segs[1..]);
      SplitConcat(segs[0], JoinSegs(segs[1..]));
      SplitNoSep(segs[0]);
      assert segs == [segs[0]] + segs[1..];
    }
  }

  lemma {:induction false} JoinSegsAppend(a: seq<string>, b: seq<string>)
    requires |a| >= 1 && |b| >= 1
    ensures JoinSegs(a + b) == JoinSegs(a) + [Sep] + JoinSegs(b)
    decreases |a|
  {
    if |a| == 1 {
      assert (a + b)[1..] == b;
    } else {
      assert (a + b)[1..] == a[1..] + b;
      JoinSegsAppend(a[1..], b);
    }
  }

  lemma {:induction false} LastSepConcat(a: string, b: string)
    ensures LastSep(a + b) == if LastSep(b) >= 0 then |a| + LastSep(b) else LastSep(a)
    decreases |b|
  {
    if b == [] {
      assert a + b == a;
    } else {
      var ab := a + b;
      assert ab[..|ab| - 1] == a + b[..|b| - 1];
      if b[|b| - 1] != Sep {
        LastSepConcat(a, b[..|b| - 1]);
      }
    }
  }

  /** The relative name of a joined path is the name that was joined. */
  lemma RelPathJoin(d: Path, x: Path)
    ensures RelPath(Join(d, x), d) == x
  {
    if d != "" {
      assert Join(d, x)[|d| + 1..] == x;
    }
  }

  /** Joining a name keeps only that name's final segment as the base name. */
  lemma BaseNameJoin(d: Path, x: Path)
    ensures BaseName(Join(d, x)) == BaseName(x)
  {
    if d != "" {
      var pre := d + [Sep];
      LastSepConcat(pre, x);
      LastSepConcat(d, [Sep]);
      AfterLastSep(pre, x);
      assert Join(d, x) == pre + x;
    }
  }

  /** What follows the last separator of `pre + x`, when `pre` ends in one. */
  lemma AfterLastSep(pre: string, x: string)
    requires LastSep(pre + x) == if LastSep(x) >= 0 then |pre| + LastSep(x) else LastSep(pre)
    requires LastSep(pre) == |pre| - 1
    ensures BaseName(pre + x) == BaseName(x)
  {
    var p := pre + x;
    var k := LastSep(x);
    assert p[LastSep(p) + 1..] == x[k + 1..];
  }

  /** A name without separator, joined onto `d`, lives in `d`. */
  lemma DirNameJoin(d: Path, n: Path)
    requires Sep !in n
    ensures DirName(Join(d, n)) == d
    ensures BaseName(Join(d, n)) == n
  {
    assert LastSep(n) == -1;
    if d != "" {
      LastSepConcat(d + [Sep], n);
      assert (d + [Sep]) + n == d + [Sep] + n;
      LastSepConcat(d, [Sep]);
      assert (d + [Sep] + n)[..|d|] == d;
    }
  }

  /** A separator-free name appended after a separator lives in what precedes it. */
  lemma DirNameChild(x: Path, n: Path)
    requires Sep !in n
    ensures DirName(x + [Sep] + n) == x
  {
    assert LastSep(n) == -1;
    LastSepConcat(x + [Sep], n);
    assert (x + [Sep]) + n == x + [Sep] + n;
    assert LastSep(x + [Sep]) == |x|;
    assert (x + [Sep] + n)[..|x|] == x;
  }
}

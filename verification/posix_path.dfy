/**
 * The parts of Python's `os.path` (POSIX flavour) that the views use to
 * take file names apart and put them back together: `split`, `splitext`
 * and `join`, with the separator '/' and the extension separator '.'.
 */
module PosixPath {
  import opened Text

  /** `s.rfind(c)`: the index of the last `c` in `s`, or -1. */
  function RFind(s: string, c: char): (i: int)
    ensures -1 <= i < |s|
    ensures i >= 0 ==> s[i] == c
    ensures forall j :: i < j < |s| ==> s[j] != c
  {
    if s == [] then -1
    else if s[|s| - 1] == c then |s| - 1
    else RFind(s[..|s| - 1], c)
  }

  /** The three properties of `RFind` determine it. */
  lemma RFindIs(s: string, c: char, i: int)
    requires -1 <= i < |s|
    requires i >= 0 ==> s[i] == c
    requires forall j :: i < j < |s| ==> s[j] != c
    ensures RFind(s, c) == i
  {
  }

  /** Appending text without `c` does not move the last `c`. */
  lemma RFindAppend(a: string, b: string, c: char)
    requires NoChar(b, c)
    ensures RFind(a + b, c) == RFind(a, c)
  {
    var i := RFind(a, c);
    forall j | i < j < |a + b|
      ensures (a + b)[j] != c
    {
      if j >= |a| {
        assert (a + b)[j] == b[j - |a|];
      }
    }
    RFindIs(a + b, c, i);
  }

  /** `s.rstrip('/')`. */
  function RStripSlashes(s: string): (r: string)
    ensures r <= s
    ensures r == [] || r[|r| - 1] != '/'
    ensures AllChar(s[|r|..], '/')
  {
    if s != [] && s[|s| - 1] == '/' then RStripSlashes(s[..|s| - 1]) else s
  }

  /**
   * A directory part as `split` returns it: empty, only slashes, or not
   * ending in a slash.
   */
  predicate IsHead(d: string) {
    d == [] || AllChar(d, '/') || d[|d| - 1] != '/'
  }

  /**
   * `os.path.split(p)`: the tail is what follows the last '/', the head what
   * precedes it with trailing slashes removed unless it is all slashes.
   */
  function Split(p: string): (r: (string, string))
    ensures IsHead(r.0)
    ensures NoChar(r.1, '/')
    ensures |r.0| + |r.1| <= |p|
    ensures r.0 <= p
  {
    var i := RFind(p, '/') + 1;
    (Head(p[..i]), p[i..])
  }

  /**
   * The rule `split` follows: the tail is the longest end of `p` without
   * '/', so it is all of `p` or comes right after a '/'; the head is the
   * rest as `Head` trims it.
   */
  lemma SplitRule(p: string)
    ensures var r := Split(p);
            && r.1 == p[|p| - |r.1|..]
            && (|r.1| < |p| ==> p[|p| - |r.1| - 1] == '/')
            && r.0 == Head(p[..|p| - |r.1|])
  {
    var i := RFind(p, '/') + 1;
    assert |Split(p).1| == |p| - i;
  }

  /** The head `split` keeps of `h`: trailing slashes removed unless `h` is all slashes. */
  function Head(h: string): (r: string)
    ensures IsHead(r) && r <= h
  {
    if h != [] && !AllChar(h, '/') then RStripSlashes(h) else h
  }

  /**
   * The rule `Head` follows: a head made only of slashes (or empty) is kept
   * whole; any other loses exactly its trailing slashes.
   */
  lemma HeadRule(h: string)
    ensures AllChar(h, '/') ==> Head(h) == h
    ensures !AllChar(h, '/') ==> Head(h) != [] && Head(h)[|Head(h)| - 1] != '/'
                                 && AllChar(h[|Head(h)|..], '/')
  {
    assert h[0..] == h;
  }

  /**
   * `os.path.join(a, b)`: an absolute `b` replaces `a`; otherwise `b` is
   * appended after a '/' unless `a` is empty or already ends in one.
   */
  function Join(a: string, b: string): string
  {
    if |b| > 0 && b[0] == '/' then b
    else if a == [] || a[|a| - 1] == '/' then a + b
    else a + "/" + b
  }

  /**
   * What `join` builds: the path always ends with `b`; an absolute `b` is the
   * whole result; otherwise the result is `a`, then a '/' exactly when `a`
   * is not empty and does not end in one, then `b`.
   */
  lemma JoinShape(a: string, b: string)
    ensures |b| <= |Join(a, b)| && Join(a, b)[|Join(a, b)| - |b|..] == b
    ensures b != [] && b[0] == '/' ==> Join(a, b) == b
    ensures (b == [] || b[0] != '/') ==> a <= Join(a, b) && |a| + |b| <= |Join(a, b)| <= |a| + |b| + 1
    ensures (b == [] || b[0] != '/') && a != [] && a[|a| - 1] != '/'
            ==> |Join(a, b)| == |a| + |b| + 1 && Join(a, b)[|a|] == '/'
  {
  }

  /** A joined path contains whatever its last component contains. */
  lemma ContainsJoin(d: string, t: string, m: string)
    requires Contains(t, m)
    ensures Contains(Join(d, t), m)
  {
    if |t| > 0 && t[0] == '/' {
    } else if d == [] || d[|d| - 1] == '/' {
      ContainsRight(d, t, m);
    } else {
      ContainsRight(d + "/", t, m);
    }
  }

  /** Some character of `p[lo..hi]` is not a dot. */
  predicate HasNonDot(p: string, lo: int, hi: int)
    requires 0 <= lo <= hi <= |p|
  {
    exists j :: lo <= j < hi && p[j] != '.'
  }

  /**
   * `os.path.splitext(p)`: split at the last '.' after the last '/', unless
   * every character between that '/' and that '.' is a dot (a leading dot
   * does not start an extension); otherwise the extension is empty.
   */
  function SplitExt(p: string): (r: (string, string))
    ensures r.0 + r.1 == p
    ensures NoChar(r.1, '/')
    ensures r.1 == [] || r.1[0] == '.'
  {
    var i := ExtStart(p);
    (p[..i], p[i..])
  }

  /** Where the extension `splitext` finds in `p` starts; `|p|` when there is none. */
  function ExtStart(p: string): (i: nat)
    ensures i <= |p|
    ensures i < |p| ==> p[i] == '.'
    ensures forall j :: i <= j < |p| ==> p[j] != '/'
  {
    var sep := RFind(p, '/');
    var dot := RFind(p, '.');
    if dot > sep && HasNonDot(p, sep + 1, dot) then dot else |p|
  }

  /**
   * The rule `splitext` follows when it finds an extension: its dot is the
   * last '.' of `p`, and some character other than '.' comes between the
   * last '/' and that dot.
   */
  lemma ExtStartFound(p: string)
    requires ExtStart(p) < |p|
    ensures ExtStart(p) == RFind(p, '.')
    ensures RFind(p, '/') < ExtStart(p) && HasNonDot(p, RFind(p, '/') + 1, ExtStart(p))
    ensures NoChar(p[ExtStart(p) + 1..], '.')
  {
    var sep, dot := RFind(p, '/'), RFind(p, '.');
    assert dot > sep && HasNonDot(p, sep + 1, dot);
    var ext := p[dot + 1..];
    forall j | 0 <= j < |ext|
      ensures ext[j] != '.'
    {
      assert ext[j] == p[dot + 1 + j];
    }
  }

  /**
   * The rule `splitext` follows when it finds no extension: every '.' after
   * the last '/' has only dots before it in the base name, so a leading dot
   * does not start an extension.
   */
  lemma ExtStartNone(p: string)
    requires ExtStart(p) == |p|
    ensures forall k :: RFind(p, '/') < k < |p| && p[k] == '.' ==> !HasNonDot(p, RFind(p, '/') + 1, k)
  {
    var sep, dot := RFind(p, '/'), RFind(p, '.');
    assert dot > sep ==> !HasNonDot(p, sep + 1, dot);
    forall k | sep < k < |p| && p[k] == '.'
      ensures !HasNonDot(p, sep + 1, k)
    {
      assert sep < k <= dot;
      forall j | sep + 1 <= j < k
        ensures p[j] == '.'
      {
        assert j < dot;
      }
    }
  }


  /** Text without '/' appended to a path does not change its directory part. */
  lemma SplitHeadAppend(a: string, b: string)
    requires NoChar(b, '/')
    ensures Split(a + b).0 == Split(a).0
  {
    RFindAppend(a, b, '/');
    var i := RFind(a, '/') + 1;
    calc {
      Split(a + b).0;
      Head((a + b)[..i]);
      { assert (a + b)[..i] == a[..i]; }
      Head(a[..i]);
      Split(a).0;
    }
  }

  /**
   * A name without '/' joined onto a directory part is taken apart again by
   * `split` into that same directory part and that same name.
   */
  lemma SplitJoin(d: string, t: string)
    requires IsHead(d) && t != [] && NoChar(t, '/')
    ensures Split(Join(d, t)) == (d, t)
  {
    if d == [] {
      assert Join(d, t) == t;
      RFindIs(t, '/', -1);
    } else if d[|d| - 1] == '/' {
      var p := d + t;
      assert Join(d, t) == p;
      RFindAppend(d, t, '/');
      RFindIs(d, '/', |d| - 1);
      assert p[..|d|] == d;
      assert p[|d|..] == t;
    } else {
      var p := d + "/" + t;
      assert Join(d, t) == p;
      RFindAppend(d + "/", t, '/');
      RFindIs(d + "/", '/', |d|);
      assert p[..|d| + 1] == d + "/";
      assert p[|d| + 1..] == t;
      assert (d + "/")[|d| - 1] == d[|d| - 1];
      assert (d + "/")[..|d|] == d;
      assert Head(d + "/") == d;
    }
  }

  /**
   * Inserting text free of '.' and '/' between the stem and the extension
   * that `splitext` found leaves that extension in place: `splitext` of the
   * result is the longer stem and the same extension.
   */
  lemma SplitExtAppendStem(p: string, suffix: string)
    requires NoChar(suffix, '.') && NoChar(suffix, '/')
    ensures SplitExt(SplitExt(p).0 + suffix + SplitExt(p).1) == (SplitExt(p).0 + suffix, SplitExt(p).1)
  {
    var root, ext := SplitExt(p).0, SplitExt(p).1;
    var q := root + suffix + ext;
    ExtStartAppendStem(p, suffix);
    assert q[..|root| + |suffix|] == root + suffix;
    assert q[|root| + |suffix|..] == ext;
  }

  /** The extension of `p` with `suffix` inserted before it starts `|suffix|` later. */
  lemma ExtStartAppendStem(p: string, suffix: string)
    requires NoChar(suffix, '.') && NoChar(suffix, '/')
    ensures ExtStart(p[..ExtStart(p)] + suffix + p[ExtStart(p)..]) == ExtStart(p) + |suffix|
  {
    if ExtStart(p) < |p| {
      ExtStartInsertAtDot(p, suffix);
    } else {
      ExtStartAppendNoExt(p, suffix);
      assert p[..ExtStart(p)] + suffix + p[ExtStart(p)..] == p + suffix;
    }
  }

  /** Inserting before an extension moves it by the inserted length. */
  lemma ExtStartInsertAtDot(p: string, suffix: string)
    requires NoChar(suffix, '.') && NoChar(suffix, '/')
    requires ExtStart(p) < |p|
    ensures ExtStart(p[..ExtStart(p)] + suffix + p[ExtStart(p)..]) == ExtStart(p) + |suffix|
  {
    var root, ext := p[..ExtStart(p)], p[ExtStart(p)..];
    var q := root + suffix + ext;
    var sep := RFind(p, '/');
    var dot := RFind(p, '.');
    var n := |root| + |suffix|;
    forall j | n < j < |q|
      ensures q[j] != '.' && q[j] != '/'
    {
      assert q[j] == p[j - |suffix|];
    }
    forall j | sep < j < n
      ensures q[j] != '/'
    {
      if j < |root| {
        assert q[j] == p[j];
      } else {
        assert q[j] == suffix[j - |root|];
      }
    }
    assert q[n] == p[dot];
    RFindIs(q, '.', n);
    assert sep >= 0 ==> q[sep] == p[sep];
    RFindIs(q, '/', sep);
    var w :| sep + 1 <= w < dot && p[w] != '.';
    assert q[w] == p[w];
    assert HasNonDot(q, sep + 1, n);
  }

  /** Appending to a name without extension gives a name without extension. */
  lemma ExtStartAppendNoExt(p: string, suffix: string)
    requires NoChar(suffix, '.') && NoChar(suffix, '/')
    requires ExtStart(p) == |p|
    ensures ExtStart(p + suffix) == |p + suffix|
  {
    var q := p + suffix;
    var sep := RFind(p, '/');
    var dot := RFind(p, '.');
    RFindAppend(p, suffix, '.');
    RFindAppend(p, suffix, '/');
    if dot > sep {
      assert !HasNonDot(p, sep + 1, dot);
      assert forall j :: sep + 1 <= j < dot ==> q[j] == p[j];
    }
  }

  /**
   * `p` lies in the directory tree rooted at `top`: it is `top` itself or
   * starts with `top` followed by a separator.
   */
  predicate Within(p: string, top: string) {
    p == top || Join(top, "") <= p
  }

  /** Joining a relative name onto `d` extends `d` and `d`'s separator. */
  lemma JoinExtends(d: string, t: string)
    requires t == [] || t[0] != '/'
    ensures d <= Join(d, "") <= Join(d, t)
  {
  }

  /** A relative name joined onto `d` lies inside `d`'s tree. */
  lemma JoinWithin(d: string, t: string)
    ensures t == [] || t[0] != '/' ==> Within(Join(d, t), d)
  {
    if t == [] || t[0] != '/' {
      JoinExtends(d, t);
    }
  }

  /** A relative name joined onto a directory inside `top` is inside `top`. */
  lemma WithinJoin(r: string, top: string, x: string)
    requires Within(r, top)
    requires x == [] || x[0] != '/'
    ensures Within(Join(r, x), top)
  {
    JoinExtends(r, x);
    JoinExtends(top, x);
  }

  /** Being inside a tree is transitive. */
  lemma WithinTrans(p: string, m: string, top: string)
    requires Within(p, m) && Within(m, top)
    ensures Within(p, top)
  {
    JoinExtends(m, "");
  }

  /**
   * The trees of two differently named entries of the same directory are
   * disjoint: a path inside both names the same entry twice.
   */
  lemma SiblingTreesDisjoint(parent: string, u: string, v: string, p: string)
    requires u != [] && NoChar(u, '/') && v != [] && NoChar(v, '/')
    requires Within(p, Join(parent, u)) && Within(p, Join(parent, v))
    ensures u == v
  {
    ChildSegment(parent, u, p);
    ChildSegment(parent, v, p);
    SameFirstSegment(p[|Join(parent, "")|..], u, v);
  }

  /**
   * A path inside the entry `u` of `parent` continues, after `parent` and
   * its separator, with `u` up to the end or up to a '/'.
   */
  lemma ChildSegment(parent: string, u: string, p: string)
    requires u != [] && NoChar(u, '/')
    requires Within(p, Join(parent, u))
    ensures |Join(parent, "")| <= |p|
    ensures var q := p[|Join(parent, "")|..]; u <= q && (|q| == |u| || q[|u|] == '/')
  {
    var base := Join(parent, "");
    assert Join(parent, u) == base + u;
    assert (base + u)[|base + u| - 1] == u[|u| - 1];
    assert Join(base + u, "") == base + u + "/";
    var q := p[|base|..];
    assert base + u <= p;
    forall i | 0 <= i < |u| ensures q[i] == u[i] {
      assert q[i] == p[|base| + i] == (base + u)[|base| + i];
    }
    if p != base + u {
      assert p[|base| + |u|] == (base + u + "/")[|base| + |u|];
    }
  }

  /** Two slash-free names that each run up to the first '/' of `q` are equal. */
  lemma SameFirstSegment(q: string, u: string, v: string)
    requires NoChar(u, '/') && NoChar(v, '/')
    requires u <= q && (|q| == |u| || q[|u|] == '/')
    requires v <= q && (|q| == |v| || q[|v|] == '/')
    ensures u == v
  {
  }
}

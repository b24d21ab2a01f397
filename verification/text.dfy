/**
 * The operations of Python's `str` that the upload views rely on:
 * substring membership (`t in s`) and deletion of every occurrence
 * (`s.replace(t, '')`).
 */
module Text {

  /** No character of `s` is `c`. */
  predicate NoChar(s: string, c: char) {
    forall i :: 0 <= i < |s| ==> s[i] != c
  }

  /** Every character of `s` is `c`. */
  predicate AllChar(s: string, c: char) {
    forall i :: 0 <= i < |s| ==> s[i] == c
  }

  /** A concatenation lacks `c` when both parts do. */
  lemma NoCharConcat(a: string, b: string, c: char)
    requires NoChar(a, c) && NoChar(b, c)
    ensures NoChar(a + b, c)
  {
    forall i | 0 <= i < |a + b|
      ensures (a + b)[i] != c
    {
      if i < |a| { assert (a + b)[i] == a[i]; } else { assert (a + b)[i] == b[i - |a|]; }
    }
  }

  /** `t` occurs in `s` starting at offset `i`. */
  predicate OccursAt(s: string, t: string, i: int) {
    0 <= i <= |s| - |t| && s[i..i + |t|] == t
  }

  /** Python's `t in s`. */
  predicate Contains(s: string, t: string) {
    exists i :: 0 <= i <= |s| - |t| && OccursAt(s, t, i)
  }

  /** An occurrence in `a` is an occurrence in `a + b`. */
  lemma ContainsLeft(a: string, b: string, t: string)
    requires Contains(a, t)
    ensures Contains(a + b, t)
  {
    var i :| 0 <= i <= |a| - |t| && OccursAt(a, t, i);
    assert (a + b)[i..i + |t|] == a[i..i + |t|];
    assert OccursAt(a + b, t, i);
  }

  /** An occurrence in `b` is an occurrence in `a + b`. */
  lemma ContainsRight(a: string, b: string, t: string)
    requires Contains(b, t)
    ensures Contains(a + b, t)
  {
    var i :| 0 <= i <= |b| - |t| && OccursAt(b, t, i);
    assert (a + b)[|a| + i..|a| + i + |t|] == b[i..i + |t|];
    assert OccursAt(a + b, t, |a| + i);
  }

  /**
   * An occurrence in `a + b` that does not straddle the seam is an
   * occurrence in `a` or in `b`.
   */
  lemma OccursInPart(a: string, b: string, t: string, i: int)
    requires OccursAt(a + b, t, i)
    ensures i + |t| <= |a| ==> OccursAt(a, t, i)
    ensures i >= |a| ==> OccursAt(b, t, i - |a|)
  {
    if i + |t| <= |a| {
      assert a[i..i + |t|] == (a + b)[i..i + |t|];
    }
    if i >= |a| {
      assert b[i - |a|..i - |a| + |t|] == (a + b)[i..i + |t|];
    }
  }

  /**
   * Python's `s.replace(t, '')`: the occurrences of `t` are found from left
   * to right without overlapping and each one is deleted. Replacing the
   * empty string by the empty string leaves `s` as it is.
   */
  function RemoveAll(s: string, t: string): (r: string)
    ensures |r| <= |s|
    ensures t == [] ==> r == s
    decreases |s|
  {
    if t == [] || |s| < |t| then s
    else if s[..|t|] == t then RemoveAll(s[|t|..], t)
    else [s[0]] + RemoveAll(s[1..], t)
  }

  /** A string in which `t` does not occur comes back unchanged. */
  lemma {:induction false} RemoveAllAbsent(s: string, t: string)
    requires !Contains(s, t)
    ensures RemoveAll(s, t) == s
    decreases |s|
  {
    if t != [] && |s| >= |t| {
      assert !OccursAt(s, t, 0);
      if !Contains(s[1..], t) {
        RemoveAllAbsent(s[1..], t);
      } else {
        var i :| 0 <= i <= |s[1..]| - |t| && OccursAt(s[1..], t, i);
        assert s[i + 1..i + 1 + |t|] == s[1..][i..i + |t|];
        assert OccursAt(s, t, i + 1);
      }
    }
  }

  /** A leading occurrence of `t` is deleted and the scan resumes after it. */
  lemma RemoveAllLeading(t: string, rest: string)
    ensures RemoveAll(t + rest, t) == RemoveAll(rest, t)
  {
    if t != [] {
      assert (t + rest)[..|t|] == t;
      assert (t + rest)[|t|..] == rest;
    }
  }

  /** A character where no occurrence starts is kept, and the scan moves on past it. */
  lemma RemoveAllSkip(c: char, rest: string, t: string)
    requires !OccursAt([c] + rest, t, 0)
    ensures RemoveAll([c] + rest, t) == [c] + RemoveAll(rest, t)
  {
    var s := [c] + rest;
    assert s[1..] == rest;
    if |s| >= |t| {
      assert s[..|t|] != t;
    }
  }

  /**
   * An occurrence of `t` anywhere is deleted: when `t` occurs in `a + t + rest`
   * first right after `a`, the characters of `a` are kept, that occurrence
   * goes, and the scan resumes on `rest`.
   */
  lemma {:induction false} RemoveAllInner(a: string, t: string, rest: string)
    requires t != []
    requires forall i :: 0 <= i < |a| ==> !OccursAt(a + t + rest, t, i)
    ensures RemoveAll(a + t + rest, t) == a + RemoveAll(rest, t)
    decreases |a|
  {
    if a == [] {
      assert a + t + rest == t + rest;
      RemoveAllLeading(t, rest);
    } else {
      var s := a + t + rest;
      var tail := a[1..];
      assert s == [a[0]] + (tail + t + rest);
      assert !OccursAt(s, t, 0);
      RemoveAllSkip(a[0], tail + t + rest, t);
      forall i | 0 <= i < |tail|
        ensures !OccursAt(tail + t + rest, t, i)
      {
        OccursAfter(a[0], tail + t + rest, t, i);
      }
      RemoveAllInner(tail, t, rest);
    }
  }

  /** `t` occurs in `[c] + u` one place later than it occurs in `u`. */
  lemma OccursAfter(c: char, u: string, t: string, i: nat)
    ensures OccursAt([c] + u, t, i + 1) <==> OccursAt(u, t, i)
  {
    if i + |t| <= |u| {
      assert ([c] + u)[i + 1..i + 1 + |t|] == u[i..i + |t|];
    }
  }

  /** `"xupy".replace("up", "")` is `"xy"`: an occurrence after the start is deleted too. */
  lemma RemoveAllExample()
    ensures RemoveAll("xupy", "up") == "xy"
  {
    assert !OccursAt("xupy", "up", 0);
    RemoveAllInner("x", "up", "y");
  }

  /**
   * Deleting `t` from `t + rest`, where `t` does not occur in `rest`, strips
   * exactly the leading `t`.
   */
  lemma RemoveAllPrefix(t: string, rest: string)
    requires !Contains(rest, t)
    ensures RemoveAll(t + rest, t) == rest
  {
    RemoveAllLeading(t, rest);
    RemoveAllAbsent(rest, t);
  }
}

/**
 * Names of stored files: the collision-free name of a new upload
 * (`get_available_name`) and the name of an image's thumbnail
 * (`get_thumb_filename`).
 */
module Naming {
  import opened Text
  import opened PosixPath

  /** The marker that names, and later identifies, a thumbnail. */
  const THUMB_MARKER := "_thumb"

  /** `k` underscores. */
  function Underscores(k: nat): (u: string)
    ensures |u| == k && AllChar(u, '_') && NoChar(u, '.') && NoChar(u, '/')
  {
    if k == 0 then "" else Underscores(k - 1) + "_"
  }

  /**
   * The name `get_available_name` tries after appending `k` underscores to
   * the stem of `name`, before its extension, in `name`'s directory.
   */
  function Candidate(name: string, k: nat): string {
    Renamed(Dir(name), Stem(name), Ext(name), k)
  }

  /** The file `root + ext` in `dir`, with `k` underscores after the stem. */
  function Renamed(dir: string, root: string, ext: string, k: nat): string {
    Join(dir, root + Underscores(k) + ext)
  }

  /** The directory part of `name`, as `split` gives it. */
  function Dir(name: string): string { Split(name).0 }

  /** The stem of `name`'s file part, as `splitext` gives it. */
  function Stem(name: string): string { SplitExt(Split(name).1).0 }

  /** The extension of `name`'s file part, dot included, as `splitext` gives it. */
  function Ext(name: string): string { SplitExt(Split(name).1).1 }

  /** Neither part of a file name holds a '/'. */
  lemma PartsHaveNoSlash(name: string)
    ensures NoChar(Stem(name), '/') && NoChar(Ext(name), '/')
  {
    var file := Split(name).1;
    assert file == Stem(name) + Ext(name);
    forall i | 0 <= i < |Stem(name)| ensures Stem(name)[i] != '/' {
      assert Stem(name)[i] == file[i];
    }
  }

  /** Each further underscore makes the renamed file one character longer. */
  lemma RenamedLength(dir: string, root: string, ext: string, k: nat)
    requires NoChar(root, '/') && NoChar(ext, '/')
    ensures |Renamed(dir, root, ext, k + 1)| == |Renamed(dir, root, ext, k)| + 1
  {
    var t, t' := root + Underscores(k) + ext, root + Underscores(k + 1) + ext;
    assert t' != [] && t'[0] != '/' by {
      if root != [] { assert t'[0] == root[0]; }
      else { assert t'[0] == '_'; }
    }
    if t != [] {
      if root != [] { assert t[0] == root[0]; }
      else if k > 0 { assert t[0] == '_'; }
      else { assert t[0] == ext[0]; }
    }
  }

  /**
   * A candidate with at least one underscore stays in the directory of
   * `name`, keeps its extension, and its stem is the original stem followed
   * by `k` underscores.
   */
  lemma CandidateShape(name: string, k: nat)
    requires k >= 1
    ensures Split(Candidate(name, k)).0 == Split(name).0
    ensures SplitExt(Split(Candidate(name, k)).1)
         == (SplitExt(Split(name).1).0 + Underscores(k), SplitExt(Split(name).1).1)
  {
    var dir, file := Split(name).0, Split(name).1;
    var root, ext := SplitExt(file).0, SplitExt(file).1;
    var t := root + Underscores(k) + ext;
    PartsHaveNoSlash(name);
    NoCharConcat(root, Underscores(k), '/');
    NoCharConcat(root + Underscores(k), ext, '/');
    assert |t| >= k;
    SplitJoin(dir, t);
    SplitExtAppendStem(file, Underscores(k));
  }

  /** One more underscore after the stem. */
  lemma StemGrows(stem: string, k: nat)
    ensures stem + Underscores(k) + "_" == stem + Underscores(k + 1)
  {
  }

  /** The names below `n` characters are of no further concern. */
  function AtLeast(existing: set<string>, n: int): (s: set<string>)
    ensures s <= existing
  {
    set p | p in existing && |p| >= n
  }

  /**
   * A taken candidate leaves fewer long names to collide with: this is the
   * measure by which `GetAvailableName` terminates.
   */
  lemma AtLeastShrinks(existing: set<string>, before: string, after: string)
    requires before in existing && |after| == |before| + 1
    ensures |AtLeast(existing, |after|)| < |AtLeast(existing, |before|)|
  {
    CardMono(AtLeast(existing, |after|), AtLeast(existing, |before|) - {before});
  }

  /** A subset is no larger than the set that contains it. */
  lemma CardMono<T>(a: set<T>, b: set<T>)
    requires a <= b
    ensures |a| <= |b|
    decreases a
  {
    if a != {} {
      var x :| x in a;
      CardMono(a - {x}, b - {x});
    }
  }

  /**
   * How far the renaming loop can still go: before the first pass, further
   * than any later pass; afterwards, the number of existing names at least
   * as long as the current candidate.
   */
  ghost function Remaining(existing: set<string>, r: string, k: nat): nat {
    if k == 0 then |existing| + 1 else |AtLeast(existing, |r|)|
  }

  /** A taken candidate is followed by a candidate with less left to collide with. */
  lemma NextCandidate(existing: set<string>, dir: string, stem: string, ext: string, k: nat, before: string)
    requires NoChar(stem, '/') && NoChar(ext, '/')
    requires k >= 1 ==> before == Renamed(dir, stem, ext, k)
    requires before in existing
    ensures Remaining(existing, Renamed(dir, stem, ext, k + 1), k + 1) < Remaining(existing, before, k)
  {
    var after := Renamed(dir, stem, ext, k + 1);
    CardMono(AtLeast(existing, |after|), existing);
    if k >= 1 {
      RenamedLength(dir, stem, ext, k);
      AtLeastShrinks(existing, before, after);
    }
  }

  /**
   * What `get_available_name` promises: the result does not exist; it is
   * `name` itself when `name` is free; otherwise it is the candidate with
   * the fewest underscores (at least one) that is free.
   */
  ghost predicate IsAvailableName(name: string, existing: set<string>, r: string) {
    && r !in existing
    && (name !in existing ==> r == name)
    && (name in existing ==>
          exists k :: 1 <= k && r == Candidate(name, k)
                      && forall j :: 1 <= j < k ==> Candidate(name, j) in existing)
  }

  /**
   * `get_available_name`: append underscores to the stem until the name is
   * free. `existing` is the set of paths that exist and is finite. From the
   * second pass on, each pass adds one character; the first candidate may be
   * shorter than `name`, so the measure allows for the whole set before it.
   */
  method GetAvailableName(name: string, existing: set<string>) returns (r: string)
    ensures IsAvailableName(name, existing, r)
  {
    var dirName, fileName := Split(name).0, Split(name).1;
    var fileRoot, fileExt := SplitExt(fileName).0, SplitExt(fileName).1;
    ghost var stem := fileRoot;
    PartsHaveNoSlash(name);
    r := name;
    ghost var k: nat := 0;
    while r in existing
      invariant fileRoot == stem + Underscores(k)
      invariant k == 0 ==> r == name
      invariant k >= 1 ==> r == Renamed(dirName, stem, fileExt, k) && name in existing
      invariant forall j :: 1 <= j < k ==> Renamed(dirName, stem, fileExt, j) in existing
      decreases Remaining(existing, r, k)
    {
      NextCandidate(existing, dirName, stem, fileExt, k, r);
      StemGrows(stem, k);
      fileRoot := fileRoot + "_";
      r := Join(dirName, fileRoot + fileExt);
      k := k + 1;
    }
    assert forall j :: Renamed(dirName, stem, fileExt, j) == Candidate(name, j);
  }

  /**
   * The promise of `get_available_name` determines its result: asking twice
   * about the same state gives the same name.
   */
  lemma AvailableNameUnique(name: string, existing: set<string>, r1: string, r2: string)
    requires IsAvailableName(name, existing, r1) && IsAvailableName(name, existing, r2)
    ensures r1 == r2
  {
    if name in existing {
      var k1 :| 1 <= k1 && r1 == Candidate(name, k1)
                && forall j :: 1 <= j < k1 ==> Candidate(name, j) in existing;
      var k2 :| 1 <= k2 && r2 == Candidate(name, k2)
                && forall j :: 1 <= j < k2 ==> Candidate(name, j) in existing;
      FirstFreeUnique((k: nat) => Candidate(name, k), existing, k1, k2);
    }
  }

  /** The first index whose name is free is unique. */
  lemma FirstFreeUnique(c: nat -> string, existing: set<string>, k1: nat, k2: nat)
    requires c(k1) !in existing && forall j :: 1 <= j < k1 ==> c(j) in existing
    requires c(k2) !in existing && forall j :: 1 <= j < k2 ==> c(j) in existing
    requires 1 <= k1 && 1 <= k2
    ensures k1 == k2
  {
  }

  /**
   * The available name of `name` lies in `name`'s directory and has its
   * extension; if it differs from `name`, its stem is `name`'s stem followed
   * by one or more underscores.
   */
  lemma AvailableNameShape(name: string, existing: set<string>, r: string)
    requires IsAvailableName(name, existing, r)
    ensures r == name || Split(r).0 == Split(name).0
    ensures r == name || SplitExt(Split(r).1).1 == SplitExt(Split(name).1).1
    ensures r == name || (exists k :: 1 <= k && SplitExt(Split(r).1).0 == SplitExt(Split(name).1).0 + Underscores(k))
  {
    if name in existing {
      var k :| 1 <= k && r == Candidate(name, k)
               && forall j :: 1 <= j < k ==> Candidate(name, j) in existing;
      CandidateShape(name, k);
    }
  }

  /**
   * `get_thumb_filename`: the thumbnail of `f` is `f` with the marker put
   * between its stem and its extension, so the result contains the marker
   * and `splitext` finds the same extension in it.
   */
  function GetThumbFilename(f: string): (r: string)
    ensures Contains(r, THUMB_MARKER)
    ensures SplitExt(r) == (SplitExt(f).0 + THUMB_MARKER, SplitExt(f).1)
  {
    var root, ext := SplitExt(f).0, SplitExt(f).1;
    SplitExtAppendStem(f, THUMB_MARKER);
    var r := root + THUMB_MARKER + ext;
    assert OccursAt(r, THUMB_MARKER, |root|) by {
      assert r[|root|..|root| + |THUMB_MARKER|] == THUMB_MARKER;
    }
    r
  }

  /**
   * A file name holding the marker still holds it after underscores are
   * put between its stem and its extension: the marker has no dot, so it
   * cannot straddle the dot that starts the extension.
   */
  lemma MarkerSurvivesRenaming(root: string, ext: string, k: nat)
    requires ext == [] || ext[0] == '.'
    requires Contains(root + ext, THUMB_MARKER)
    ensures Contains(root + Underscores(k) + ext, THUMB_MARKER)
  {
    var m := THUMB_MARKER;
    var i :| 0 <= i <= |root + ext| - |m| && OccursAt(root + ext, m, i);
    MarkerBesideDot(root, ext, i);
    OccursInPart(root, ext, m, i);
    if i + |m| <= |root| {
      ContainsLeft(root, Underscores(k) + ext, m);
      assert root + (Underscores(k) + ext) == root + Underscores(k) + ext;
    } else {
      ContainsRight(root + Underscores(k), ext, m);
    }
  }

  /** The marker has no dot, so an occurrence cannot cover the dot that starts `ext`. */
  lemma MarkerBesideDot(root: string, ext: string, i: int)
    requires ext == [] || ext[0] == '.'
    requires OccursAt(root + ext, THUMB_MARKER, i)
    ensures i + |THUMB_MARKER| <= |root| || i >= |root|
  {
    assert NoChar(THUMB_MARKER, '.');
    assert forall j :: i <= j < i + |THUMB_MARKER| ==> (root + ext)[j] == THUMB_MARKER[j - i];
    if ext != [] { assert (root + ext)[|root|] == '.'; }
  }

  /** Distinct files have distinct thumbnails. */
  lemma ThumbInjective(f: string, g: string)
    requires GetThumbFilename(f) == GetThumbFilename(g)
    ensures f == g
  {
    var rf, ef := SplitExt(f).0, SplitExt(f).1;
    var rg, eg := SplitExt(g).0, SplitExt(g).1;
    assert rf + THUMB_MARKER == rg + THUMB_MARKER;
    assert rf == (rf + THUMB_MARKER)[..|rf|];
    assert rg == (rg + THUMB_MARKER)[..|rg|];
  }

  /** A thumbnail is written beside its file, in the same directory. */
  lemma ThumbIsSibling(f: string)
    ensures Split(GetThumbFilename(f)).0 == Split(f).0
  {
    InsertKeepsDir(SplitExt(f).0, THUMB_MARKER, SplitExt(f).1);
  }

  /** Text free of '/' inserted after the last '/' leaves the directory part alone. */
  lemma InsertKeepsDir(root: string, mid: string, ext: string)
    requires NoChar(mid, '/') && NoChar(ext, '/')
    ensures Split(root + mid + ext).0 == Split(root + ext).0
  {
    var tail := mid + ext;
    NoCharConcat(mid, ext, '/');
    SplitHeadAppend(root, tail);
    SplitHeadAppend(root, ext);
    assert root + mid + ext == root + tail;
  }
}

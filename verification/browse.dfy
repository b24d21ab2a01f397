/**
 * `get_image_browse_urls`: the gallery listing. The upload tree, or the
 * user's own part of it, is walked, thumbnails are skipped, and every other
 * file becomes an image entry (its thumbnail exists) or a file entry (an
 * icon and a shortened name).
 */
module Browse {
  import opened Wrappers
  import opened Text
  import opened PosixPath
  import opened Config
  import opened Icons
  import opened MediaUrl
  import opened Naming

  /** One step of `os.walk`: a directory and the names of the files in it. */
  datatype WalkStep = WalkStep(root: string, files: seq<string>)

  /** One dictionary of the listing. */
  datatype GalleryEntry = GalleryEntry(thumb: Option<string>, src: string,
                                       visibleFilename: Option<string>, isImage: bool)

  /** Names that `os.walk` reports are not empty and hold no '/'. */
  predicate IsFileName(x: string) {
    x != [] && NoChar(x, '/')
  }

  /**
   * The directory `get_image_browse_urls` walks. A non-superuser under the
   * restriction flag sees only the directory named after them; everyone
   * else, and a user whose name is empty, sees the whole upload tree. A
   * relative user name keeps the scan inside the upload tree as a string;
   * for the names `.` and `..` the directory on disk is the upload tree
   * itself or its parent.
   */
  function ScanRoot(s: Settings, user: Option<User>): (r: string)
    ensures user.None? || user.value.isSuperuser || !s.restrictByUser || user.value.username == []
            ==> r == Join(s.uploadPath, "")
    ensures user.None? || user.value.username == [] || user.value.username[0] != '/'
            ==> Within(r, s.uploadPath)
  {
    var userPath := if user.Some? && !user.value.isSuperuser && s.restrictByUser
                    then user.value.username else "";
    JoinWithin(s.uploadPath, userPath);
    Join(s.uploadPath, userPath)
  }

  /** The name the listing shows for a file that is not an image. */
  function VisibleFilename(name: string): (r: string)
    ensures |r| <= 22
    ensures |name| <= 20 ==> r == name
    ensures |name| > 20 ==> |r| == 22 && r[..19] == name[..19] && r[19..] == "..."
  {
    if |name| > 20 then name[..19] + "..." else name
  }

  /** The entry for the file at `p`, given the existing paths `fs`; it describes that file. */
  function MakeEntry(p: string, s: Settings, fs: set<string>, search: Matcher, codec: UrlCodec): (e: GalleryEntry)
    ensures Describes(e, p, s, fs, search, codec)
  {
    var thumbPath := GetThumbFilename(p);
    if thumbPath in fs then
      GalleryEntry(Some(GetMediaUrl(thumbPath, s, codec)), GetMediaUrl(p, s, codec), None, true)
    else
      GalleryEntry(GetIconFilename(s.FileIcons(), search, p), GetMediaUrl(p, s, codec),
                   Some(VisibleFilename(Split(p).1)), false)
  }

  /** The full paths of the files of one walk step, in order. */
  function StepPaths(root: string, files: seq<string>): (ps: seq<string>)
    ensures |ps| == |files|
    ensures forall k :: 0 <= k < |files| ==> ps[k] == Join(root, files[k])
  {
    if files == [] then [] else StepPaths(root, files[..|files| - 1]) + [Join(root, files[|files| - 1])]
  }

  /** The full paths of all files the walk reports, in walk order. */
  function WalkPaths(steps: seq<WalkStep>): seq<string> {
    if steps == [] then []
    else WalkPaths(steps[..|steps| - 1]) + StepPaths(steps[|steps| - 1].root, steps[|steps| - 1].files)
  }

  /** The listing built from the paths `ps`, thumbnails skipped. */
  function Entries(ps: seq<string>, s: Settings, fs: set<string>, search: Matcher, codec: UrlCodec)
    : (es: seq<GalleryEntry>)
    ensures |es| <= |ps|
  {
    if ps == [] then []
    else
      var p := ps[|ps| - 1];
      Entries(ps[..|ps| - 1], s, fs, search, codec)
        + (if Contains(p, THUMB_MARKER) then [] else [MakeEntry(p, s, fs, search, codec)])
  }

  /**
   * What an entry says about the file at `p`, as the browse view promises:
   * it links to the file; it is an image exactly when the thumbnail exists,
   * and then shows the thumbnail and no name; otherwise it shows the icon of
   * the first matching rule and the file's name, cut to 19 characters and
   * "..." when longer than 20.
   */
  ghost predicate Describes(e: GalleryEntry, p: string, s: Settings, fs: set<string>,
                            search: Matcher, codec: UrlCodec)
  {
    var name := Split(p).1;
    && e.src == GetMediaUrl(p, s, codec)
    && (e.isImage <==> GetThumbFilename(p) in fs)
    && (e.isImage ==> e.visibleFilename == None
                      && e.thumb == Some(GetMediaUrl(GetThumbFilename(p), s, codec)))
    && (!e.isImage ==> e.thumb == GetIconFilename(s.FileIcons(), search, p)
                       && e.visibleFilename.Some?
                       && (|name| <= 20 ==> e.visibleFilename.value == name)
                       && (|name| > 20 ==> e.visibleFilename.value == name[..19] + "..."))
  }

  /**
   * Every entry of the listing is the entry of a file among `ps` whose path
   * does not contain the thumbnail marker, and so describes that file.
   */
  lemma EntriesSound(ps: seq<string>, s: Settings, fs: set<string>,
                     search: Matcher, codec: UrlCodec, k: nat)
    requires k < |Entries(ps, s, fs, search, codec)|
    ensures exists i :: 0 <= i < |ps| && !Contains(ps[i], THUMB_MARKER)
                        && Describes(Entries(ps, s, fs, search, codec)[k], ps[i], s, fs, search, codec)
  {
    var i := EntryOrigin(ps, s, fs, search, codec, k);
  }

  /** The index among `ps` of the file that entry `k` of the listing was built from. */
  lemma {:induction false} EntryOrigin(ps: seq<string>, s: Settings, fs: set<string>,
                                       search: Matcher, codec: UrlCodec, k: nat) returns (i: nat)
    requires k < |Entries(ps, s, fs, search, codec)|
    ensures i < |ps| && !Contains(ps[i], THUMB_MARKER)
    ensures Entries(ps, s, fs, search, codec)[k] == MakeEntry(ps[i], s, fs, search, codec)
  {
    var front, p := ps[..|ps| - 1], ps[|ps| - 1];
    var before := Entries(front, s, fs, search, codec);
    if k < |before| {
      i := EntryOrigin(front, s, fs, search, codec, k);
      assert ps[i] == front[i];
    } else {
      i := |ps| - 1;
    }
  }

  /** Every file among `ps` whose path lacks the marker has its entry. */
  lemma {:induction false} EntriesComplete(ps: seq<string>, s: Settings, fs: set<string>,
                                           search: Matcher, codec: UrlCodec, i: nat)
    requires i < |ps| && !Contains(ps[i], THUMB_MARKER)
    ensures MakeEntry(ps[i], s, fs, search, codec) in Entries(ps, s, fs, search, codec)
  {
    var front := ps[..|ps| - 1];
    if i < |ps| - 1 {
      assert ps[i] == front[i];
      EntriesComplete(front, s, fs, search, codec, i);
    }
  }

  /** The listing of `ps` followed by one more path. */
  lemma EntriesSnoc(ps: seq<string>, p: string, s: Settings, fs: set<string>, search: Matcher, codec: UrlCodec)
    ensures Entries(ps + [p], s, fs, search, codec)
         == Entries(ps, s, fs, search, codec)
            + (if Contains(p, THUMB_MARKER) then [] else [MakeEntry(p, s, fs, search, codec)])
  {
    assert (ps + [p])[..|ps|] == ps;
  }

  /**
   * `get_image_browse_urls`: walk the scan root and append one entry per
   * file that is not a thumbnail. `walk` is `os.walk`, `fs` the set of
   * existing paths, `search` the regular-expression engine and `codec` the
   * URL parser.
   */
  method GetImageBrowseUrls(s: Settings, user: Option<User>, fs: set<string>,
                            walk: string -> seq<WalkStep>, search: Matcher, codec: UrlCodec)
    returns (images: seq<GalleryEntry>)
    ensures images == Entries(WalkPaths(walk(ScanRoot(s, user))), s, fs, search, codec)
  {
    images := [];
    var browsePath := ScanRoot(s, user);
    var steps := walk(browsePath);
    for i := 0 to |steps|
      invariant images == Entries(WalkPaths(steps[..i]), s, fs, search, codec)
    {
      var more := DirectoryEntries(steps[i].root, steps[i].files, s, fs, search, codec);
      WalkPathsSnoc(steps, i);
      EntriesAppend(WalkPaths(steps[..i]), StepPaths(steps[i].root, steps[i].files), s, fs, search, codec);
      images := images + more;
    }
    assert steps[..|steps|] == steps;
  }

  /** The entries for the files of one directory the walk reports, thumbnails skipped. */
  method DirectoryEntries(root: string, files: seq<string>, s: Settings, fs: set<string>,
                          search: Matcher, codec: UrlCodec)
    returns (images: seq<GalleryEntry>)
    ensures images == Entries(StepPaths(root, files), s, fs, search, codec)
  {
    images := [];
    for j := 0 to |files|
      invariant images == Entries(StepPaths(root, files[..j]), s, fs, search, codec)
    {
      var filename := Join(root, files[j]);
      StepPathsSnoc(root, files, j);
      EntriesSnoc(StepPaths(root, files[..j]), filename, s, fs, search, codec);
      if !Contains(filename, THUMB_MARKER) {
        var entry := FileEntry(filename, s, fs, search, codec);
        images := images + [entry];
      }
    }
    assert files[..|files|] == files;
  }

  /** The listing of two runs of paths is the listing of the first followed by that of the second. */
  lemma {:induction false} EntriesAppend(ps: seq<string>, qs: seq<string>, s: Settings, fs: set<string>,
                                         search: Matcher, codec: UrlCodec)
    ensures Entries(ps + qs, s, fs, search, codec)
         == Entries(ps, s, fs, search, codec) + Entries(qs, s, fs, search, codec)
    decreases |qs|
  {
    if qs == [] {
      assert ps + qs == ps;
    } else {
      var front, q := qs[..|qs| - 1], qs[|qs| - 1];
      var last := if Contains(q, THUMB_MARKER) then [] else [MakeEntry(q, s, fs, search, codec)];
      assert qs == front + [q];
      assert ps + qs == (ps + front) + [q];
      calc {
        Entries(ps + qs, s, fs, search, codec);
        { EntriesSnoc(ps + front, q, s, fs, search, codec); }
        Entries(ps + front, s, fs, search, codec) + last;
        { EntriesAppend(ps, front, s, fs, search, codec); }
        (Entries(ps, s, fs, search, codec) + Entries(front, s, fs, search, codec)) + last;
        Entries(ps, s, fs, search, codec) + (Entries(front, s, fs, search, codec) + last);
        { EntriesSnoc(front, q, s, fs, search, codec); }
        Entries(ps, s, fs, search, codec) + Entries(qs, s, fs, search, codec);
      }
    }
  }

  /** The paths of one more file are the paths before it plus that file joined onto the root. */
  lemma StepPathsSnoc(root: string, files: seq<string>, j: nat)
    requires j < |files|
    ensures StepPaths(root, files[..j + 1]) == StepPaths(root, files[..j]) + [Join(root, files[j])]
  {
    assert files[..j + 1][..j] == files[..j];
  }

  /** The paths of one more walk step are the paths before it plus that step's paths. */
  lemma WalkPathsSnoc(steps: seq<WalkStep>, i: nat)
    requires i < |steps|
    ensures WalkPaths(steps[..i + 1]) == WalkPaths(steps[..i]) + StepPaths(steps[i].root, steps[i].files)
  {
    assert steps[..i + 1][..i] == steps[..i];
  }

  /** The dictionary the listing builds for one file that is not a thumbnail. */
  method FileEntry(filename: string, s: Settings, fs: set<string>, search: Matcher, codec: UrlCodec)
    returns (entry: GalleryEntry)
    ensures Describes(entry, filename, s, fs, search, codec)
    ensures entry == MakeEntry(filename, s, fs, search, codec)
  {
    var thumbPath := GetThumbFilename(filename);
    var visibleFilename: Option<string>;
    var isImage: bool;
    if thumbPath in fs {
      visibleFilename := None;
      isImage := true;
      thumbPath := GetMediaUrl(thumbPath, s, codec);
      entry := GalleryEntry(Some(thumbPath), GetMediaUrl(filename, s, codec), visibleFilename, isImage);
    } else {
      var name := Split(filename).1;
      if |name| > 20 {
        name := name[0..19] + "...";
      }
      visibleFilename := Some(name);
      isImage := false;
      var icon := GetIconFilename(s.FileIcons(), search, filename);
      entry := GalleryEntry(icon, GetMediaUrl(filename, s, codec), visibleFilename, isImage);
    }
  }

  /**
   * The walk reports exactly the paths of its files: each path is a file
   * name of some step joined onto that step's directory, and each such
   * join is reported.
   */
  lemma {:induction false} WalkPathsMembers(steps: seq<WalkStep>, p: string)
    ensures p in WalkPaths(steps)
            <==> exists a, b :: 0 <= a < |steps| && 0 <= b < |steps[a].files|
                                && p == Join(steps[a].root, steps[a].files[b])
  {
    if steps != [] {
      var front, last := steps[..|steps| - 1], steps[|steps| - 1];
      var ps := StepPaths(last.root, last.files);
      WalkPathsMembers(front, p);
      if p in WalkPaths(steps) {
        if p in WalkPaths(front) {
          var a, b :| 0 <= a < |front| && 0 <= b < |front[a].files|
                      && p == Join(front[a].root, front[a].files[b]);
          assert steps[a] == front[a];
        } else {
          var b :| 0 <= b < |ps| && ps[b] == p;
          assert p == Join(steps[|steps| - 1].root, steps[|steps| - 1].files[b]);
        }
      } else {
        forall a, b | 0 <= a < |steps| && 0 <= b < |steps[a].files|
          ensures p != Join(steps[a].root, steps[a].files[b])
        {
          if a < |front| {
            assert steps[a] == front[a];
          } else {
            assert ps[b] == Join(steps[a].root, steps[a].files[b]);
          }
        }
      }
    }
  }

  /** Every file the walk reports lies inside the tree the walk started from. */
  predicate WalkWithin(steps: seq<WalkStep>, top: string) {
    forall a :: 0 <= a < |steps| ==>
      Within(steps[a].root, top) && forall b :: 0 <= b < |steps[a].files| ==> IsFileName(steps[a].files[b])
  }

  /** A walk that stays inside `top` reports only paths inside `top`. */
  lemma {:induction false} WalkPathsWithin(steps: seq<WalkStep>, top: string)
    requires WalkWithin(steps, top)
    ensures forall p :: p in WalkPaths(steps) ==> Within(p, top)
  {
    if steps != [] {
      var last := steps[|steps| - 1];
      assert WalkWithin(steps[..|steps| - 1], top);
      WalkPathsWithin(steps[..|steps| - 1], top);
      StepPathsWithin(last.root, last.files, top);
    }
  }

  lemma {:induction false} StepPathsWithin(root: string, files: seq<string>, top: string)
    requires Within(root, top)
    requires forall b :: 0 <= b < |files| ==> IsFileName(files[b])
    ensures forall p :: p in StepPaths(root, files) ==> Within(p, top)
  {
    if files != [] {
      StepPathsWithin(root, files[..|files| - 1], top);
      WithinJoin(root, top, files[|files| - 1]);
    }
  }

  /**
   * Under the restriction flag a user who is not a superuser is shown
   * nothing from another user's directory: every path the walk of their scan
   * root reports lies outside the tree of any other user name.
   */
  lemma RestrictedScanHidesOtherUsers(s: Settings, u: User, other: string,
                                      steps: seq<WalkStep>, p: string)
    requires s.restrictByUser && !u.isSuperuser
    requires IsFileName(u.username) && IsFileName(other) && other != u.username
    requires u.username != "." && u.username != ".." && other != "." && other != ".."
    requires WalkWithin(steps, ScanRoot(s, Some(u)))
    requires p in WalkPaths(steps)
    ensures !Within(p, Join(s.uploadPath, other))
  {
    WalkPathsWithin(steps, ScanRoot(s, Some(u)));
    if Within(p, Join(s.uploadPath, other)) {
      SiblingTreesDisjoint(s.uploadPath, u.username, other, p);
    }
  }

  /**
   * Without the restriction (no user, a superuser, or the flag unset) the
   * scan root is the upload directory itself, so every path below the
   * upload path lies inside the scanned tree.
   */
  lemma UnrestrictedScanSeesAll(s: Settings, user: Option<User>, p: string)
    requires !s.restrictByUser || user.None? || user.value.isSuperuser
    requires Join(s.uploadPath, "") <= p
    ensures Within(p, ScanRoot(s, user))
  {
    assert ScanRoot(s, user) == Join(s.uploadPath, "");
    JoinExtends(s.uploadPath, "");
  }
}

/**
 * The upload side: where an uploaded file is stored (`get_upload_filename`)
 * and what storing it does to the file system (`upload`).
 */
module Upload {
  import opened Wrappers
  import opened Text
  import opened PosixPath
  import opened Config
  import opened MediaUrl
  import opened Naming
  import Icons
  import Browse

  /**
   * What `create_thumbnail` does with a stored file. Only `IOError` is
   * caught by `upload` (Python 2 reads `except IOError, OverflowError` as
   * catching `IOError` and naming it `OverflowError`).
   */
  datatype ThumbnailOutcome =
    | Saved       // decoded as an image; the thumbnail is written beside the file
    | IOError     // not an image, or unreadable: swallowed
    | OtherError  // any other exception, OverflowError included: it escapes `upload`

  /** An exception that escapes the upload view. */
  datatype UploadError = ThumbnailFailed

  /**
   * The directory `get_upload_filename` puts an upload in: the upload path,
   * followed by the user's name when the restriction flag is set (whether
   * or not the user is a superuser), followed by the date path `YYYY/MM/DD`.
   * It ends with the date path.
   */
  function UploadDir(s: Settings, user: User, datePath: string): (r: string)
    ensures |datePath| <= |r| && r[|r| - |datePath|..] == datePath
  {
    var userPath := if s.restrictByUser then user.username else "";
    JoinShape(Join(s.uploadPath, userPath), datePath);
    Join(Join(s.uploadPath, userPath), datePath)
  }

  /**
   * The head and tail `os.makedirs(name)` works with: those of `split`,
   * split once more when `name` ends in '/'. The head is a leading part of
   * `name`, shorter than it whenever the tail is not empty.
   */
  function MakeDirsSplit(name: string): (r: (string, string))
    ensures r.0 <= name
    ensures r.1 != [] ==> |r.0| < |name|
  {
    var head, tail := Split(name).0, Split(name).1;
    if tail == [] then Split(head) else (head, tail)
  }

  /** `split` takes a path apart into a leading part and a tail, shorter when the tail is not empty. */
  ghost predicate Shortens(split: string -> (string, string)) {
    forall p :: split(p).0 <= p && (split(p).1 != [] ==> |split(p).0| < |p|)
  }

  /**
   * The directories `os.makedirs(name)` creates when the paths `existing`
   * exist: `name` and, first, its missing ancestors.
   */
  function MakeDirs(name: string, existing: set<string>): (r: set<string>)
    ensures MakeDirsSplit(name).1 != "." ==> name in r
  {
    MakeDirsWith(MakeDirsSplit, name, existing)
  }

  /**
   * When the parent `os.makedirs` finds for `name` is missing, everything
   * `os.makedirs` creates for that parent is created too. With the
   * postcondition of `MakeDirs`, this makes every missing directory up the
   * chain of parents exist afterwards, up to the first one that exists.
   */
  lemma MakeDirsCreatesParent(name: string, existing: set<string>)
    ensures var head, tail := MakeDirsSplit(name).0, MakeDirsSplit(name).1;
            head != [] && tail != [] && head !in existing
            ==> MakeDirs(head, existing) <= MakeDirs(name, existing)
  {
  }

  /** The recursion of `os.makedirs`, with `split` taking each path apart. */
  function MakeDirsWith(split: string -> (string, string), name: string, existing: set<string>): set<string>
    requires Shortens(split)
    decreases |name|
  {
    var head, tail := split(name).0, split(name).1;
    if head != [] && tail != [] && head !in existing then
      MakeDirsWith(split, head, existing) + (if tail == "." then {} else {name})
    else
      {name}
  }

  /**
   * `os.makedirs` creates nothing outside `name`'s line of ancestors: each
   * directory it creates is `name` or a leading part of it, and each
   * ancestor it creates was missing.
   */
  lemma MakeDirsAncestors(name: string, existing: set<string>)
    ensures forall d :: d in MakeDirs(name, existing) ==> d <= name && (d != name ==> d !in existing)
  {
    forall d | d in MakeDirs(name, existing)
      ensures d <= name && (d != name ==> d !in existing)
    {
      MakeDirsWithAncestors(MakeDirsSplit, name, existing, d);
    }
  }

  lemma {:induction false} MakeDirsWithAncestors(split: string -> (string, string), name: string,
                                                 existing: set<string>, d: string)
    requires Shortens(split)
    requires d in MakeDirsWith(split, name, existing)
    ensures d <= name
    ensures d != name ==> d !in existing
    decreases |name|
  {
    var head, tail := split(name).0, split(name).1;
    if head != [] && tail != [] && head !in existing && d in MakeDirsWith(split, head, existing) {
      MakeDirsWithAncestors(split, head, existing, d);
      PrefixTrans(d, head, name);
    }
  }

  /** A prefix of a prefix of `c` is a prefix of `c`. */
  lemma PrefixTrans(a: string, b: string, c: string)
    requires a <= b && b <= c
    ensures a <= c
  {
    assert c[..|a|] == b[..|a|];
  }

  /** The directories `get_upload_filename` creates before a file is stored in `dir`. */
  function CreatedDirs(dir: string, existing: set<string>): set<string> {
    if dir in existing then {} else MakeDirs(dir, existing)
  }

  /** The set of paths on disk, which the upload view extends. */
  class Storage {
    var paths: set<string>

    constructor (initial: set<string>)
      ensures paths == initial
    {
      paths := initial;
    }

    /**
     * `get_upload_filename`: create the upload directory if needed, then
     * pick a free name for `uploadName` in it.
     */
    method GetUploadFilename(uploadName: string, user: User, s: Settings, datePath: string)
      returns (r: string)
      modifies this
      ensures paths == old(paths) + CreatedDirs(UploadDir(s, user, datePath), old(paths))
      ensures IsAvailableName(Join(UploadDir(s, user, datePath), uploadName), paths, r)
      ensures IsDatePath(datePath) ==> UploadDir(s, user, datePath) in paths
    {
      var uploadPath := UploadDir(s, user, datePath);
      if IsDatePath(datePath) {
        UploadDirExists(s, user, datePath, paths);
      }
      if uploadPath !in paths {
        paths := paths + MakeDirs(uploadPath, paths);
      }
      r := GetAvailableName(Join(uploadPath, uploadName), paths);
    }

    /**
     * `upload`: store the file under a fresh name, attempt its thumbnail,
     * and answer with the file's public URL. `stored` is the path written.
     */
    method Upload(uploadName: string, user: User, s: Settings, datePath: string,
                  thumbnail: ThumbnailOutcome, codec: UrlCodec)
      returns (result: Result<string, UploadError>, ghost stored: string)
      modifies this
      ensures stored !in old(paths)
      ensures IsAvailableName(Join(UploadDir(s, user, datePath), uploadName),
                              old(paths) + CreatedDirs(UploadDir(s, user, datePath), old(paths)), stored)
      ensures paths == old(paths) + CreatedDirs(UploadDir(s, user, datePath), old(paths)) + {stored}
                       + (if thumbnail == Saved then {GetThumbFilename(stored)} else {})
      ensures thumbnail == OtherError ==> result == Failure(ThumbnailFailed)
      ensures thumbnail != OtherError ==> result == Success(GetMediaUrl(stored, s, codec))
    {
      var uploadFilename := GetUploadFilename(uploadName, user, s, datePath);
      stored := uploadFilename;
      paths := paths + {uploadFilename};
      match thumbnail {
        case Saved =>
          paths := paths + {GetThumbFilename(uploadFilename)};
        case IOError =>
        case OtherError =>
          result := Failure(ThumbnailFailed);
          return;
      }
      result := Success(GetMediaUrl(uploadFilename, s, codec));
    }
  }

  /** A date path as `strftime('%Y/%m/%d')` produces it: relative, ending in a digit. */
  predicate IsDatePath(d: string) {
    d != [] && d[0] != '/' && '0' <= d[|d| - 1] <= '9'
  }

  /**
   * The last component of an upload directory is the day of the month, never
   * `.`, so `os.makedirs` creates the directory itself: once a missing
   * directory has been created, it exists.
   */
  lemma UploadDirExists(s: Settings, user: User, datePath: string, existing: set<string>)
    requires IsDatePath(datePath)
    ensures UploadDir(s, user, datePath) in existing + CreatedDirs(UploadDir(s, user, datePath), existing)
  {
    var dir := UploadDir(s, user, datePath);
    var tail := Split(dir).1;
    SplitRule(dir);
    assert dir[|dir| - 1] == datePath[|datePath| - 1];
    assert tail != [] && tail[|tail| - 1] == dir[|dir| - 1];
    assert MakeDirsSplit(dir).1 == tail;
  }

  /**
   * The stored file lies directly in the upload directory, inside its tree,
   * and keeps the extension of the uploaded name.
   */
  lemma StoredInUploadDir(s: Settings, user: User, datePath: string, uploadName: string,
                          existing: set<string>, r: string)
    requires IsDatePath(datePath) && Browse.IsFileName(uploadName)
    requires IsAvailableName(Join(UploadDir(s, user, datePath), uploadName), existing, r)
    ensures Split(r).0 == UploadDir(s, user, datePath)
    ensures SplitExt(Split(r).1).1 == SplitExt(uploadName).1
    ensures Within(r, UploadDir(s, user, datePath))
  {
    var dir := UploadDir(s, user, datePath);
    var name := Join(dir, uploadName);
    UploadNameSplits(s, user, datePath, uploadName);
    AvailableNameShape(name, existing, r);
    if name in existing {
      var k :| 1 <= k && r == Candidate(name, k)
               && forall j :: 1 <= j < k ==> Candidate(name, j) in existing;
      PartsHaveNoSlash(name);
      var file := Stem(name) + Underscores(k) + Ext(name);
      assert file[0] != '/' by {
        if Stem(name) == [] {
          assert file[0] == Underscores(k)[0];
        } else {
          assert file[0] == Stem(name)[0];
        }
      }
      JoinWithin(dir, file);
    } else {
      JoinWithin(dir, uploadName);
    }
  }

  /** The upload path splits back into the upload directory and the uploaded name. */
  lemma UploadNameSplits(s: Settings, user: User, datePath: string, uploadName: string)
    requires IsDatePath(datePath) && Browse.IsFileName(uploadName)
    ensures Split(Join(UploadDir(s, user, datePath), uploadName)) == (UploadDir(s, user, datePath), uploadName)
  {
    var dir := UploadDir(s, user, datePath);
    var userPath := if s.restrictByUser then user.username else "";
    assert dir == Join(Join(s.uploadPath, userPath), datePath);
    assert dir[|dir| - 1] == datePath[|datePath| - 1];
    SplitJoin(dir, uploadName);
  }

  /**
   * Whatever the settings and whether or not the uploader is a superuser,
   * the directory an upload goes to lies inside the tree that the same
   * user's browse view walks, comparing paths as strings. A superuser named
   * `..` uploads to `up/../<date>`, which is inside `up` only as a string.
   */
  lemma UploadVisibleToUploader(s: Settings, user: User, datePath: string)
    requires user.username == [] || user.username[0] != '/'
    requires datePath == [] || datePath[0] != '/'
    ensures Within(UploadDir(s, user, datePath), Browse.ScanRoot(s, Some(user)))
  {
    var up := s.uploadPath;
    var base := Join(up, "");
    if s.restrictByUser && !user.isSuperuser {
      JoinExtends(Join(up, user.username), datePath);
    } else if s.restrictByUser {
      JoinExtends(up, user.username);
      assert Join(base, "") == base;
      WithinJoin(Join(up, user.username), base, datePath);
    } else {
      JoinExtends(base, datePath);
    }
  }

  /**
   * Under the restriction flag, what one user uploads is outside the tree
   * that any other non-superuser's browse view walks.
   */
  lemma OtherUsersUploadsHidden(s: Settings, uploader: User, viewer: User, datePath: string, p: string)
    requires s.restrictByUser && !viewer.isSuperuser
    requires Browse.IsFileName(uploader.username) && Browse.IsFileName(viewer.username)
    requires uploader.username != "." && uploader.username != ".."
    requires viewer.username != "." && viewer.username != ".."
    requires uploader.username != viewer.username
    requires datePath == [] || datePath[0] != '/'
    requires Within(p, UploadDir(s, uploader, datePath))
    ensures !Within(p, Browse.ScanRoot(s, Some(viewer)))
  {
    var home := Join(s.uploadPath, uploader.username);
    JoinExtends(home, datePath);
    WithinTrans(p, UploadDir(s, uploader, datePath), home);
    if Within(p, Browse.ScanRoot(s, Some(viewer))) {
      SiblingTreesDisjoint(s.uploadPath, viewer.username, uploader.username, p);
    }
  }

  /**
   * The browse view skips every path that contains the thumbnail marker,
   * and the marker is looked for in the whole path: an upload whose name
   * contains it is stored under a name that still contains it, and adding
   * that file to what the walk reports leaves the listing unchanged.
   */
  lemma MarkedUploadNeverListed(s: Settings, user: User, datePath: string, uploadName: string,
                                existing: set<string>, r: string, ps: seq<string>,
                                fs: set<string>, search: Icons.Matcher, codec: UrlCodec)
    requires IsDatePath(datePath) && Browse.IsFileName(uploadName)
    requires Contains(uploadName, THUMB_MARKER)
    requires IsAvailableName(Join(UploadDir(s, user, datePath), uploadName), existing, r)
    ensures Contains(r, THUMB_MARKER)
    ensures Browse.Entries(ps + [r], s, fs, search, codec) == Browse.Entries(ps, s, fs, search, codec)
  {
    UploadNameSplits(s, user, datePath, uploadName);
    MarkedNameStaysMarked(UploadDir(s, user, datePath), uploadName, existing, r);
    Browse.EntriesSnoc(ps, r, s, fs, search, codec);
  }

  /** Renaming a file whose name holds the marker keeps the marker in the path. */
  lemma MarkedNameStaysMarked(dir: string, file: string, existing: set<string>, r: string)
    requires Split(Join(dir, file)) == (dir, file)
    requires Contains(file, THUMB_MARKER)
    requires IsAvailableName(Join(dir, file), existing, r)
    ensures Contains(r, THUMB_MARKER)
  {
    var name := Join(dir, file);
    if name in existing {
      var k :| 1 <= k && r == Candidate(name, k)
               && forall j :: 1 <= j < k ==> Candidate(name, j) in existing;
      var root, ext := SplitExt(file).0, SplitExt(file).1;
      MarkerSurvivesRenaming(root, ext, k);
      ContainsJoin(dir, root + Underscores(k) + ext, THUMB_MARKER);
    } else {
      ContainsJoin(dir, file, THUMB_MARKER);
    }
  }
}

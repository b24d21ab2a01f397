# django-ckeditor upload views, modelled in Dafny

This project models the upload and browse views of django-ckeditor
(`ckeditor/views.py`). These views let the CKEditor widget upload a file
to the server and later pick an earlier upload from a gallery. The model
covers the following:

- **Naming.** `get_available_name` appends underscores to a file's stem
  until the name is free. `get_thumb_filename` derives the `_thumb`
  companion name of a file.
- **Upload placement.** `get_upload_filename` places an upload under the
  upload path, then the user's name (when `CKEDITOR_RESTRICT_BY_USER` is
  set), then the date. It creates the missing directories on the way.
- **Upload.** `upload` stores the file and tries to make its thumbnail.
  It answers with the file's URL.
- **Public URLs.** `get_media_url` turns a path into a public URL. It
  deletes the root, prepends the URL prefix, and collapses runs of '/' in
  the URL's path.
- **Icons.** `get_icon_filename` classifies non-image files by the first
  matching rule of `CKEDITOR_FILEICONS`, including the eight default rules.
- **Gallery.** `get_image_browse_urls` walks the user's tree and builds one
  gallery entry per file that is not a thumbnail.

Modules, leaf first:

| file | module | contents |
|---|---|---|
| `wrappers.dfy` | `Wrappers` | `Option`, `Result` |
| `text.dfy` | `Text` | `t in s` and `s.replace(t, '')` on strings |
| `posix_path.dfy` | `PosixPath` | `os.path.split`, `splitext` and `join` with POSIX semantics; tree containment (`Within`) |
| `naming.dfy` | `Naming` | `get_available_name`, `get_thumb_filename` |
| `icons.dfy` | `Icons` | default icon rules, `get_icon_filename` |
| `config.dfy` | `Config` | the settings the views read, and the user |
| `media_url.dfy` | `MediaUrl` | `get_media_url` |
| `browse.dfy` | `Browse` | `get_image_browse_urls` |
| `upload.dfy` | `Upload` | `get_upload_filename` and `upload`, as methods of a `Storage` class that holds the set of existing paths |

The model represents the outside world as follows:

- **File system.** The file system is the set of paths that exist,
  `set<string>`. `os.path.exists(p)` is `p in paths`.
- **Directory walk.** `os.walk` is a function from the scan root to a
  sequence of `(root, files)` steps. The model does not fix the order of
  the steps.
- **Regular expressions.** The regex engine (`re.search(pattern, name,
  re.I)`) is a function parameter `Matcher`. Only the patterns are fixed.
- **URL parsing.** `urlparse` and `urlunparse` are a pair of function
  parameters. The model collapses the path component concretely and keeps
  every other component.
- **Clock and settings.** The date directory (`strftime('%Y/%m/%d')`), the
  settings and the user are parameters.
- **Thumbnail creation.** `create_thumbnail` is abstracted to its outcome:
  the thumbnail was saved, `IOError` was raised, or another exception was
  raised.

Four behaviours of the code worth knowing; the model follows the code:

- **Icon lookup may find nothing.** `get_icon_filename` returns `None` when
  no rule matches. The catch-all rule makes it total only for the default
  rules and for lists ending in `.*`.
- **Only `IOError` is swallowed.** Python 2 reads `except IOError,
  OverflowError:` as "catch `IOError` and bind it to the name
  `OverflowError`". Any other exception from `create_thumbnail`, including
  `OverflowError`, therefore escapes `upload`.
- **The `_thumb` check looks at the whole path.** The check is made on the
  full joined path, not on the file name alone. A directory or an upload
  whose name contains `_thumb` is left out of the gallery (see
  `Upload.MarkedUploadNeverListed`).
- **Per-user isolation rests on the user name.** The user's name is used as
  a path component as it is. A user named `..` is shown the parent of the
  upload path and everyone's uploads in it, and a user named `.` is shown
  the whole upload tree. A user whose name is empty, such as an anonymous
  user, is also shown the whole upload tree under the restriction flag
  (see `Browse.ScanRoot`). The isolation lemmas
  `Browse.RestrictedScanHidesOtherUsers` and `Upload.OtherUsersUploadsHidden`
  therefore require non-empty names other than `.` and `..`.

## Model

| member | source | states |
|---|---|---|
| Naming.GetAvailableName | ckeditor/views.py:40-54 | The result does not exist. It is `name` itself when `name` is free. Otherwise it is the candidate with the fewest underscores (one or more) that is free, and every candidate with fewer underscores exists. The loop terminates because the set of existing paths is finite and, from the second pass on, each pass adds one character. The first candidate may be shorter than `name`, so the measure allows for the whole set before it. |
| Naming.AvailableNameUnique | ckeditor/views.py:40-54 | The promise of `get_available_name` fixes its answer: two results that both satisfy it for the same name and the same file system are equal. |
| Naming.AvailableNameShape | ckeditor/views.py:45-53 | An available name that differs from the input has the same directory and the same extension. Its stem is the original stem followed by one or more underscores. |
| Naming.CandidateShape | ckeditor/views.py:51-53 | The k-th renamed candidate (k ≥ 1) splits back into the original directory. Its stem is the original stem plus k underscores, and its extension is the original extension. |
| Naming.Underscores | ckeditor/views.py:51 | k appended underscores are k characters long and contain no '.' and no '/'. So they never change where `splitext` or `split` cut the name. |
| Naming.MarkerSurvivesRenaming | ckeditor/views.py:51-53 | A file name that contains `_thumb` still contains it after underscores are inserted before its extension. |
| Naming.GetThumbFilename | ckeditor/views.py:56-60 | The thumbnail name contains `_thumb`. `splitext` finds in it the original stem plus `_thumb`, followed by the original extension. |
| Naming.ThumbInjective | ckeditor/views.py:56-60 | Two different files never share a thumbnail name. |
| Naming.ThumbIsSibling | ckeditor/views.py:60 | A thumbnail lies in the same directory as its file. |
| PosixPath.Split | ckeditor/views.py:45 | `os.path.split`, shape of the result: the tail has no '/'. The head is a leading part of the path and ends in '/' only when it is all slashes. |
| PosixPath.SplitRule | ckeditor/views.py:45 | `os.path.split` cuts after the last '/': the tail is the end of the path up to that '/' (the whole path when there is none), and the head is the rest with its trailing slashes trimmed by `Head`. |
| PosixPath.HeadRule | ckeditor/views.py:45 | The head keeps a part made only of slashes whole; any other part loses exactly its trailing slashes. |
| PosixPath.SplitExt | ckeditor/views.py:46 | `os.path.splitext`, shape of the result: root + extension is the input. The extension is empty or starts with '.', and holds no '/'. Where it starts is fixed by `ExtStartFound` and `ExtStartNone`. |
| PosixPath.ExtStart | ckeditor/views.py:46 | The extension `splitext` finds starts at a '.', and no '/' follows that point. |
| PosixPath.ExtStartFound | ckeditor/views.py:46 | When `splitext` finds an extension, it starts at the last '.' of the path. Some character other than '.' lies between the last '/' and that dot, and no '.' follows it. |
| PosixPath.ExtStartNone | ckeditor/views.py:46 | When `splitext` finds no extension, every '.' in the base name has only dots before it. A leading dot, as in `.bashrc`, does not start an extension. |
| PosixPath.JoinShape | ckeditor/views.py:53 | `os.path.join(a, b)` ends with `b`. An absolute `b` is the whole result. Otherwise the result is `a`, then a '/' exactly when `a` is non-empty and does not end in one, then `b`. |
| PosixPath.JoinWithin | ckeditor/views.py:115 | A relative name joined onto a directory lies inside that directory's tree. |
| PosixPath.SplitJoin | ckeditor/views.py:53 | Joining a directory part and a plain file name, then splitting, gives back both: `split(join(d, t)) == (d, t)`. |
| PosixPath.SplitExtAppendStem | ckeditor/views.py:60 | Text without '.' or '/' inserted between root and extension lengthens the root and leaves the extension unchanged. |
| PosixPath.SiblingTreesDisjoint | ckeditor/views.py:173 | No path lies inside the trees of two different user directories under the same parent. |
| Icons.DefaultFileIcons | ckeditor/views.py:27-38 | The default list has eight rules. Each icon lies under `CKEDITOR_MEDIA_PREFIX + 'file-icons/'`, and the last pattern is the catch-all `.*`. |
| Icons.GetIconFilename | ckeditor/views.py:62-68 | The result is `None` exactly when no rule matches. Otherwise it is the icon of a matching rule that no earlier rule precedes, i.e. the first match in list order. |
| Icons.IconOfConcat | ckeditor/views.py:66-68 | First match wins: when the rules in front answer, later rules are never consulted; otherwise the answer comes from the rules behind. |
| Icons.DefaultIconsTotal | ckeditor/views.py:29-38 | With the default rules at the end of the list, every name the engine lets `.*` match gets an icon. |
| Icons.CatchAllShadows | ckeditor/views.py:37 | A catch-all rule returns its icon for every name no earlier rule matched. Rules after it are unreachable. |
| Text.RemoveAll | ckeditor/views.py:89-91 | `s.replace(t, '')` never lengthens the string and leaves it unchanged when `t` is empty. |
| Text.RemoveAllSkip | ckeditor/views.py:89-91 | A character where no occurrence of `t` starts is kept, and the deletion carries on after it. |
| Text.RemoveAllInner | ckeditor/views.py:89-91 | Every occurrence is deleted, not only a leading one: the text before the first occurrence is kept, that occurrence goes, and the deletion carries on after it. |
| Text.RemoveAllExample | ckeditor/views.py:89-91 | `"xupy".replace("up", "")` is `"xy"`. |
| Text.RemoveAllAbsent | ckeditor/views.py:89 | `s.replace(t, '')` leaves a string that does not contain `t` unchanged. |
| Text.RemoveAllPrefix | ckeditor/views.py:89-91 | Replacing a leading root by '' gives the rest of the path, provided the root does not occur again in it. |
| MediaUrl.RawMediaUrl | ckeditor/views.py:87-91 | The URL before normalisation starts with the upload prefix when one is set (Python truthiness), and with `MEDIA_URL` otherwise. It is no longer than that prefix plus the path. |
| MediaUrl.RawMediaUrlStripsRoot | ckeditor/views.py:87-91 | With an upload prefix, a path under the upload path gets the prefix in place of that path. Without one, a path under `MEDIA_ROOT` gets `MEDIA_URL` in its place. |
| MediaUrl.CollapseSlashes | ckeditor/views.py:95 | `re.sub('/+', '/', …)`: the result has no double slash and keeps every other character in order. It starts like the input and is the input itself when that had no double slash. |
| MediaUrl.CollapseSlashesKeeps | ckeditor/views.py:95 | The substitution drops exactly the slashes that follow another slash and keeps every other character in order, so each run of slashes leaves a single slash. |
| MediaUrl.CollapseExample | ckeditor/views.py:95 | `a//b///c` becomes `a/b/c`. |
| MediaUrl.CollapseIdempotent | ckeditor/views.py:95 | Collapsing slashes twice is the same as collapsing once. |
| MediaUrl.MediaUrlParts | ckeditor/views.py:93-96 | Scheme, host, params, query and fragment are those `urlparse` found. The path is the parsed path with each run of slashes reduced to one slash, so it has no double slash and keeps every other character. |
| MediaUrl.GetMediaUrl | ckeditor/views.py:83-98 | `get_media_url` is `urlunparse` of the raw URL's components, with each run of slashes in the path component reduced to one slash and every other component unchanged. |
| MediaUrl.MediaUrlNormalised | ckeditor/views.py:83-98 | When `urlparse` reads back the components `get_media_url` hands to `urlunparse`, the public URL parses into the raw URL's scheme, host, params, query and fragment, and into a path with no double slash and the same other characters. |
| Browse.VisibleFilename | ckeditor/views.py:188-190 | A name of at most 20 characters is shown whole. A longer one is shown as its first 19 characters followed by `...`, 22 in all. |
| Browse.ScanRoot | ckeditor/views.py:166-173 | Without the restriction, or for a user whose name is empty, the walk starts at the whole upload tree. With a relative user name it stays inside the upload tree, as a string: for the names `.` and `..` the real directory is the upload tree itself or its parent. |
| Browse.StepPaths | ckeditor/views.py:176 | The paths of one directory are its file names joined onto it, one per name and in order. |
| Browse.WalkPathsMembers | ckeditor/views.py:175-176 | A path is reported exactly when it is some directory's file name joined onto that directory. |
| Browse.GetImageBrowseUrls | ckeditor/views.py:159-201 | The gallery is the listing of every path the walk reports under the scan root, in walk order. |
| Browse.DirectoryEntries | ckeditor/views.py:176-199 | The entries for one directory of the walk are the listing of its files' full paths, thumbnails skipped. |
| Browse.FileEntry | ckeditor/views.py:181-199 | One file's entry: an image (thumbnail URL, no caption) exactly when its thumbnail exists; otherwise the icon and the shortened file name. The source URL is always the file's own URL. |
| Browse.Entries | ckeditor/views.py:175-199 | The gallery has at most one entry per walked file. |
| Browse.EntryOrigin | ckeditor/views.py:175-199 | Every gallery entry is the entry built for some walked path that does not contain `_thumb`. |
| Browse.MakeEntry | ckeditor/views.py:181-199 | The entry built for a file describes it: image exactly when the thumbnail exists, then with the thumbnail's URL and no caption; otherwise with the first matching icon and the shortened name. |
| Browse.EntriesSound | ckeditor/views.py:175-199 | Every gallery entry describes a walked path that does not contain `_thumb`. |
| Browse.EntriesComplete | ckeditor/views.py:175-199 | Every walked path that does not contain `_thumb` has its entry in the gallery. |
| Browse.EntriesSnoc | ckeditor/views.py:176-179 | A further reported path adds its entry at the end of the gallery, or nothing when it contains `_thumb`. |
| Browse.EntriesAppend | ckeditor/views.py:175-176 | The gallery of two runs of walked files is the gallery of the first run followed by that of the second. |
| Browse.WalkPathsWithin | ckeditor/views.py:175-176 | A walk whose directories lie inside the scan root reports only paths inside it. |
| Browse.RestrictedScanHidesOtherUsers | ckeditor/views.py:166-173 | Under the restriction flag, a non-superuser's gallery holds no path from another user's directory, for user names that are non-empty, hold no '/' and are not `.` or `..`. |
| Browse.UnrestrictedScanSeesAll | ckeditor/views.py:166-173 | For no user, a superuser, or the flag unset, the scan root is the upload path, and every path below the upload path lies inside the scanned tree. |
| Upload.UploadDir | ckeditor/views.py:105-115 | The upload directory ends with the date path. |
| Upload.MakeDirs | ckeditor/views.py:118-119 | `os.makedirs` creates the directory itself unless its last component is `.`. |
| Upload.MakeDirsCreatesParent | ckeditor/views.py:118-119 | When the parent of the directory is missing, everything `os.makedirs` creates for the parent is created too. So the missing chain of parents is created, up to the first one that exists. |
| Upload.MakeDirsAncestors | ckeditor/views.py:118-119 | `os.makedirs` creates only the directory itself and leading parts of it. Every ancestor it creates was missing. |
| Upload.UploadDirExists | ckeditor/views.py:112-119 | The date directory ends in a digit, never `.`, so the upload directory exists once `get_upload_filename` has checked for it and created it. |
| Upload.Storage.GetUploadFilename | ckeditor/views.py:100-122 | The missing directories of upload path / user / date are created, and the upload directory exists afterwards. The result is the available name of the upload in that directory. |
| Upload.Storage.Upload | ckeditor/views.py:126-157 | The stored path did not exist before. It is added, and its thumbnail is added too when one was saved. The answer is the file's public URL when thumbnailing succeeded or raised `IOError`, and a failure for any other exception. |
| Upload.UploadNameSplits | ckeditor/views.py:115-122 | The path handed to `get_available_name` splits back into the upload directory and the uploaded name. |
| Upload.StoredInUploadDir | ckeditor/views.py:113-122 | The stored file lies directly in the upload directory, and inside its tree (`Within`), so the isolation lemmas apply to it. It keeps the extension of the uploaded name. |
| Upload.UploadVisibleToUploader | ckeditor/views.py:106-115 | Whatever the flag and whether or not the uploader is a superuser, the upload directory lies inside the tree the same user's gallery walks, with paths compared as strings. A superuser named `..` uploads to `up/../<date>`, which is inside `up` only as a string. |
| Upload.OtherUsersUploadsHidden | ckeditor/views.py:166-173 | Under the restriction flag, nothing one user uploads lies in the tree another non-superuser's gallery walks, for user names that are non-empty, hold no '/' and are not `.` or `..`. |
| Upload.MarkedNameStaysMarked | ckeditor/views.py:50-54 | When the file name holds `_thumb`, the name `get_available_name` picks for it still holds `_thumb`, whether or not underscores were added. |
| Upload.MarkedUploadNeverListed | ckeditor/views.py:178-179 | An upload whose name contains `_thumb` is stored under a path that contains it. Reporting that path in a walk leaves the gallery unchanged. |

## Left out

- `create_thumbnail`'s image work (PIL decoding, colour conversion, the 75×75 fit): this is binary codec work. Only its outcome is modelled: saved, `IOError`, or another exception.
- Upload content: the bytes of an upload and the chunked write to disk are not modelled. Only the path that becomes present is recorded.
- Failures of `open`, `write` and `os.makedirs`: I/O errors and the `OSError` that `makedirs` raises for an existing leaf are not modelled. `get_upload_filename` only calls it for a missing directory.
- HTTP plumbing: the request, the missing `upload` field, the `CKEditorFuncNum` JavaScript response, the `browse` view and its template, and `csrf_exempt`.
- Encoding: the unicode/UTF-8 conversions of the upload name, the visible file name and the URL. Strings are modelled as sequences of characters.
- `Icons.GetIconFilename`: regular-expression semantics and case-insensitive matching are left to the `Matcher` parameter.
- `MediaUrl.GetMediaUrl`: URL parsing is left to the `UrlCodec` parameter. Only the slash collapsing of the path component is concrete.
- Directory walk: `os.walk`'s traversal and order are a parameter. Walk results are linked to the tree only through `Browse.WalkWithin`.
- Path aliasing: paths are compared as strings, so `a//b`, `a/./b` and `a/b` are different paths in the model. `Browse.RestrictedScanHidesOtherUsers` and `Upload.OtherUsersUploadsHidden` compare trees as strings. They exclude the user names `.` and `..`, whose directories are the upload tree itself and its parent on a real file system, so the program gives those users no isolation.
- `Browse.ScanRoot`: its second clause says the scan root is inside the upload tree as a string only. For a user named `..` the root is `up/..`, which names the parent of the upload tree on a real file system.
- `Upload.UploadVisibleToUploader`: the containment holds for paths as strings only. A superuser named `..` uploads to `up/../<date>`, outside the upload tree on a real file system, though the string starts with `up/`.
- `Upload.Storage.GetUploadFilename`: the promise that the upload directory exists afterwards is made for date paths ending in a digit, as `strftime('%Y/%m/%d')` produces. `os.makedirs` skips a final `.` component.
- `Upload.UploadDir`: states only that the directory ends with the date path. That it lies inside the user's scan root is `Upload.UploadVisibleToUploader`.
- `MediaUrl.RawMediaUrl`: states the prefix and the length bound. What deleting the root does is `MediaUrl.RawMediaUrlStripsRoot`, for a root that does not occur again in the rest of the path.
- Concurrency: the check-then-create race between two uploads of the same name is not modelled. Each call sees one fixed state.
- Clock and settings: `datetime.now()` and the Django settings module are not read. They are passed in as parameters.
- `Upload.Storage.Upload`: `ghost stored` names the path written. The caller gets only the URL, as in the source.

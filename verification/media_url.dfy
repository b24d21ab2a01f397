/**
 * `get_media_url`: the public URL of a stored file. The root directory is
 * deleted from the path, the URL prefix put in front, and runs of '/' in
 * the URL's path component collapsed to one.
 */
module MediaUrl {
  import opened Text
  import opened Config

  /** The six components `urlparse` splits a URL into. */
  datatype UrlParts = UrlParts(scheme: string, netloc: string, path: string,
                               params: string, query: string, fragment: string)

  /** `urlparse` and `urlunparse`, which the model does not interpret. */
  datatype UrlCodec = UrlCodec(parse: string -> UrlParts, unparse: UrlParts -> string)

  /** No two consecutive characters of `s` are both '/'. */
  predicate NoDoubleSlash(s: string) {
    forall i :: 0 <= i < |s| - 1 ==> !(s[i] == '/' && s[i + 1] == '/')
  }

  /** `s` with every '/' removed. */
  function Unslashed(s: string): string {
    if s == [] then [] else (if s[0] == '/' then [] else [s[0]]) + Unslashed(s[1..])
  }

  /**
   * `re.sub('/+', '/', s)`: every run of slashes becomes one slash. The
   * result has no double slash, keeps every other character in order,
   * starts like `s`, and is `s` itself when `s` had no double slash.
   */
  function CollapseSlashes(s: string): (r: string)
    ensures NoDoubleSlash(r)
    ensures Unslashed(r) == Unslashed(s)
    ensures |r| <= |s|
    ensures s != [] ==> r != [] && r[0] == s[0]
    ensures NoDoubleSlash(s) ==> r == s
  {
    if |s| <= 1 then s
    else if s[0] == '/' && s[1] == '/' then CollapseSlashes(s[1..])
    else
      var r := [s[0]] + CollapseSlashes(s[1..]);
      assert r[1..] == CollapseSlashes(s[1..]);
      r
  }

  /**
   * Whether `re.sub('/+', '/', s)` keeps `s[i]`: every character is kept
   * except a '/' that follows another '/', so each run of slashes leaves its
   * first one.
   */
  predicate KeptAt(s: string, i: nat)
    requires i < |s|
  {
    !(0 < i && s[i - 1] == '/' && s[i] == '/')
  }

  /** The characters of `s[i..]` that the substitution keeps, in order. */
  function KeptFrom(s: string, i: nat): string
    requires i <= |s|
    decreases |s| - i
  {
    if i == |s| then [] else (if KeptAt(s, i) then [s[i]] else []) + KeptFrom(s, i + 1)
  }

  /** `CollapseSlashes` keeps exactly the characters `KeptAt` names. */
  lemma CollapseSlashesKeeps(s: string)
    ensures CollapseSlashes(s) == KeptFrom(s, 0)
  {
    if s != [] {
      CollapseFrom(s, 0);
      assert s[0..] == s;
    }
  }

  /** Collapsing a suffix of `s` keeps its first character, then what `KeptAt` keeps. */
  lemma {:induction false} CollapseFrom(s: string, i: nat)
    requires i < |s|
    ensures CollapseSlashes(s[i..]) == [s[i]] + KeptFrom(s, i + 1)
    decreases |s| - i
  {
    if i + 1 < |s| {
      assert s[i..][1..] == s[i + 1..];
      CollapseFrom(s, i + 1);
    }
  }

  /** A run of two and a run of three slashes each become one slash. */
  lemma CollapseExample()
    ensures CollapseSlashes("a//b///c") == "a/b/c"
  {
    CollapseSlashesKeeps("a//b///c");
  }

  /** Collapsing twice is collapsing once. */
  lemma CollapseIdempotent(s: string)
    ensures CollapseSlashes(CollapseSlashes(s)) == CollapseSlashes(s)
  {
  }

  /**
   * The URL `get_media_url` builds before normalising its path: the upload
   * prefix, when set, followed by the path with every occurrence of the
   * upload path deleted; otherwise `MEDIA_URL` followed by the path with
   * every occurrence of `MEDIA_ROOT` deleted.
   */
  function RawMediaUrl(path: string, s: Settings): (r: string)
    ensures s.HasUploadPrefix() ==> s.uploadPrefix.value <= r
    ensures !s.HasUploadPrefix() ==> s.mediaUrl <= r
    ensures s.HasUploadPrefix() ==> |r| <= |s.uploadPrefix.value| + |path|
    ensures !s.HasUploadPrefix() ==> |r| <= |s.mediaUrl| + |path|
  {
    if s.HasUploadPrefix() then s.uploadPrefix.value + RemoveAll(path, s.uploadPath)
    else s.mediaUrl + RemoveAll(path, s.mediaRoot)
  }

  /**
   * With an upload prefix set, a path under the upload directory gets that
   * prefix in place of the directory; otherwise a path under the media root
   * gets `MEDIA_URL` in place of the root. (`str.replace` deletes every
   * occurrence, so the root must not occur again further on.)
   */
  lemma RawMediaUrlStripsRoot(s: Settings, rest: string)
    ensures s.HasUploadPrefix() && !Contains(rest, s.uploadPath)
            ==> RawMediaUrl(s.uploadPath + rest, s) == s.uploadPrefix.value + rest
    ensures !s.HasUploadPrefix() && !Contains(rest, s.mediaRoot)
            ==> RawMediaUrl(s.mediaRoot + rest, s) == s.mediaUrl + rest
  {
    if !Contains(rest, s.uploadPath) { RemoveAllPrefix(s.uploadPath, rest); }
    if !Contains(rest, s.mediaRoot) { RemoveAllPrefix(s.mediaRoot, rest); }
  }

  /**
   * The components of the public URL. Only the path component changes: each
   * run of slashes in it is reduced to one slash.
   */
  function MediaUrlParts(path: string, s: Settings, codec: UrlCodec): (r: UrlParts)
    ensures var q := codec.parse(RawMediaUrl(path, s));
            && r.scheme == q.scheme && r.netloc == q.netloc && r.params == q.params
            && r.query == q.query && r.fragment == q.fragment
            && NoDoubleSlash(r.path) && Unslashed(r.path) == Unslashed(q.path)
            && r.path == KeptFrom(q.path, 0)
  {
    CollapseSlashesKeeps(codec.parse(RawMediaUrl(path, s)).path);
    var q := codec.parse(RawMediaUrl(path, s));
    q.(path := CollapseSlashes(q.path))
  }

  /**
   * `get_media_url`: the public URL of the file at `path`. It is the raw URL
   * taken apart by `urlparse` and put back by `urlunparse` with each run of
   * slashes in its path component reduced to its first slash.
   */
  function GetMediaUrl(path: string, s: Settings, codec: UrlCodec): (r: string)
    ensures var q := codec.parse(RawMediaUrl(path, s));
            r == codec.unparse(q.(path := KeptFrom(q.path, 0)))
  {
    codec.unparse(MediaUrlParts(path, s, codec))
  }

  /**
   * When `urlparse` reads back the components `get_media_url` hands to
   * `urlunparse`, the public URL parses into the raw URL's scheme, host,
   * params, query and fragment, and into a path free of double slashes with
   * the same characters other than '/'. (`urlparse` does not invert
   * `urlunparse` on every tuple, so only this one round trip is assumed.)
   */
  lemma MediaUrlNormalised(path: string, s: Settings, codec: UrlCodec)
    requires var q := codec.parse(RawMediaUrl(path, s));
             var c := q.(path := KeptFrom(q.path, 0));
             codec.parse(codec.unparse(c)) == c
    ensures var q := codec.parse(RawMediaUrl(path, s));
            var u := codec.parse(GetMediaUrl(path, s, codec));
            && u.scheme == q.scheme && u.netloc == q.netloc && u.params == q.params
            && u.query == q.query && u.fragment == q.fragment
            && NoDoubleSlash(u.path) && Unslashed(u.path) == Unslashed(q.path)
  {
    var q := codec.parse(RawMediaUrl(path, s));
    CollapseSlashesKeeps(q.path);
  }

}

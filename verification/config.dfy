/**
 * The inputs the views read from Django: the settings, looked up once and
 * passed in explicitly, and the requesting user.
 */
module Config {
  import opened Wrappers
  import Icons

  /** The user as the views see it (`request.user`). */
  datatype User = User(username: string, isSuperuser: bool)

  /** The settings the views consult, with absent optional ones made explicit. */
  datatype Settings = Settings(
    uploadPath: string,                     // CKEDITOR_UPLOAD_PATH
    uploadPrefix: Option<string>,           // CKEDITOR_UPLOAD_PREFIX, None when unset
    mediaUrl: string,                       // MEDIA_URL
    mediaRoot: string,                      // MEDIA_ROOT
    mediaPrefix: string,                    // CKEDITOR_MEDIA_PREFIX
    restrictByUser: bool,                   // CKEDITOR_RESTRICT_BY_USER, False when unset
    fileIcons: Option<seq<Icons.IconRule>>) // CKEDITOR_FILEICONS, None when unset
  {
    /** The upload prefix is set to a non-empty string (Python truthiness). */
    predicate HasUploadPrefix() {
      uploadPrefix.Some? && uploadPrefix.value != ""
    }

    /** The icon rules in force: the configured ones, else the default list. */
    function FileIcons(): seq<Icons.IconRule> {
      if fileIcons.Some? then fileIcons.value else Icons.DefaultFileIcons(mediaPrefix)
    }
  }
}

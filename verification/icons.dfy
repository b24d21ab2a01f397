/**
 * Icons for files that are not images (`get_icon_filename` and the default
 * `CKEDITOR_FILEICONS` list): an ordered list of (pattern, icon) rules in
 * which the first rule whose pattern matches the file name wins.
 */
module Icons {
  import opened Wrappers

  /**
   * `re.search(pattern, name, re.I)`: the regular-expression engine is not
   * part of the model and is passed in.
   */
  type Matcher = (string, string) -> bool

  datatype IconRule = IconRule(pattern: string, icon: string)

  /** The pattern of the last default rule, which every name matches. */
  const CATCH_ALL := ".*"

  /**
   * The rules used when the settings give none; `mediaPrefix` is
   * `CKEDITOR_MEDIA_PREFIX`, under whose `file-icons/` the icons live.
   */
  function DefaultFileIcons(mediaPrefix: string): (rules: seq<IconRule>)
    ensures |rules| == 8 && rules[7].pattern == CATCH_ALL
    ensures forall i :: 0 <= i < |rules| ==> mediaPrefix + "file-icons/" <= rules[i].icon
  {
    var path := mediaPrefix + "file-icons/";
    [ IconRule("\\.swf$", path + "swf.png"),
      IconRule("\\.pdf$", path + "pdf.png"),
      IconRule("\\.doc$|\\.docx$|\\.odt$", path + "doc.png"),
      IconRule("\\.txt$", path + "txt.png"),
      IconRule("\\.zip$|\\.rar$|\\.tar$|\\.tar\\..+$", path + "zip.png"),
      IconRule("\\.ppt$", path + "ppt.png"),
      IconRule("\\.xls$", path + "xls.png"),
      IconRule(CATCH_ALL, path + "file.png") ]
  }

  /** Rule `i` matches `name` and no earlier rule does. */
  ghost predicate FirstMatch(rules: seq<IconRule>, search: Matcher, name: string, i: int)
    requires 0 <= i < |rules|
  {
    search(rules[i].pattern, name) && forall j :: 0 <= j < i ==> !search(rules[j].pattern, name)
  }

  /**
   * `get_icon_filename`: the icon of the first rule, in list order, whose
   * pattern matches `name`; `None` (Python's implicit `None`) when no rule
   * matches.
   */
  function GetIconFilename(rules: seq<IconRule>, search: Matcher, name: string): (r: Option<string>)
    ensures r.None? <==> forall i :: 0 <= i < |rules| ==> !search(rules[i].pattern, name)
    ensures r.Some? ==> exists i :: 0 <= i < |rules| && FirstMatch(rules, search, name, i)
                                    && r.value == rules[i].icon
  {
    if rules == [] then None
    else if search(rules[0].pattern, name) then
      assert FirstMatch(rules, search, name, 0);
      Some(rules[0].icon)
    else
      var r := GetIconFilename(rules[1..], search, name);
      assert forall i :: 1 <= i < |rules| ==> rules[i] == rules[1..][i - 1];
      assert forall i :: 0 <= i < |rules[1..]| && FirstMatch(rules[1..], search, name, i)
                         ==> FirstMatch(rules, search, name, i + 1);
      r
  }

  /**
   * First match wins: once a rule of `front` matches, the rules after it
   * are never consulted; when none does, the answer comes from `back`.
   */
  lemma {:induction false} IconOfConcat(front: seq<IconRule>, back: seq<IconRule>, search: Matcher, name: string)
    ensures GetIconFilename(front + back, search, name)
         == if GetIconFilename(front, search, name).Some? then GetIconFilename(front, search, name)
            else GetIconFilename(back, search, name)
  {
    if front == [] {
      assert front + back == back;
    } else {
      assert (front + back)[0] == front[0];
      assert (front + back)[1..] == front[1..] + back;
      IconOfConcat(front[1..], back, search, name);
    }
  }

  /**
   * With the default rules every name gets an icon as long as the engine
   * lets the catch-all pattern match it; the default list can be preceded
   * by rules of one's own without losing that.
   */
  lemma DefaultIconsTotal(mediaPrefix: string, front: seq<IconRule>, search: Matcher, name: string)
    requires search(CATCH_ALL, name)
    ensures GetIconFilename(front + DefaultFileIcons(mediaPrefix), search, name).Some?
  {
    IconOfConcat(front, DefaultFileIcons(mediaPrefix), search, name);
  }

  /**
   * A rule placed after a rule that matches everything is unreachable: the
   * earlier rule's icon is returned whatever follows it.
   */
  lemma CatchAllShadows(front: seq<IconRule>, icon: string, back: seq<IconRule>, search: Matcher, name: string)
    requires forall n :: search(CATCH_ALL, n)
    requires GetIconFilename(front, search, name).None?
    ensures GetIconFilename(front + [IconRule(CATCH_ALL, icon)] + back, search, name) == Some(icon)
  {
    IconOfConcat(front, [IconRule(CATCH_ALL, icon)] + back, search, name);
    assert front + [IconRule(CATCH_ALL, icon)] + back == front + ([IconRule(CATCH_ALL, icon)] + back);
  }
}

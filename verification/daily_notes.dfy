/**
 The plugin object's pure logic: adding today's section to the daily notes
 file when it is opened, and keeping the settings pointed at the file when
 it or one of its folders is renamed.
 */
module DailyNotes {
  import opened Options
  import opened Strings
  import opened Moments
  import opened Config
  import opened Utils

  // ---------------------------------------------------------------------------
  // Today's section

  /** `lines.some(line => line.startsWith(heading))` */
  predicate SomeLineStartsWith(lines: seq<string>, heading: string)
  {
    exists i :: 0 <= i < |lines| && StartsWith(lines[i], heading)
  }

  /** Today's heading and the dummy entry, each ending its line */
  function TodaySection(heading: string): string
  {
    heading + "\n" + DefaultDummyEntry + "\n"
  }

  /** The heading naming the month that ended yesterday, one level shallower
      than a date heading; None when `"#".repeat(level - 1)` throws, which
      happens for level 0. */
  function MonthHeading(s: Settings, m: Moment, today: Day): (r: Option<string>)
    ensures r.None? <==> HeadingLevel(s) == Int(0)
    ensures r.Some? ==> EndsWith(r.value, " " + m.format(today - 1, MonthYearPattern))
    ensures r.Some? ==>
      var n := |r.value| - |m.format(today - 1, MonthYearPattern)| - 1;
      && (HeadingLevel(s).Int? ==> n == HeadingLevel(s).v - 1)
      && (HeadingLevel(s).NaN? ==> n == 0)
      && forall i :: 0 <= i < n ==> r.value[i] == '#'
  {
    match RepeatNum('#', Decrement(HeadingLevel(s)))
    case None => None
    case Some(hashes) => Some(hashes + " " + m.format(today - 1, MonthYearPattern))
  }

  /** The text put between today's section and the old text on the first of
      a month: a blank line, a `---` rule and the month heading. */
  function MonthSection(s: Settings, m: Moment, today: Day): Option<string>
  {
    match MonthHeading(s, m, today)
    case None => None
    case Some(h) => Some("\n---\n" + h + "\n")
  }

  /** The daily notes text after it is opened on day `today`: unchanged when
      some line already starts with today's heading, otherwise today's
      section (and, on the first of a month, the month separator) put in
      front of the old text. None stands for the RangeError the month
      heading throws at heading level 0. */
  function UpdatedNote(data: string, s: Settings, m: Moment, today: Day): (r: Option<string>)
    ensures SomeLineStartsWith(Split(data, '\n'), TodayHeading(s, m, today)) ==> r == Some(data)
    ensures r.None? <==>
      && !SomeLineStartsWith(Split(data, '\n'), TodayHeading(s, m, today))
      && m.dayOfMonth(today) == 1
      && HeadingLevel(s) == Int(0)
    ensures r.Some? && !SomeLineStartsWith(Split(data, '\n'), TodayHeading(s, m, today)) ==>
      && StartsWith(r.value, TodaySection(TodayHeading(s, m, today)))
      && EndsWith(r.value, data)
      && (m.dayOfMonth(today) != 1 ==> |r.value| == |TodaySection(TodayHeading(s, m, today))| + |data|)
  {
    var heading := TodayHeading(s, m, today);
    if SomeLineStartsWith(Split(data, '\n'), heading) then
      Some(data)
    else if m.dayOfMonth(today) == 1 then
      match MonthSection(s, m, today)
      case None => None
      case Some(block) => Some(TodaySection(heading) + block + data)
    else
      Some(TodaySection(heading) + data)
  }

  /** Line by line, a changed note is today's heading, the dummy entry, on the
      first of a month a blank line, a rule and the previous month's heading,
      and then every line of the old text, untouched. */
  lemma UpdatedNoteLines(data: string, s: Settings, m: Moment, today: Day)
    requires '\n' !in TodayHeading(s, m, today)
    requires '\n' !in m.format(today - 1, MonthYearPattern)
    requires !SomeLineStartsWith(Split(data, '\n'), TodayHeading(s, m, today))
    requires UpdatedNote(data, s, m, today).Some?
    ensures m.dayOfMonth(today) != 1 ==>
      Split(UpdatedNote(data, s, m, today).value, '\n')
        == [TodayHeading(s, m, today), DefaultDummyEntry] + Split(data, '\n')
    ensures m.dayOfMonth(today) == 1 ==>
      MonthHeading(s, m, today).Some? &&
      Split(UpdatedNote(data, s, m, today).value, '\n')
        == [TodayHeading(s, m, today), DefaultDummyEntry, "", "---", MonthHeading(s, m, today).value]
           + Split(data, '\n')
  {
    var heading := TodayHeading(s, m, today);
    var r := UpdatedNote(data, s, m, today).value;
    if m.dayOfMonth(today) != 1 {
      assert r == TodaySection(heading) + data;
      DayLines(heading, data);
    } else {
      var mh := MonthHeading(s, m, today).value;
      assert r == TodaySection(heading) + ("\n---\n" + mh + "\n") + data;
      FirstOfMonthLines(heading, mh, data);
    }
  }

  /** The lines of a section for an ordinary day, followed by the old text */
  lemma DayLines(heading: string, data: string)
    requires '\n' !in heading
    ensures Split(TodaySection(heading) + data, '\n')
      == [heading, DefaultDummyEntry] + Split(data, '\n')
  {
    var pre := [heading, DefaultDummyEntry];
    assert Join(pre, '\n') == heading + "\n" + DefaultDummyEntry by {
      assert pre[1..] == [DefaultDummyEntry];
    }
    SplitAfterLines(pre, data, '\n');
  }

  /** The lines of a section for the first of a month, followed by the old text */
  lemma FirstOfMonthLines(heading: string, mh: string, data: string)
    requires '\n' !in heading && '\n' !in mh
    ensures Split(TodaySection(heading) + ("\n---\n" + mh + "\n") + data, '\n')
      == [heading, DefaultDummyEntry, "", "---", mh] + Split(data, '\n')
  {
    var pre := [heading, DefaultDummyEntry, "", "---", mh];
    assert pre[3..][1..] == [mh];
    assert |pre[3..]| == 2 && pre[3..][0] == "---";
    assert Join([mh], '\n') == mh;
    var j3 := Join(pre[3..], '\n');
    assert j3 == "---\n" + mh;
    assert pre[2..][1..] == pre[3..];
    var j2 := Join(pre[2..], '\n');
    assert j2 == "\n" + j3;
    assert pre[1..][1..] == pre[2..];
    assert Join(pre[1..], '\n') == DefaultDummyEntry + "\n" + j2;
    assert Join(pre, '\n') + "\n" + data == TodaySection(heading) + ("\n---\n" + mh + "\n") + data;
    SplitAfterLines(pre, data, '\n');
  }

  /** Opening the note twice on the same day adds today's section once: the
      first line of a changed note starts with today's heading. */
  lemma UpdatedNoteIdempotent(data: string, s: Settings, m: Moment, today: Day)
    requires '\n' !in TodayHeading(s, m, today)
    requires UpdatedNote(data, s, m, today).Some?
    ensures UpdatedNote(UpdatedNote(data, s, m, today).value, s, m, today) == UpdatedNote(data, s, m, today)
  {
    var heading := TodayHeading(s, m, today);
    var r := UpdatedNote(data, s, m, today).value;
    if !SomeLineStartsWith(Split(data, '\n'), heading) {
      if m.dayOfMonth(today) == 1 {
        var block := MonthSection(s, m, today).value;
        assert r == TodaySection(heading) + (block + data);
        SectionComesFirst(heading, block + data);
      } else {
        SectionComesFirst(heading, data);
      }
    }
  }

  /** Text that begins with today's section has a line starting with today's heading. */
  lemma SectionComesFirst(heading: string, rest: string)
    requires '\n' !in heading
    ensures SomeLineStartsWith(Split(TodaySection(heading) + rest, '\n'), heading)
  {
    var tail := DefaultDummyEntry + "\n" + rest;
    assert TodaySection(heading) + rest == heading + "\n" + tail;
    SplitAtSeparator(heading, tail, '\n');
    assert StartsWith(Split(TodaySection(heading) + rest, '\n')[0], heading);
  }

  // ---------------------------------------------------------------------------
  // Rename bookkeeping

  /** The renamed vault entry, with its new path */
  datatype Entry = File(path: string, basename: string) | Folder(path: string)

  /** `p.substring(0, p.lastIndexOf("/"))`: the text before the last "/" of
      a path, "" when the path has no "/" */
  function ParentPath(p: string): (d: string)
    ensures '/' !in p ==> d == ""
    ensures '/' in p ==> StartsWith(p, d + "/") && '/' !in p[|d| + 1..]
  {
    var k := LastIndexOf(p, '/');
    if k >= 0 then
      assert p[..k + 1] == p[..k] + "/";
      Substring(p, 0, k)
    else
      Substring(p, 0, k)
  }

  /** A file name ending in ".md" holds a "/" only if the base name does. */
  lemma NoSlashInFileName(name: string)
    requires '/' !in name
    ensures '/' !in name + ".md"
  {
    var file := name + ".md";
    forall i | 0 <= i < |file| ensures file[i] != '/' {
      if i >= |name| { assert file[i] == ".md"[i - |name|]; }
    }
  }

  /** The parent of `dir/file` is `dir` when `file` holds no "/". */
  lemma ParentPathOf(dir: string, file: string)
    requires '/' !in file
    ensures ParentPath(dir + "/" + file) == dir
  {
    var p := dir + "/" + file;
    assert p[|dir|] == '/';
    assert p[|dir| + 1..] == file;
    LastIndexAt(p, '/', |dir|);
    assert p[..|dir|] == dir;
  }

  /** The settings after the entry once at `oldPath` was renamed to `e.path`.
      A file rename matching the note's path takes the new base name; a folder
      rename whose old path is a plain string prefix of the note's path moves
      the location to the folder part of the rewritten path. */
  function OnRename(s: Settings, e: Entry, oldPath: string): (r: Settings)
    ensures r.headingType == s.headingType && r.dateFormat == s.dateFormat
    ensures e.File? ==> r.noteLocation == s.noteLocation
    ensures e.File? && oldPath == FilePath(s) ==> r.noteName == e.basename
    ensures e.File? && oldPath != FilePath(s) ==> r == s
    ensures e.Folder? ==> r.noteName == s.noteName
    ensures e.Folder? && !StartsWith(FilePath(s), oldPath) ==> r == s
    ensures e.Folder? && StartsWith(FilePath(s), oldPath) ==>
      r.noteLocation == ParentPath(e.path + FilePath(s)[|oldPath|..])
  {
    var currentPath := FilePath(s);
    match e
    case File(_, basename) =>
      if oldPath == currentPath then s.(noteName := basename) else s
    case Folder(path) =>
      if StartsWith(currentPath, oldPath) then
        assert Substring(currentPath, |oldPath|, |currentPath|) == currentPath[|oldPath|..];
        var newPath := path + Substring(currentPath, |oldPath|, |currentPath|);
        s.(noteLocation := ParentPath(newPath))
      else s
  }

  /** The folder part of the note's path is its configured location, and the
      path ends with the file name, whenever the name holds no "/". */
  lemma FilePathParts(s: Settings)
    requires '/' !in s.noteName
    ensures ParentPath(FilePath(s)) == s.noteLocation
    ensures EndsWith(FilePath(s), s.noteName + ".md")
    ensures s.noteLocation == "" <==> '/' !in FilePath(s)
  {
    var file := s.noteName + ".md";
    assert '/' !in file by {
      assert file[|s.noteName|..] == ".md";
      forall i | 0 <= i < |file| ensures file[i] != '/' {
        if i >= |s.noteName| { assert file[i] == ".md"[i - |s.noteName|]; }
      }
    }
    var p := FilePath(s);
    if s.noteLocation == "" {
      assert p == file;
    } else {
      var k := |s.noteLocation|;
      assert p[k] == '/';
      assert p[k + 1..] == file;
      LastIndexAt(p, '/', k);
      assert p[..k] == s.noteLocation;
      assert p[|p| - |file|..] == file;
    }
  }

  /** Renaming an ancestor folder of a non-root note, on a "/" boundary, keeps
      the note's path equal to the path the note file moved to. */
  lemma RenameAncestorFolder(s: Settings, newFolder: string, oldPath: string, rest: string)
    requires '/' !in s.noteName
    requires s.noteLocation == oldPath + rest
    requires rest == "" || rest[0] == '/'
    requires s.noteLocation != "" && newFolder != ""
    ensures OnRename(s, Folder(newFolder), oldPath).noteName == s.noteName
    ensures FilePath(OnRename(s, Folder(newFolder), oldPath)) == newFolder + FilePath(s)[|oldPath|..]
  {
    RenameFolderPrefix(s, newFolder, oldPath, rest);
    RelocatedFilePath(s, newFolder, oldPath, rest);
  }

  lemma RelocatedFilePath(s: Settings, newFolder: string, oldPath: string, rest: string)
    requires newFolder != ""
    requires |oldPath| <= |FilePath(s)|
    requires FilePath(s)[|oldPath|..] == rest + "/" + s.noteName + ".md"
    ensures FilePath(s.(noteLocation := newFolder + rest)) == newFolder + FilePath(s)[|oldPath|..]
  {
  }

  /** A folder rename whose old path is a string prefix of a non-root note's
      location replaces that prefix of the location with the new path. */
  lemma RenameFolderPrefix(s: Settings, newFolder: string, oldPath: string, rest: string)
    requires '/' !in s.noteName
    requires s.noteLocation == oldPath + rest && s.noteLocation != ""
    ensures FilePath(s)[|oldPath|..] == rest + "/" + s.noteName + ".md"
    ensures OnRename(s, Folder(newFolder), oldPath) == s.(noteLocation := newFolder + rest)
  {
    var file := s.noteName + ".md";
    var p := FilePath(s);
    assert p == s.noteLocation + "/" + file;
    FolderRemainder(oldPath, rest, file);
    NoSlashInFileName(s.noteName);
    ParentPathOf(newFolder + rest, file);
    var r := OnRename(s, Folder(newFolder), oldPath);
    assert r.noteLocation == newFolder + rest by {
      RemainderAppended(newFolder, rest, file);
    }
    assert r == Settings(s.noteName, newFolder + rest, s.headingType, s.dateFormat);
  }

  /** The path of a file under `oldPath + rest`, cut after `oldPath` */
  lemma FolderRemainder(oldPath: string, rest: string, file: string)
    ensures StartsWith(oldPath + rest + "/" + file, oldPath)
    ensures (oldPath + rest + "/" + file)[|oldPath|..] == rest + "/" + file
  {
    var p := oldPath + rest + "/" + file;
    assert p == oldPath + (rest + "/" + file);
    assert p[..|oldPath|] == oldPath;
  }

  /** A new folder put in front of a remainder */
  lemma RemainderAppended(newFolder: string, rest: string, file: string)
    ensures newFolder + (rest + "/" + file) == newFolder + rest + "/" + file
  {
  }

  /** Without a "/" boundary check, renaming a folder whose path is a string
      prefix of the note's folder, but not an ancestor of it, still rewrites
      the location: renaming "Daily" to "Journal" moves a note kept in
      "DailyNotes" to "JournalNotes", although that note did not move. */
  lemma RenameSiblingFolderMovesNote(s: Settings, newFolder: string, oldPath: string, rest: string)
    requires '/' !in s.noteName && '/' !in rest
    requires s.noteLocation == oldPath + rest && rest != ""
    requires newFolder != oldPath
    ensures !StartsWith(FilePath(s), oldPath + "/")
    ensures OnRename(s, Folder(newFolder), oldPath).noteLocation == newFolder + rest
    ensures OnRename(s, Folder(newFolder), oldPath).noteLocation != s.noteLocation
  {
    RenameFolderPrefix(s, newFolder, oldPath, rest);
    NotUnderFolder(oldPath, rest, s.noteName + ".md");
  }

  /** A file under `oldPath + rest`, where `rest` is a non-empty name without
      "/", is not under the folder `oldPath`. */
  lemma NotUnderFolder(oldPath: string, rest: string, file: string)
    requires '/' !in rest && rest != ""
    ensures !StartsWith(oldPath + rest + "/" + file, oldPath + "/")
  {
    var p := oldPath + rest + "/" + file;
    FolderRemainder(oldPath, rest, file);
    assert p[|oldPath|] == (rest + "/" + file)[0] == rest[0];
  }

  /** `onRename` with the folder rule checked on a "/" boundary: only a rename
      of a folder that contains the note changes the location. */
  function OnRenameBounded(s: Settings, e: Entry, oldPath: string): (r: Settings)
    ensures r.headingType == s.headingType && r.dateFormat == s.dateFormat
    ensures r.noteLocation != s.noteLocation ==> e.Folder? && StartsWith(FilePath(s), oldPath + "/")
    ensures e.File? ==> r == OnRename(s, e, oldPath)
    ensures e.Folder? && StartsWith(FilePath(s), oldPath + "/") ==> r == OnRename(s, e, oldPath)
  {
    match e
    case File(_, _) => OnRename(s, e, oldPath)
    case Folder(_) =>
      if StartsWith(FilePath(s), oldPath + "/") then
        assert StartsWith(FilePath(s), oldPath);
        OnRename(s, e, oldPath)
      else s
  }

  /** The bounded rule leaves a note in a sibling folder where it is. */
  lemma RenameBoundedKeepsSibling(s: Settings, newFolder: string, oldPath: string, rest: string)
    requires '/' !in s.noteName && '/' !in rest
    requires s.noteLocation == oldPath + rest && rest != ""
    ensures OnRenameBounded(s, Folder(newFolder), oldPath) == s
  {
    NotUnderFolder(oldPath, rest, s.noteName + ".md");
  }
}

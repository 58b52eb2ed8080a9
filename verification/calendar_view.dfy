/**
 The calendar side panel's work on the daily notes text: finding the line of
 the note for a clicked date, deciding between jumping to it and offering to
 create it, and inserting a new note for a date at its place in the file,
 whose date headings run from the newest at the top to the oldest.
 */
module CalendarView {
  import opened Options
  import opened Strings
  import opened Moments
  import opened Config
  import opened Utils
  import opened DailyNotes

  // ---------------------------------------------------------------------------
  // Finding a note

  /** `lines.findIndex(line => line.includes(p))`, with -1 as None */
  function FindIncluding(lines: seq<string>, p: string, from: nat): (r: Option<nat>)
    requires from <= |lines|
    ensures r.None? <==> forall j :: from <= j < |lines| ==> !Includes(lines[j], p)
    ensures r.Some? ==>
      && from <= r.value < |lines|
      && Includes(lines[r.value], p)
      && forall j :: from <= j < r.value ==> !Includes(lines[j], p)
    decreases |lines| - from
  {
    if from == |lines| then None
    else if Includes(lines[from], p) then Some(from)
    else FindIncluding(lines, p, from + 1)
  }

  /** `containsNoteForDate`: the index of the first line that contains the
      heading for `date` anywhere in it, None when no line does. */
  function ContainsNoteForDate(contents: string, s: Settings, m: Moment, date: Day): (r: Option<nat>)
    ensures r.Some? ==>
      && r.value < |Split(contents, '\n')|
      && Includes(Split(contents, '\n')[r.value], HeadingForDate(s, m, date))
    ensures var lines := Split(contents, '\n');
      && (r.None? <==> forall j :: 0 <= j < |lines| ==> !Includes(lines[j], HeadingForDate(s, m, date)))
      && (r.Some? ==> forall j :: 0 <= j < r.value ==> !Includes(lines[j], HeadingForDate(s, m, date)))
  {
    var lines := Split(contents, '\n');
    var found := FindIncluding(lines, HeadingForDate(s, m, date), 0);
    assert found.None? <==> forall j :: 0 <= j < |lines| ==> !Includes(lines[j], HeadingForDate(s, m, date));
    found
  }

  /** What a click on a date in the calendar leads to */
  datatype Click =
    | NoFile            // the daily notes file does not exist: nothing happens
    | OfferCreation     // the "create a note?" dialog opens
    | GoTo(line: nat)   // the file is opened and scrolled to this line

  /** `onClickDate` of the current view: `doc` is the daily notes text, None
      when the file does not exist. Creation is offered exactly when no line
      contains the date's heading (`noteIndex == null`). */
  function OnClickDate(doc: Option<string>, s: Settings, m: Moment, date: Day): (r: Click)
    ensures doc.None? <==> r.NoFile?
    ensures doc.Some? ==>
      var lines := Split(doc.value, '\n');
      r.OfferCreation? <==> forall j :: 0 <= j < |lines| ==> !Includes(lines[j], HeadingForDate(s, m, date))
    ensures r.GoTo? ==>
      && doc.Some?
      && r.line < |Split(doc.value, '\n')|
      && Includes(Split(doc.value, '\n')[r.line], HeadingForDate(s, m, date))
  {
    match doc
    case None => NoFile
    case Some(contents) =>
      match ContainsNoteForDate(contents, s, m, date)
      case None => OfferCreation
      case Some(i) => GoTo(i)
  }

  /** `onClickDate` of the earlier view, which tests `!noteIndex`: an index
      of 0 counts as "no note" too. */
  function LegacyOnClickDate(doc: Option<string>, s: Settings, m: Moment, date: Day): (r: Click)
    ensures doc.None? <==> r.NoFile?
    ensures r.GoTo? ==> r.line > 0
  {
    match doc
    case None => NoFile
    case Some(contents) =>
      match ContainsNoteForDate(contents, s, m, date)
      case None => OfferCreation
      case Some(i) => if i == 0 then OfferCreation else GoTo(i)
  }

  /** The two views differ exactly when the note is on the first line: the
      earlier one then offers to create a note that exists. */
  lemma LegacyClickDiffers(doc: Option<string>, s: Settings, m: Moment, date: Day)
    ensures LegacyOnClickDate(doc, s, m, date) != OnClickDate(doc, s, m, date) <==>
      doc.Some? && ContainsNoteForDate(doc.value, s, m, date) == Some(0)
    ensures LegacyOnClickDate(doc, s, m, date) != OnClickDate(doc, s, m, date) ==>
      && LegacyOnClickDate(doc, s, m, date) == OfferCreation
      && OnClickDate(doc, s, m, date) == GoTo(0)
  {
  }

  /** Opening the file adds today's section at the top, so in the earlier
      view a click on today right afterwards offers to create today's note
      although it exists; the current view goes to it. */
  lemma LegacyMissesTodayAtTop(data: string, s: Settings, m: Moment, today: Day)
    requires '\n' !in TodayHeading(s, m, today)
    requires !SomeLineStartsWith(Split(data, '\n'), TodayHeading(s, m, today))
    requires UpdatedNote(data, s, m, today).Some?
    ensures LegacyOnClickDate(UpdatedNote(data, s, m, today), s, m, today) == OfferCreation
    ensures OnClickDate(UpdatedNote(data, s, m, today), s, m, today) == GoTo(0)
  {
    var text := UpdatedNote(data, s, m, today).value;
    var heading := TodayHeading(s, m, today);
    assert StartsWith(text, heading + "\n") by {
      assert StartsWith(text, TodaySection(heading));
      assert text[..|heading| + 1] == TodaySection(heading)[..|heading| + 1];
    }
    NoteOnFirstLine(text, s, m, today);
  }

  /** A text whose first line is the date's heading has its note at line 0. */
  lemma NoteOnFirstLine(text: string, s: Settings, m: Moment, date: Day)
    requires '\n' !in HeadingForDate(s, m, date)
    requires StartsWith(text, HeadingForDate(s, m, date) + "\n")
    ensures ContainsNoteForDate(text, s, m, date) == Some(0)
  {
    var heading := HeadingForDate(s, m, date);
    var rest := text[|heading| + 1..];
    assert text == heading + "\n" + rest;
    SplitAtSeparator(heading, rest, '\n');
    var lines := Split(text, '\n');
    assert lines[0] == heading;
    assert Includes(lines[0], heading) by {
      assert lines[0][0..] == lines[0];
    }
  }

  // ---------------------------------------------------------------------------
  // Inserting a note

  /** The date a line stands for: for a line starting with the heading
      marker, its second space-separated word parsed leniently with the date
      format (`moment(line.split(" ", 2)[1], dateFormat)`). */
  function LineDate(line: string, s: Settings, m: Moment): Option<Day>
  {
    if StartsWith(line, HeadingMd(s)) then m.parseLenient(SecondToken(line), s.dateFormat) else None
  }

  /** A line without the heading marker has no date; a marked line without a
      space has the lenient parse of `undefined`; otherwise the date is read
      from the text after the first space, up to the next one. */
  lemma LineDateCases(line: string, s: Settings, m: Moment)
    ensures !StartsWith(line, HeadingMd(s)) ==> LineDate(line, s, m).None?
    ensures StartsWith(line, HeadingMd(s)) && ' ' !in line ==>
      LineDate(line, s, m) == m.parseLenient(None, s.dateFormat)
    ensures StartsWith(line, HeadingMd(s)) && ' ' in line ==>
      var i := IndexOf(line, " ");
      0 <= i < |line| &&
      LineDate(line, s, m) == m.parseLenient(Some(TakeUntil(line[i + 1..], {' '})), s.dateFormat)
  {
    SecondTokenValue(line);
  }

  /** A date heading reads back as the lenient parse of its formatted date
      up to the first space in it. */
  lemma HeadingLineDate(s: Settings, m: Moment, date: Day)
    ensures var f := m.format(date, s.dateFormat);
      LineDate(HeadingForDate(s, m, date), s, m) == m.parseLenient(Some(TakeUntil(f, {' '})), s.dateFormat)
  {
    var md, f := HeadingMd(s), m.format(date, s.dateFormat);
    var h := HeadingForDate(s, m, date);
    assert h[..|md|] == md;
    assert h[|md|] == ' ';
    var i := FirstSpace(h);
    assert i == |md|;
    SecondTokenValue(h);
  }

  /** A line whose date is before `date` */
  predicate Older(line: string, date: Day, s: Settings, m: Moment)
  {
    LineDate(line, s, m).Some? && LineDate(line, s, m).value < date
  }

  /** The loop of `insertNoteForDate`: the first line from `from` on with a
      date before `date`. Lines without a valid date and lines dated on or
      after `date` are passed over. */
  function FirstOlder(lines: seq<string>, from: nat, date: Day, s: Settings, m: Moment): (r: Option<nat>)
    requires from <= |lines|
    ensures r.None? <==> forall j :: from <= j < |lines| ==> !Older(lines[j], date, s, m)
    ensures r.Some? ==>
      && from <= r.value < |lines|
      && Older(lines[r.value], date, s, m)
      && forall j :: from <= j < r.value ==> !Older(lines[j], date, s, m)
    decreases |lines| - from
  {
    if from == |lines| then None
    else if Older(lines[from], date, s, m) then Some(from)
    else FirstOlder(lines, from + 1, date, s, m)
  }

  /** The text of a new note: the date's heading and the dummy entry */
  function NewNote(s: Settings, m: Moment, date: Day): string
  {
    HeadingForDate(s, m, date) + "\n" + DefaultDummyEntry
  }

  /** `insertNoteForDate`: the new note put before the first line dated
      before `date`, which is also the index returned; with no such line it
      is appended and the index returned is the old line count plus one. */
  function InsertNoteForDate(contents: string, s: Settings, m: Moment, date: Day): (r: (string, nat))
    ensures var lines := Split(contents, '\n');
      && r.1 <= |lines| + 1
      && (r.1 == |lines| + 1 <==> forall j :: 0 <= j < |lines| ==> !Older(lines[j], date, s, m))
      && (r.1 <= |lines| ==> r.1 < |lines| && Older(lines[r.1], date, s, m))
      && (forall j :: 0 <= j < r.1 && j < |lines| ==> !Older(lines[j], date, s, m))
  {
    var lines := Split(contents, '\n');
    var note := NewNote(s, m, date);
    match FirstOlder(lines, 0, date, s, m)
    case Some(i) => (Join(lines[..i] + [note] + lines[i..], '\n'), i)
    case None => (Join(lines + [note], '\n'), |lines| + 1)
  }

  /** The lines of the text after insertion: the old lines with the heading
      and the dummy entry put in front of the first older dated line, whose
      index is returned, or at the end, where the index returned is the
      entry's line. */
  lemma InsertNoteLines(contents: string, s: Settings, m: Moment, date: Day)
    requires '\n' !in HeadingForDate(s, m, date)
    ensures var lines := Split(contents, '\n');
      var r := InsertNoteForDate(contents, s, m, date);
      var note := [HeadingForDate(s, m, date), DefaultDummyEntry];
      match FirstOlder(lines, 0, date, s, m)
      case Some(i) => r.1 == i && Split(r.0, '\n') == lines[..i] + note + lines[i..]
      case None => r.1 == |lines| + 1 && Split(r.0, '\n') == lines + note
  {
    var lines := Split(contents, '\n');
    match FirstOlder(lines, 0, date, s, m)
    case Some(i) => InsertBefore(contents, s, m, date, i);
    case None => InsertAtEnd(contents, s, m, date);
  }

  /** Insertion in front of line `i`, the first older one */
  lemma InsertBefore(contents: string, s: Settings, m: Moment, date: Day, i: nat)
    requires '\n' !in HeadingForDate(s, m, date)
    requires FirstOlder(Split(contents, '\n'), 0, date, s, m) == Some(i)
    ensures var lines := Split(contents, '\n');
      var r := InsertNoteForDate(contents, s, m, date);
      r.1 == i && Split(r.0, '\n') == lines[..i] + [HeadingForDate(s, m, date), DefaultDummyEntry] + lines[i..]
  {
    var lines := Split(contents, '\n');
    var heading := HeadingForDate(s, m, date);
    assert lines[..i] + [NewNote(s, m, date)] + lines[i..]
        == lines[..i] + [heading + ['\n'] + DefaultDummyEntry] + lines[i..];
    JoinEmbedded(lines[..i], heading, DefaultDummyEntry, lines[i..], '\n');
    SplitJoinLines(lines[..i], heading, lines[i..]);
  }

  /** Insertion at the end, when no line is older */
  lemma InsertAtEnd(contents: string, s: Settings, m: Moment, date: Day)
    requires '\n' !in HeadingForDate(s, m, date)
    requires FirstOlder(Split(contents, '\n'), 0, date, s, m).None?
    ensures var lines := Split(contents, '\n');
      var r := InsertNoteForDate(contents, s, m, date);
      r.1 == |lines| + 1 && Split(r.0, '\n') == lines + [HeadingForDate(s, m, date), DefaultDummyEntry]
  {
    var lines := Split(contents, '\n');
    var heading := HeadingForDate(s, m, date);
    assert lines + [NewNote(s, m, date)] == lines + [heading + ['\n'] + DefaultDummyEntry] + [];
    JoinEmbedded(lines, heading, DefaultDummyEntry, [], '\n');
    SplitJoinLines(lines, heading, []);
    assert lines + [heading, DefaultDummyEntry] + [] == lines + [heading, DefaultDummyEntry];
  }

  /** Lines with a note's two lines between them split back apart. */
  lemma SplitJoinLines(xs: seq<string>, heading: string, ys: seq<string>)
    requires '\n' !in heading
    requires forall j :: 0 <= j < |xs| ==> '\n' !in xs[j]
    requires forall j :: 0 <= j < |ys| ==> '\n' !in ys[j]
    ensures Split(Join(xs + [heading, DefaultDummyEntry] + ys, '\n'), '\n') == xs + [heading, DefaultDummyEntry] + ys
  {
    var note := [heading, DefaultDummyEntry];
    NoteLinesWithout(heading);
    LinesWithout(xs, note);
    LinesWithout(xs + note, ys);
    SplitJoin(xs + note + ys, '\n');
  }

  /** Neither line of a new note holds a line break. */
  lemma NoteLinesWithout(heading: string)
    requires '\n' !in heading
    ensures forall j :: 0 <= j < 2 ==> '\n' !in [heading, DefaultDummyEntry][j]
  {
    assert '\n' !in DefaultDummyEntry;
  }

  /** Two runs of lines without a line break make one. */
  lemma LinesWithout(xs: seq<string>, ys: seq<string>)
    requires forall j :: 0 <= j < |xs| ==> '\n' !in xs[j]
    requires forall j :: 0 <= j < |ys| ==> '\n' !in ys[j]
    ensures forall j :: 0 <= j < |xs + ys| ==> '\n' !in (xs + ys)[j]
  {
  }

  /** The file keeps its newest-first order: the dated lines run from the
      latest date down. */
  predicate NewestFirst(lines: seq<string>, s: Settings, m: Moment)
  {
    Descending(LineDates(lines, s, m))
  }

  /** The date of every line, None for lines that are not dated */
  function LineDates(lines: seq<string>, s: Settings, m: Moment): (ds: seq<Option<Day>>)
    ensures |ds| == |lines|
    ensures forall k :: 0 <= k < |lines| ==> ds[k] == LineDate(lines[k], s, m)
  {
    seq(|lines|, k requires 0 <= k < |lines| => LineDate(lines[k], s, m))
  }

  /** The known dates run from the latest down; unknown ones are ignored. */
  predicate Descending(ds: seq<Option<Day>>)
  {
    forall i, j :: 0 <= i < j < |ds| && ds[i].Some? && ds[j].Some? ==> ds[j].value <= ds[i].value
  }

  /** Inserting a note into a newest-first file keeps it newest-first, when
      the new heading reads back as its own date and the dummy entry is not
      read as a date. */
  lemma InsertKeepsNewestFirst(contents: string, s: Settings, m: Moment, date: Day)
    requires '\n' !in HeadingForDate(s, m, date)
    requires LineDate(HeadingForDate(s, m, date), s, m) == Some(date)
    requires LineDate(DefaultDummyEntry, s, m).None?
    requires NewestFirst(Split(contents, '\n'), s, m)
    ensures NewestFirst(Split(InsertNoteForDate(contents, s, m, date).0, '\n'), s, m)
  {
    match FirstOlder(Split(contents, '\n'), 0, date, s, m)
    case Some(i) =>
      InsertBefore(contents, s, m, date, i);
      InsertedNewestFirst(Split(contents, '\n'), i, HeadingForDate(s, m, date), date, s, m);
    case None => KeepsNewestFirstAtEnd(contents, s, m, date);
  }

  /** The order argument when the note is appended */
  lemma KeepsNewestFirstAtEnd(contents: string, s: Settings, m: Moment, date: Day)
    requires '\n' !in HeadingForDate(s, m, date)
    requires LineDate(HeadingForDate(s, m, date), s, m) == Some(date)
    requires LineDate(DefaultDummyEntry, s, m).None?
    requires NewestFirst(Split(contents, '\n'), s, m)
    requires FirstOlder(Split(contents, '\n'), 0, date, s, m).None?
    ensures NewestFirst(Split(InsertNoteForDate(contents, s, m, date).0, '\n'), s, m)
  {
    var lines := Split(contents, '\n');
    var note := [HeadingForDate(s, m, date), DefaultDummyEntry];
    InsertAtEnd(contents, s, m, date);
    InsertedNewestFirst(lines, |lines|, HeadingForDate(s, m, date), date, s, m);
    SpliceAtEnd(lines, note);
  }

  /** Splicing at the end is appending. */
  lemma SpliceAtEnd(xs: seq<string>, ys: seq<string>)
    ensures xs[..|xs|] + ys + xs[|xs|..] == xs + ys
  {
    assert xs[..|xs|] == xs;
  }

  /** The order argument on lines: everything before the note is dated no
      earlier than it, everything after no later. */
  lemma InsertedNewestFirst(lines: seq<string>, at: nat, heading: string, date: Day, s: Settings, m: Moment)
    requires at <= |lines|
    requires LineDate(heading, s, m) == Some(date)
    requires LineDate(DefaultDummyEntry, s, m).None?
    requires NewestFirst(lines, s, m)
    requires forall j :: 0 <= j < at ==> !Older(lines[j], date, s, m)
    requires at < |lines| ==> Older(lines[at], date, s, m)
    ensures NewestFirst(lines[..at] + [heading, DefaultDummyEntry] + lines[at..], s, m)
  {
    var ds := LineDates(lines, s, m);
    var all := lines[..at] + [heading, DefaultDummyEntry] + lines[at..];
    var spliced := ds[..at] + [Some(date), None] + ds[at..];
    assert LineDates(all, s, m) == spliced by {
      forall k | 0 <= k < |all|
        ensures LineDate(all[k], s, m) == spliced[k]
      {
        if k < at {
          assert all[k] == lines[k];
        } else if k >= at + 2 {
          assert all[k] == lines[k - 2];
        }
      }
    }
    forall k | 0 <= k < at && ds[k].Some?
      ensures date <= ds[k].value
    {
      assert !Older(lines[k], date, s, m);
    }
    DescendingSplice(ds, at, date);
  }

  /** Putting a date, and an undated entry after it, in front of the first
      earlier date keeps known dates descending. */
  lemma DescendingSplice(ds: seq<Option<Day>>, at: nat, date: Day)
    requires at <= |ds|
    requires Descending(ds)
    requires forall k :: 0 <= k < at && ds[k].Some? ==> date <= ds[k].value
    requires at < |ds| ==> ds[at].Some? && ds[at].value < date
    ensures Descending(ds[..at] + [Some(date), None] + ds[at..])
  {
    var all := ds[..at] + [Some(date), None] + ds[at..];
    forall i, j | 0 <= i < j < |all| && all[i].Some? && all[j].Some?
      ensures all[j].value <= all[i].value
    {
      if j < at {
        assert all[i] == ds[i] && all[j] == ds[j];
      } else if j == at {
        assert all[i] == ds[i];
      } else if i == at {
        assert all[j] == ds[j - 2];
      } else if i < at {
        assert all[i] == ds[i] && all[j] == ds[j - 2];
      } else {
        assert all[i] == ds[i - 2] && all[j] == ds[j - 2];
      }
    }
  }

  /** Inserting does not look for an existing note of the same date: the
      heading it added is skipped as not older, so a second insertion puts a
      second copy of the note right after the first. */
  lemma InsertTwiceDuplicates(contents: string, s: Settings, m: Moment, date: Day)
    requires '\n' !in HeadingForDate(s, m, date)
    requires LineDate(HeadingForDate(s, m, date), s, m) == Some(date)
    requires LineDate(DefaultDummyEntry, s, m).None?
    ensures var lines := Split(contents, '\n');
      var once := InsertNoteForDate(contents, s, m, date).0;
      var twice := InsertNoteForDate(once, s, m, date).0;
      var note := [HeadingForDate(s, m, date), DefaultDummyEntry];
      match FirstOlder(lines, 0, date, s, m)
      case Some(i) => Split(twice, '\n') == lines[..i] + note + note + lines[i..]
      case None => Split(twice, '\n') == lines + note + note
  {
    var lines := Split(contents, '\n');
    match FirstOlder(lines, 0, date, s, m)
    case Some(i) =>
      var once := InsertNoteForDate(contents, s, m, date).0;
      var note := [HeadingForDate(s, m, date), DefaultDummyEntry];
      InsertBefore(contents, s, m, date, i);
      NoteNotOlder(s, m, date);
      OlderStaysFirst(lines, note, i, date, s, m);
      InsertBefore(once, s, m, date, i + 2);
      TwiceSpliced(lines, Split(once, '\n'), Split(InsertNoteForDate(once, s, m, date).0, '\n'), note, i);
    case None => TwiceAtEnd(contents, s, m, date);
  }

  /** Two insertions at the end */
  lemma TwiceAtEnd(contents: string, s: Settings, m: Moment, date: Day)
    requires '\n' !in HeadingForDate(s, m, date)
    requires LineDate(HeadingForDate(s, m, date), s, m) == Some(date)
    requires LineDate(DefaultDummyEntry, s, m).None?
    requires FirstOlder(Split(contents, '\n'), 0, date, s, m).None?
    ensures var lines := Split(contents, '\n');
      var once := InsertNoteForDate(contents, s, m, date).0;
      var note := [HeadingForDate(s, m, date), DefaultDummyEntry];
      Split(InsertNoteForDate(once, s, m, date).0, '\n') == lines + note + note
  {
    var lines := Split(contents, '\n');
    var once := InsertNoteForDate(contents, s, m, date).0;
    var note := [HeadingForDate(s, m, date), DefaultDummyEntry];
    var after := Split(once, '\n');
    assert after == lines + note + [] by {
      InsertAtEnd(contents, s, m, date);
    }
    assert FirstOlder(after, 0, date, s, m).None? by {
      NoteNotOlder(s, m, date);
      FirstOlderAfterNote(lines, note, [], date, s, m);
    }
    assert Split(InsertNoteForDate(once, s, m, date).0, '\n') == after + note by {
      InsertAtEnd(once, s, m, date);
    }
  }

  /** Neither line of the new note is older than its date. */
  lemma NoteNotOlder(s: Settings, m: Moment, date: Day)
    requires LineDate(HeadingForDate(s, m, date), s, m) == Some(date)
    requires LineDate(DefaultDummyEntry, s, m).None?
    ensures var note := [HeadingForDate(s, m, date), DefaultDummyEntry];
      forall j :: 0 <= j < |note| ==> !Older(note[j], date, s, m)
  {
  }

  /** The first older line keeps its place, two lines down, once a note
      without older lines is put in front of it. */
  lemma OlderStaysFirst(lines: seq<string>, note: seq<string>, i: nat, date: Day, s: Settings, m: Moment)
    requires |note| == 2
    requires forall j :: 0 <= j < |note| ==> !Older(note[j], date, s, m)
    requires FirstOlder(lines, 0, date, s, m) == Some(i)
    ensures FirstOlder(lines[..i] + note + lines[i..], 0, date, s, m) == Some(i + 2)
  {
    FirstOlderAfterNote(lines[..i], note, lines[i..], date, s, m);
  }

  /** Splicing the note at `i`, then again at `i + 2`, gives two copies. */
  lemma TwiceSpliced(lines: seq<string>, after: seq<string>, final: seq<string>, note: seq<string>, i: nat)
    requires i <= |lines| && |note| == 2
    requires after == lines[..i] + note + lines[i..]
    requires final == after[..i + 2] + note + after[i + 2..]
    ensures final == lines[..i] + note + note + lines[i..]
  {
    assert after[..i + 2] == lines[..i] + note;
    assert after[i + 2..] == lines[i..];
  }

  /** In lines that put a note in front of the first older line, the first
      older line is still that one, now two lines further down. */
  lemma FirstOlderAfterNote(xs: seq<string>, note: seq<string>, ys: seq<string>, date: Day, s: Settings, m: Moment)
    requires |note| == 2
    requires forall j :: 0 <= j < |note| ==> !Older(note[j], date, s, m)
    requires forall j :: 0 <= j < |xs| ==> !Older(xs[j], date, s, m)
    requires |ys| > 0 ==> Older(ys[0], date, s, m)
    requires |ys| == 0 ==> forall j :: 0 <= j < |xs| ==> !Older(xs[j], date, s, m)
    ensures |ys| > 0 ==> FirstOlder(xs + note + ys, 0, date, s, m) == Some(|xs| + 2)
    ensures |ys| == 0 ==> FirstOlder(xs + note + ys, 0, date, s, m).None?
  {
    var all := xs + note + ys;
    forall j | 0 <= j < |all| && j < |xs| + 2
      ensures !Older(all[j], date, s, m)
    {
      if j < |xs| {
        assert all[j] == xs[j];
      } else {
        assert all[j] == note[j - |xs|];
      }
    }
    if |ys| > 0 {
      assert all[|xs| + 2] == ys[0];
      var r := FirstOlder(all, 0, date, s, m);
      assert r.Some?;
      assert !(r.value < |xs| + 2);
      assert !(r.value > |xs| + 2);
    } else {
      assert all == xs + note;
    }
  }

  /** The lookup matches by substring, so a deeper heading of the same date
      (one more "#") is found as the note for that date, and it also passes
      the marker test of the insertion loop. */
  lemma DeeperHeadingMatches(s: Settings, m: Moment, date: Day)
    ensures Includes("#" + HeadingForDate(s, m, date), HeadingForDate(s, m, date))
    ensures |HeadingMd(s)| > 0 ==> StartsWith("#" + HeadingForDate(s, m, date), HeadingMd(s))
  {
    var h := HeadingForDate(s, m, date);
    assert ("#" + h)[1..] == h;
    assert StartsWith(("#" + h)[1..], h);
    var md := HeadingMd(s);
    if |md| > 0 {
      assert ("#" + h)[..|md|] == "#" + h[..|md| - 1];
      assert md == "#" + md[..|md| - 1];
      assert h[..|md| - 1] == md[..|md| - 1];
    }
  }

  /** A note inserted for a date the file had no note for is found again
      by the next click, at the index `insertNoteForDate` returned when it
      was put before an older note, and on the line before that index when
      it was appended. */
  lemma CreatedNoteIsFound(contents: string, s: Settings, m: Moment, date: Day)
    requires '\n' !in HeadingForDate(s, m, date)
    requires ContainsNoteForDate(contents, s, m, date).None?
    ensures var r := InsertNoteForDate(contents, s, m, date);
      var lines := Split(contents, '\n');
      && ((exists j :: 0 <= j < |lines| && Older(lines[j], date, s, m)) ==>
            ContainsNoteForDate(r.0, s, m, date) == Some(r.1))
      && ((forall j :: 0 <= j < |lines| ==> !Older(lines[j], date, s, m)) ==>
            ContainsNoteForDate(r.0, s, m, date) == Some(r.1 - 1))
  {
    var lines := Split(contents, '\n');
    var heading := HeadingForDate(s, m, date);
    var r := InsertNoteForDate(contents, s, m, date);
    var older := FirstOlder(lines, 0, date, s, m);
    var at := if older.Some? then older.value else |lines|;
    assert Split(r.0, '\n') == lines[..at] + [heading, DefaultDummyEntry] + lines[at..] by {
      match older
      case Some(i) => InsertBefore(contents, s, m, date, i);
      case None =>
        InsertAtEnd(contents, s, m, date);
        SpliceAtEnd(lines, [heading, DefaultDummyEntry]);
    }
    assert r.1 == (if older.Some? then at else at + 1) by {
      match older
      case Some(i) => InsertBefore(contents, s, m, date, i);
      case None => InsertAtEnd(contents, s, m, date);
    }
    NoteFoundAt(lines, at, Split(r.0, '\n'), heading);
  }

  /** In lines none of which contains `heading`, a note spliced in at `at`
      is the first line found to contain it. */
  lemma NoteFoundAt(lines: seq<string>, at: nat, after: seq<string>, heading: string)
    requires at <= |lines|
    requires forall j :: 0 <= j < |lines| ==> !Includes(lines[j], heading)
    requires after == lines[..at] + [heading, DefaultDummyEntry] + lines[at..]
    ensures FindIncluding(after, heading, 0) == Some(at)
  {
    assert after[at] == heading;
    assert Includes(after[at], heading) by {
      assert after[at][0..] == after[at];
    }
    forall j | 0 <= j < at
      ensures !Includes(after[j], heading)
    {
      assert after[j] == lines[j];
    }
    FirstIncludingAt(after, heading, at);
  }

  /** The first line containing `p` is the one at `at` when it contains `p`
      and no line before it does. */
  lemma {:induction false} FirstIncludingAt(lines: seq<string>, p: string, at: nat)
    requires at < |lines| && Includes(lines[at], p)
    requires forall j :: 0 <= j < at ==> !Includes(lines[j], p)
    ensures FindIncluding(lines, p, 0) == Some(at)
  {
    var r := FindIncluding(lines, p, 0);
    assert r.Some?;
    assert !(r.value < at);
    assert !(at < r.value);
  }
}

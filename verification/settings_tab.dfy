/**
 The settings tab's heading-type field: a new value is accepted only when
 it names a heading level from h1 to h6, and accepting it rewrites every
 date heading of the daily notes file to the new level.
 */
module SettingsTab {
  import opened Options
  import opened Strings
  import opened Moments
  import opened Config
  import opened Utils

  // ---------------------------------------------------------------------------
  // Validation

  /** `/^h[1-6]$/.test(v)` */
  function ValidHeadingType(v: string): (b: bool)
    ensures b <==> v in {"h1", "h2", "h3", "h4", "h5", "h6"}
  {
    HeadingTypeNames(v);
    |v| == 2 && v[0] == 'h' && '1' <= v[1] <= '6'
  }

  /** The pattern accepts exactly the six names "h1" to "h6". */
  lemma HeadingTypeNames(v: string)
    ensures (|v| == 2 && v[0] == 'h' && '1' <= v[1] <= '6') <==> v in {"h1", "h2", "h3", "h4", "h5", "h6"}
  {
    if |v| == 2 && v[0] == 'h' && '1' <= v[1] <= '6' {
      assert v == ['h', v[1]];
    }
  }

  /** A heading type the field accepts gives a heading level from 1 to 6 and
      a heading marker of that many "#". */
  lemma ValidHeadingTypeLevel(s: Settings)
    requires ValidHeadingType(s.headingType)
    ensures HeadingLevel(s).Int? && 1 <= HeadingLevel(s).v <= 6
    ensures 1 <= |HeadingMd(s)| <= 6
  {
  }

  // ---------------------------------------------------------------------------
  // The date heading pattern `/^(#{1,6}) (.*)/`

  /** The number of "#" at the start of `line` */
  function HashRun(line: string): (k: nat)
    ensures k <= |line|
    ensures forall i :: 0 <= i < k ==> line[i] == '#'
    ensures k < |line| ==> line[k] != '#'
  {
    if |line| == 0 || line[0] != '#' then 0 else 1 + HashRun(line[1..])
  }

  /** The pattern matches `line` with a first group of `j` characters: `j`
      "#" from 1 to 6, then a space. */
  predicate MatchesWith(line: string, j: int)
  {
    1 <= j <= 6 && j < |line| && line[j] == ' ' &&
    forall i :: 0 <= i < j ==> line[i] == '#'
  }

  /** The length of the first group when the pattern matches `line`, None
      when it does not. The group is determined by the line: only the whole
      run of leading "#" can be followed by the space. */
  function HeadingMatch(line: string): (r: Option<nat>)
    ensures r.Some? ==> MatchesWith(line, r.value)
    ensures r.None? <==> forall j :: !MatchesWith(line, j)
    ensures forall j :: MatchesWith(line, j) ==> r == Some(j)
  {
    var k := HashRun(line);
    if 1 <= k <= 6 && k < |line| && line[k] == ' ' then Some(k) else None
  }

  /** The text the second group `(.*)` captures: what follows the space, up
      to the first line terminator */
  function DateText(line: string, k: nat): string
    requires k < |line|
  {
    TakeUntil(line[k + 1..], LineTerminators)
  }

  // ---------------------------------------------------------------------------
  // Rewriting the headings

  /** One line of the loop in `updateHeadings`: a line matching the pattern
      whose captured text strictly parses as a date gets its "#" run
      replaced by `newHeading`; every other line is kept. */
  function MigrateLine(line: string, newHeading: string, fmt: string, m: Moment): (r: string)
    ensures HeadingMatch(line).None? ==> r == line
    ensures HeadingMatch(line).Some? && m.parseStrict(DateText(line, HeadingMatch(line).value), fmt).None? ==> r == line
    ensures r != line ==>
      && HeadingMatch(line).Some?
      && m.parseStrict(DateText(line, HeadingMatch(line).value), fmt).Some?
      && StartsWith(r, newHeading)
      && r[|newHeading|..] == line[HeadingMatch(line).value..]
    ensures HeadingMatch(line).Some? && m.parseStrict(DateText(line, HeadingMatch(line).value), fmt).Some? ==>
      r == newHeading + line[HeadingMatch(line).value..]
    ensures '\n' !in line && '\n' !in newHeading ==> '\n' !in r
  {
    match HeadingMatch(line)
    case None => line
    case Some(k) =>
      if m.parseStrict(DateText(line, k), fmt).Some? then
        assert StartsWith(line, line[..k]);
        ReplaceFirst(line, line[..k], newHeading)
      else
        line
  }

  /** The loop of `updateHeadings` over all lines */
  function MigrateLines(lines: seq<string>, newHeading: string, fmt: string, m: Moment): (r: seq<string>)
    ensures |r| == |lines|
    ensures forall i :: 0 <= i < |lines| ==> r[i] == MigrateLine(lines[i], newHeading, fmt, m)
  {
    if |lines| == 0 then []
    else [MigrateLine(lines[0], newHeading, fmt, m)] + MigrateLines(lines[1..], newHeading, fmt, m)
  }

  /** The daily notes text after `updateHeadings`: split into lines, each
      line migrated, joined again. */
  function UpdateHeadings(data: string, newHeading: string, fmt: string, m: Moment): (r: string)
    ensures '\n' !in newHeading ==>
      Split(r, '\n') == MigrateLines(Split(data, '\n'), newHeading, fmt, m)
  {
    var lines := Split(data, '\n');
    if '\n' in newHeading then Join(MigrateLines(lines, newHeading, fmt, m), '\n')
    else
      MigratedLinesRejoin(lines, newHeading, fmt, m);
      Join(MigrateLines(lines, newHeading, fmt, m), '\n')
  }

  /** The field's change handler. An invalid value changes nothing (a notice
      is shown). A valid value is stored, and when the daily notes file
      exists (`doc` is its text) its date headings are rewritten with the
      marker of the new level, using the stored date format. */
  function OnHeadingTypeChange(s: Settings, value: string, doc: Option<string>, m: Moment): (r: (Settings, Option<string>))
    ensures !ValidHeadingType(value) ==> r == (s, doc)
    ensures ValidHeadingType(value) ==> r.0 == s.(headingType := value)
    ensures r.1.Some? <==> doc.Some?
    ensures ValidHeadingType(value) && doc.Some? ==>
      r.1.value == UpdateHeadings(doc.value, HeadingMd(r.0), s.dateFormat, m)
  {
    if !ValidHeadingType(value) then (s, doc)
    else
      var s' := s.(headingType := value);
      match doc
      case None => (s', None)
      case Some(data) => (s', Some(UpdateHeadings(data, HeadingMd(s'), s'.dateFormat, m)))
  }

  // ---------------------------------------------------------------------------
  // Properties

  /** Every line the migration qualifies becomes a date heading at the new
      level: for a marker of 1 to 6 "#", the pattern matches the rewritten
      line with exactly that marker, and it captures the same date text. */
  lemma MigratedLineLevel(line: string, newHeading: string, fmt: string, m: Moment)
    requires 1 <= |newHeading| <= 6
    requires forall i :: 0 <= i < |newHeading| ==> newHeading[i] == '#'
    requires HeadingMatch(line).Some?
    requires m.parseStrict(DateText(line, HeadingMatch(line).value), fmt).Some?
    ensures var r := MigrateLine(line, newHeading, fmt, m);
      && HeadingMatch(r) == Some(|newHeading|)
      && DateText(r, |newHeading|) == DateText(line, HeadingMatch(line).value)
  {
    var k := HeadingMatch(line).value;
    var r := MigrateLine(line, newHeading, fmt, m);
    PrefixRemainder(newHeading, line[k..]);
    MarkedLine(r, newHeading, line[k..]);
    assert line[k..][1..] == line[k + 1..];
  }

  /** A line made of a marker of one to six "#" and a tail that starts with
      a space matches with exactly that marker, and the text after the space
      is what follows it in the tail. */
  lemma MarkedLine(r: string, marker: string, tail: string)
    requires 1 <= |marker| <= 6
    requires forall i :: 0 <= i < |marker| ==> marker[i] == '#'
    requires |tail| > 0 && tail[0] == ' '
    requires StartsWith(r, marker) && r[|marker|..] == tail
    ensures HeadingMatch(r) == Some(|marker|)
    ensures r[|marker| + 1..] == tail[1..]
  {
    assert r[|marker|] == tail[0];
    assert MatchesWith(r, |marker|);
    assert r[|marker| + 1..] == r[|marker|..][1..];
  }

  /** Rewriting a line twice with the same marker is rewriting it once, for
      any marker made of "#" (also an empty one, or one too deep to match
      again). */
  lemma MigrateLineIdempotent(line: string, newHeading: string, fmt: string, m: Moment)
    requires forall i :: 0 <= i < |newHeading| ==> newHeading[i] == '#'
    ensures var r := MigrateLine(line, newHeading, fmt, m);
      MigrateLine(r, newHeading, fmt, m) == r
  {
    var r := MigrateLine(line, newHeading, fmt, m);
    if r != line {
      var k := HeadingMatch(line).value;
      var n := |newHeading|;
      assert r[n..] == line[k..];
      assert r[n] == ' ' by {
        assert r[n] == line[k];
      }
      assert HashRun(r) == n by {
        HashRunOf(r, n);
      }
      if 1 <= n <= 6 {
        MigratedLineLevel(line, newHeading, fmt, m);
        assert r[..n] == newHeading;
        assert r[n..] == line[k..];
      }
    }
  }

  /** The run of leading "#" ends where a space follows a marker of "#". */
  lemma {:induction false} HashRunOf(line: string, n: nat)
    requires n < |line| && line[n] == ' '
    requires forall i :: 0 <= i < n ==> line[i] == '#'
    ensures HashRun(line) == n
    decreases n
  {
    if n > 0 {
      HashRunOf(line[1..], n - 1);
    }
  }

  /** The loop over all lines is idempotent too. */
  lemma {:induction false} MigrateLinesIdempotent(lines: seq<string>, newHeading: string, fmt: string, m: Moment)
    requires forall i :: 0 <= i < |newHeading| ==> newHeading[i] == '#'
    ensures var r := MigrateLines(lines, newHeading, fmt, m);
      MigrateLines(r, newHeading, fmt, m) == r
  {
    var r := MigrateLines(lines, newHeading, fmt, m);
    var r2 := MigrateLines(r, newHeading, fmt, m);
    forall i | 0 <= i < |lines|
      ensures r2[i] == r[i]
    {
      MigrateLineIdempotent(lines[i], newHeading, fmt, m);
    }
  }

  /** `updateHeadings` keeps the number of lines and changes each line only
      as `MigrateLine` says; all other text is kept. */
  /** Migrated lines stay free of line breaks, so joining and splitting them
      again gives them back one for one. */
  lemma MigratedLinesRejoin(lines: seq<string>, newHeading: string, fmt: string, m: Moment)
    requires '\n' !in newHeading
    requires |lines| >= 1
    requires forall i :: 0 <= i < |lines| ==> '\n' !in lines[i]
    ensures Split(Join(MigrateLines(lines, newHeading, fmt, m), '\n'), '\n')
      == MigrateLines(lines, newHeading, fmt, m)
  {
    var r := MigrateLines(lines, newHeading, fmt, m);
    forall i | 0 <= i < |r|
      ensures '\n' !in r[i]
    {
      assert '\n' !in lines[i];
    }
    SplitJoin(r, '\n');
  }

  /** Applying the new heading type a second time leaves the text as it is. */
  lemma UpdateHeadingsIdempotent(data: string, newHeading: string, fmt: string, m: Moment)
    requires forall i :: 0 <= i < |newHeading| ==> newHeading[i] == '#'
    ensures var once := UpdateHeadings(data, newHeading, fmt, m);
      UpdateHeadings(once, newHeading, fmt, m) == once
  {
    var lines := Split(data, '\n');
    var once := UpdateHeadings(data, newHeading, fmt, m);
    assert '\n' !in newHeading;
    MigrateLinesIdempotent(lines, newHeading, fmt, m);
  }

  /** The heading pattern never matches a line beginning with seven or more
      "#", so such a line is never rewritten. */
  lemma DeepLinesKept(line: string, newHeading: string, fmt: string, m: Moment)
    requires 7 <= |line| && forall i :: 0 <= i < 7 ==> line[i] == '#'
    ensures HeadingMatch(line).None?
    ensures MigrateLine(line, newHeading, fmt, m) == line
  {
    assert !MatchesWith(line, HashRun(line));
  }

  /** After a valid change every date heading of the file (a line that
      matches the pattern and whose text strictly parses) carries exactly
      the chosen level, while the settings other than the heading type stay. */
  lemma HeadingTypeChangeLevel(s: Settings, value: string, data: string, m: Moment, i: int)
    requires ValidHeadingType(value)
    requires 0 <= i < |Split(data, '\n')|
    requires var line := Split(data, '\n')[i];
      HeadingMatch(line).Some? && m.parseStrict(DateText(line, HeadingMatch(line).value), s.dateFormat).Some?
    ensures var r := OnHeadingTypeChange(s, value, Some(data), m);
      && r.0.noteName == s.noteName && r.0.noteLocation == s.noteLocation && r.0.dateFormat == s.dateFormat
      && r.1.Some?
      && i < |Split(r.1.value, '\n')|
      && HeadingMatch(Split(r.1.value, '\n')[i]) == Some(value[1] as int - '0' as int)
  {
    var s' := s.(headingType := value);
    var md := HeadingMd(s');
    ValidHeadingTypeLevel(s');
    assert '\n' !in md;
    MigratedLineLevel(Split(data, '\n')[i], md, s.dateFormat, m);
  }
}

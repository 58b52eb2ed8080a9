/** Path and heading helpers shared by the plugin's components. */
module Utils {
  import opened Options
  import opened Strings
  import opened Moments
  import opened Config

  /** The vault path of the daily notes file */
  function FilePath(s: Settings): (p: string)
    ensures EndsWith(p, s.noteName + ".md")
    ensures s.noteLocation == "" ==> p == s.noteName + ".md"
  {
    var file := s.noteName + ".md";
    if s.noteLocation == "" then file else s.noteLocation + "/" + file
  }

  /** `parseInt(headingType[1])`: the digit after the "h", or NaN */
  function HeadingLevel(s: Settings): (n: Num)
    ensures n.Int? <==> |s.headingType| >= 2 && '0' <= s.headingType[1] <= '9'
    ensures n.Int? ==> n.v == s.headingType[1] as int - '0' as int
  {
    ParseIntChar(CharAt(s.headingType, 1))
  }

  /** The marker of a date heading: one "#" per heading level, and none when
      the level is NaN (`"#".repeat(NaN)` is ""). */
  function HeadingMd(s: Settings): (md: string)
    ensures forall i :: 0 <= i < |md| ==> md[i] == '#'
    ensures HeadingLevel(s).Int? ==> |md| == HeadingLevel(s).v
    ensures HeadingLevel(s).NaN? ==> md == ""
  {
    var r := RepeatNum('#', HeadingLevel(s));
    r.GetOr("")
  }

  /** The heading line of the section for `day` */
  function HeadingForDate(s: Settings, m: Moment, day: Day): (h: string)
    ensures StartsWith(h, HeadingMd(s) + " ")
    ensures h[|HeadingMd(s)| + 1..] == m.format(day, s.dateFormat)
  {
    HeadingMd(s) + " " + m.format(day, s.dateFormat)
  }

  /** The heading line of today's section */
  function TodayHeading(s: Settings, m: Moment, today: Day): (h: string)
    ensures h == HeadingForDate(s, m, today)
  {
    HeadingMd(s) + " " + m.format(today, s.dateFormat)
  }

  /** The default settings produce "###" headings in "Daily Notes.md" at the root. */
  lemma DefaultSettingsShape()
    ensures HeadingLevel(DefaultSettings) == Int(3)
    ensures HeadingMd(DefaultSettings) == "###"
    ensures FilePath(DefaultSettings) == "Daily Notes.md"
  {
    assert HeadingMd(DefaultSettings) == Repeat('#', 3);
  }
}

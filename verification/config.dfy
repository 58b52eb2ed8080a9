/** The plugin's settings record and its defaults. */
module Config {

  datatype Settings = Settings(
    /** file name of the daily notes file, without ".md" */
    noteName: string,
    /** folder of the daily notes file; "" is the vault root */
    noteLocation: string,
    /** "h1" to "h6" when valid; the level of date headings */
    headingType: string,
    /** moment.js pattern of the date in a date heading */
    dateFormat: string)

  const DefaultSettings: Settings := Settings("Daily Notes", "", "h3", "DD-MM-YYYY, dddd")

  /** The placeholder list item put under a freshly created date heading */
  const DefaultDummyEntry: string := "- entry"
}

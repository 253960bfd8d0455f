/** The translator's closed lookup tables. Both revisions of the source use the
    same values: one declares them inline, the other imports them from a
    `constants` module that is not part of this model and is taken to hold the
    same tables. */
module Tables {

  /** POSITION_CODE_DICT: fielder word to scorecard position number. */
  const PositionNumber: map<string, nat> := map[
    "pitcher" := 1, "catcher" := 2, "first" := 3, "second" := 4, "third" := 5,
    "shortstop" := 6, "left" := 7, "center" := 8, "right" := 9, "designated" := 10]

  /** ON_BASE_SUMMARY_DICT: summary label to on-base notation. */
  const OnBaseNotation: map<string, string> := map[
    "Single" := "1B", "Double" := "2B", "Triple" := "3B", "Hit By Pitch" := "HBP",
    "Home Run" := "HR", "Walk" := "BB", "Intent Walk" := "IBB"]

  datatype Keyword = Keyword(phrase: string, code: string)

  /** PLAY_CODE_ORDERED_DICT, in its declared order (the order is significant:
      the last keyword found wins). */
  const PlayKeywords: seq<Keyword> := [
    Keyword("picks off", "PO"),
    Keyword("caught stealing", "CS"),
    Keyword("wild pitch", "WP"),
    Keyword("passed ball", "PB"),
    Keyword("balk", "BLK"),
    Keyword("steals", "S"),
    Keyword("fan interference", "FI"),
    Keyword("catcher interference", "CI"),
    Keyword("error", "E"),
    Keyword("ground", "G"),
    Keyword("grand slam", "HR"),
    Keyword("homers", "HR"),
    Keyword("pop", "P"),
    Keyword("line", "L"),
    Keyword("fly", "F"),
    Keyword("flies", "F"),
    Keyword("sacrifice fly", "SF"),
    Keyword("hit by pitch", "HBP"),
    Keyword("bunt", "B"),
    Keyword("sacrifice bunt", "SB"),
    Keyword("walks", "BB"),
    Keyword("intentionally walks", "IBB"),
    Keyword("called out on strikes", "\U{A4D8}"),
    Keyword("strikes out", "K"),
    Keyword("choice", "FC")]

  /** The backwards K used for a called third strike. */
  const CalledStrikeout: string := "\U{A4D8}"

  /** NO_HIT_CODE_LIST: plays that have no batted-ball location. */
  const NoHitCodes: seq<string> := ["K", CalledStrikeout, "BB", "IBB"]

  /** INCREMENT_BASE_DICT: the base a runner doubled off a base had reached. */
  const NextBase: map<string, string> := map["1st" := "2nd", "2nd" := "3rd", "3rd" := "home"]

  /** Tag-out locations that may stand where a fielder is expected. */
  const BaseNames: seq<string> := ["1st", "2nd", "3rd"]

  /** The out phrases of the runner-out regexes, as the alternation
      `out at|(?:was )?picked off and caught stealing|(?:was )?caught stealing|
      (?:was )?picked off|(?:was )?doubled off` tries them: each optional
      `was ` is greedy, so its longer form comes first. */
  const OutPhrases: seq<string> := [
    "out at",
    "was picked off and caught stealing", "picked off and caught stealing",
    "was caught stealing", "caught stealing",
    "was picked off", "picked off",
    "was doubled off", "doubled off"]
}

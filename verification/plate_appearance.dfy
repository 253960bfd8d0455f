/** The plate appearance as the two constructors build it: the package's, which
    extracts the out runners from the description itself, and the top-level
    script's, which normalises the description and the summary first and is
    handed the out runners by its caller.

    Both compute the scorecard pieces in the source's order, so the first
    exception raised is the one the model reports: the package resolves the
    out runners, then the play code and the throws (for the hit location), then
    the error code, then the on-base flag and the summary; the script does the
    same without the runners.
 */
module PlateAppearances {
  import opened Results
  import opened Text
  import opened Tables
  import opened Names
  import opened Roster
  import opened Plays
  import opened Runners
  import opened Defense

  /** The fields of a plate appearance that the translation computes or keeps.
      The scoring-runner, runs-batted-in and event lists are passed through
      unchanged and are not kept. */
  datatype PlateAppearance = PlateAppearance(
    description: string,
    summary: string,
    pitcher: Player,
    batter: Player,
    inningOuts: int,
    outRunners: seq<OutRunner>,
    hitLocation: Option<string>,
    errorStr: Option<string>,
    gotOnBase: bool,
    scorecardSummary: string
  )

  /** What a built appearance holds, given the description and summary label
      it keeps, its play code, its throws and its error code: the hit location
      is the play code and the first fielder unless there are no throws or the
      play has no batted ball; the batter got on base
      exactly when the summary label is in the on-base table, and is then
      scored from that table, and otherwise from the play code and the throws. */
  predicate Scored(pa: PlateAppearance, description: string, summary: string, play: string, t: Throws,
                  errorStr: Option<string>) {
    && pa.description == description && pa.summary == summary
    && (pa.hitLocation.None? <==> t.chain == "" || play in NoHitCodes)
    && (pa.hitLocation.Some? ==> pa.hitLocation.value == play + t.chain[..1])
    && pa.errorStr == errorStr
    && (pa.gotOnBase <==> summary in OnBaseNotation)
    && (pa.gotOnBase ==> pa.scorecardSummary == OnBaseNotation[summary] + t.suffix)
    && (!pa.gotOnBase ==> pa.scorecardSummary == play + t.chain + t.suffix)
  }

  /** The pieces shared by both constructors, given the description and
      summary label the constructor keeps and the outcomes of `get_play_str`,
      `get_throws_str` and `get_error_str` on them. */
  function Assemble(description: string, summary: string, play: Result<string>, throws: Result<Throws>,
                    errorStr: Result<Option<string>>, pitcher: Player, batter: Player, inningOuts: int,
                    runners: seq<OutRunner>): (r: Result<PlateAppearance>)
    // the play code is asked for first, then the throws, then the error code
    ensures play.Err? ==> r == Err(play.error)
    ensures play.Ok? && throws.Err? ==> r == Err(throws.error)
    ensures play.Ok? && throws.Ok? && errorStr.Err? ==> r == Err(errorStr.error)
    // nothing else can fail
    ensures r.Ok? <==> play.Ok? && throws.Ok? && errorStr.Ok?
    ensures r.Ok? ==> Scored(r.value, description, summary, play.value, throws.value, errorStr.value)
    ensures r.Ok? ==> r.value.outRunners == runners && r.value.pitcher == pitcher && r.value.batter == batter
  {
    var p :- play;
    var t :- throws;
    var e :- errorStr;
    var outcome := OnBaseAndSummary(summary, t, Ok(p)).value;
    Ok(PlateAppearance(description, summary, pitcher, batter, inningOuts, runners,
                       HitLocation(p, t.chain), e, outcome.gotOnBase, outcome.summary))
  }

  /** `PlateAppearance.__init__` of the package: the description and summary
      are kept as given, and the out runners are read from the description and
      looked up on the batting team. */
  function NewPlateAppearance(battingTeam: Team, description: string, summary: string,
                              pitcher: Player, batter: Player, inningOuts: int): (r: Result<PlateAppearance>)
    // the out runners are resolved before anything else, then the play code
    ensures OutRunners(battingTeam, description).Err? ==> r == Err(OutRunners(battingTeam, description).error)
    ensures OutRunners(battingTeam, description).Ok? && PlayCode(description, summary).Err? ==>
              r == Err(PlayCode(description, summary).error)
    ensures r.Ok? <==>
              && OutRunners(battingTeam, description).Ok? && PlayCode(description, summary).Ok?
              && ThrowsOf(description).Ok? && ErrorStr(description).Ok?
    ensures r.Ok? ==>
              && r.value.outRunners == OutRunners(battingTeam, description).value
              && |r.value.outRunners| == |FindRunners(StripSuffixes(description))|
              && Scored(r.value, description, summary, PlayCode(description, summary).value,
                        ThrowsOf(description).value, ErrorStr(description).value)
  {
    var runners :- OutRunners(battingTeam, description);
    Assemble(description, summary, PlayCode(description, summary), ThrowsOf(description),
             ErrorStr(description), pitcher, batter, inningOuts, runners)
  }

  /** `PlateAppearance.__init__` of the top-level script: `fix_initials`, every
      period followed by whitespace written as ". ", and both strings stripped;
      the out runners come from the caller. */
  function NewScriptPlateAppearance(description: string, summary: string, pitcher: Player,
                                    batter: Player, inningOuts: int,
                                    outRunners: seq<OutRunner>): (r: Result<PlateAppearance>)
    // the kept description and summary are normalised
    ensures r.Ok? ==> Stripped(r.value.description) && SingleSpacedAfterPeriods(r.value.description)
    ensures r.Ok? ==> Stripped(r.value.summary)
    // the play code is asked for before the throws, both of the normalised description
    ensures PlayCode(NormalizeDescription(description), Strip(summary)).Err? ==>
              r == Err(PlayCode(NormalizeDescription(description), Strip(summary)).error)
    ensures r.Ok? <==>
              var d := NormalizeDescription(description);
              PlayCode(d, Strip(summary)).Ok? && ThrowsOfScript(d).Ok? && ErrorStr(d).Ok?
    ensures r.Ok? ==>
              var d := NormalizeDescription(description);
              && r.value.outRunners == outRunners
              && Scored(r.value, d, Strip(summary), PlayCode(d, Strip(summary)).value, ThrowsOfScript(d).value,
                        ErrorStr(d).value)
  {
    var d := NormalizeDescription(description);
    var s := Strip(summary);
    Assemble(d, s, PlayCode(d, s), ThrowsOfScript(d), ErrorStr(d), pitcher, batter, inningOuts, outRunners)
  }

  /** A description whose first " error by " names a fielder builds, when it
      builds at all, an appearance charging that fielder with the error. */
  lemma ErrorChargedInAppearance(battingTeam: Team, lead: string, w: string, tail: string,
                                 summary: string, pitcher: Player, batter: Player, inningOuts: int)
    requires IndexOf(lead + " error by " + w + tail, " error by ") == Some(|lead|)
    requires IsWord(w) && w in PositionNumber
    requires tail == [] || IsSpace(tail[0])
    ensures var r := NewPlateAppearance(battingTeam, lead + " error by " + w + tail, summary,
                                        pitcher, batter, inningOuts);
            r.Ok? ==> r.value.errorStr == Some("E" + PositionCode(w))
  {
    ErrorChargedToFielder(lead, w, tail);
  }

  /** A batter reaching base is scored from the on-base table, so the play code
      only matters for raising. */
  lemma OnBaseSummaryIgnoresPlay(battingTeam: Team, description: string, summary: string,
                                 pitcher: Player, batter: Player, inningOuts: int)
    requires summary in OnBaseNotation
    requires OutRunners(battingTeam, description).Ok? && PlayCode(description, summary).Ok?
    requires ThrowsOf(description).Ok? && ErrorStr(description).Ok?
    ensures var r := NewPlateAppearance(battingTeam, description, summary, pitcher, batter, inningOuts);
            r.Ok? && r.value.gotOnBase
            && r.value.scorecardSummary == OnBaseNotation[summary] + ThrowsOf(description).value.suffix
  {
  }
}

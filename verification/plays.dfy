/** The scorecard pieces of one plate appearance: the throws string and its
    runner-out suffix (`get_throws_str`), the play code (`get_play_str`), the
    hit location, the fielding error, and the on-base flag with the scorecard
    summary. Each takes the description (and, where the source does, the
    externally supplied summary label) and returns what the source computes, or
    the exception it raises.
 */
module Plays {
  import opened Results
  import opened Text
  import opened Scan
  import opened Tables
  import opened Names
  import opened Defense

  // ---------------------------------------------------------------------------
  // get_throws_str: segmenting the description

  /** The primary clause and the runner-out text after the first ". ". */
  datatype Segments = Segments(primary: string, suffix: string)

  /** Markers that end or re-start the primary clause. */
  predicate FreeOfMarkers(c: string) {
    !Contains(c, ", deflected") && !Contains(c, ", assist") && !Contains(c, ": ")
  }

  /** `c.split(marker)[0]`: the text before the first `marker`, or all of `c`. */
  function CutAt(c: string, marker: string): (r: string)
    requires |marker| > 0
    ensures !Contains(r, marker)
    ensures |r| <= |c| && r == c[..|r|]
    ensures Contains(c, marker) ==> r == c[..IndexOf(c, marker).value]
    ensures !Contains(c, marker) ==> r == c
  {
    SplitFirst(c, marker);
    if Contains(c, marker) then
      FirstPieceFree(c, marker, IndexOf(c, marker).value);
      Split(c, marker)[0]
    else c
  }

  /** A prefix of a text without `pat` is without `pat` too. */
  lemma PrefixFree(c: string, n: nat, pat: string)
    requires n <= |c| && !Contains(c, pat)
    ensures !Contains(c[..n], pat)
  {
    NotContainsSlice(c, pat, 0, n);
    assert c[..n] == c[0..n];
  }

  /** `c.split(': ')[1]` when ": " occurs: only the text between the first
      and the second ": ". */
  function AfterFirstColon(c: string): (r: string)
    ensures !Contains(r, ": ")
    ensures !Contains(c, ", deflected") ==> !Contains(r, ", deflected")
    ensures !Contains(c, ", assist") ==> !Contains(r, ", assist")
    ensures !Contains(c, ": ") ==> r == c
    // the text after the first ": ", up to the next one
    ensures Contains(c, ": ") ==> r == CutAt(c[IndexOf(c, ": ").value + 2..], ": ")
  {
    if Contains(c, ": ") then
      var r := Split(c, ": ")[1];
      SplitSecond(c, ": ");
      SplitFirst(c[IndexOf(c, ": ").value + 2..], ": ");
      assert !Contains(c, ", deflected") ==> !Contains(r, ", deflected") by {
        if !Contains(c, ", deflected") {
          SplitPiecesInherit(c, ": ", ", deflected");
        }
      }
      assert !Contains(c, ", assist") ==> !Contains(r, ", assist") by {
        if !Contains(c, ", assist") {
          SplitPiecesInherit(c, ": ", ", assist");
        }
      }
      r
    else c
  }

  /** Cut at the first ". " (once), then at ", deflected", then at ", assist",
      and keep the segment after the first ": " (up to the next one). */
  function Segment(d: string): (r: Segments)
    // the suffix is everything after the first ". ", or nothing
    ensures !Contains(d, ". ") ==> r.suffix == ""
    ensures Contains(d, ". ") ==>
              d == d[..IndexOf(d, ". ").value] + ". " + r.suffix
    // the primary clause is free of the three markers
    ensures FreeOfMarkers(r.primary)
    ensures FreeOfMarkers(d) && !Contains(d, ". ") ==> r == Segments(d, "")
    // the primary clause is the three cuts followed by the colon rule
    ensures r.primary == AfterFirstColon(CutAt(CutAt(CutAt(d, ". "), ", deflected"), ", assist"))
  {
    var parts := SplitOnce(d, ". ");
    assert parts[0] == CutAt(d, ". ");
    var suffix := if |parts| == 2 then parts[1] else "";
    var b := CutAt(parts[0], ", deflected");
    var c := CutAt(b, ", assist");
    PrefixFree(b, |c|, ", deflected");
    var primary := AfterFirstColon(c);
    assert Contains(d, ". ") ==> d == d[..IndexOf(d, ". ").value] + ". " + suffix by {
      if Contains(d, ". ") {
        SplitFirst(d, ". ");
      }
    }
    Segments(primary, suffix)
  }

  /** The usual shape "lead: chain, assist ..." segments to its chain. */
  lemma SegmentShape(a: string, b: string, x: string)
    requires !Contains(a + ": " + b + ", assist" + x, ". ")
    requires !Contains(a + ": " + b + ", assist" + x, ", deflected")
    requires !Contains(a, ": ") && !Contains(b, ": ")
    requires !Contains(a + ": " + b, ", assist")
    ensures Segment(a + ": " + b + ", assist" + x) == Segments(b, "")
  {
    var d := a + ": " + b + ", assist" + x;
    var p := a + ": " + b;
    LeadCharClear(p, ", assist");
    ClearFirst(p, ", assist", x);
    assert CutAt(d, ", assist") == p;
    LeadCharClear(a, ": ");
    SplitAfterClear(a, ": ", b);
    SplitFirst(b, ": ");
    assert AfterFirstColon(p) == b;
  }

  /** What `get_throws_str` returns: the chain of the primary clause joined by
      '-', and the runner-out suffix. */
  datatype Throws = Throws(chain: string, suffix: string)

  /** The throws of a segmented description; the chain is resolved before the
      suffix, so its errors come first. */
  function ThrowsOfSegments(seg: Segments): (r: Result<Throws>)
    ensures r.Ok? <==> CodeOrder(seg.primary).Ok? && DefenseSuffix(seg.suffix).Ok?
    ensures r.Ok? ==> r.value.chain == Join(CodeOrder(seg.primary).value, "-")
    ensures r.Ok? ==> r.value.suffix == DefenseSuffix(seg.suffix).value
    ensures CodeOrder(seg.primary).Err? ==> r == Err(CodeOrder(seg.primary).error)
    ensures CodeOrder(seg.primary).Ok? && DefenseSuffix(seg.suffix).Err? ==> r == Err(DefenseSuffix(seg.suffix).error)
  {
    var codes :- CodeOrder(seg.primary);
    var suffix :- DefenseSuffix(seg.suffix);
    Ok(Throws(Join(codes, "-"), suffix))
  }

  /** The throws of a cleaned-up description. */
  function ThrowsOfClean(d: string): (r: Result<Throws>)
    ensures !Contains(d, ". ") ==> (r.Ok? <==> CodeOrder(Segment(d).primary).Ok?)
    ensures !Contains(d, ". ") && r.Ok? ==> r.value.suffix == ""
  {
    assert !Contains(d, ". ") ==> DefenseSuffix(Segment(d).suffix) == Ok("") by {
      if !Contains(d, ". ") {
        NoSentenceBreakNoSuffix(d);
      }
    }
    ThrowsOfSegments(Segment(d))
  }

  /** `get_throws_str` of the package: `strip_suffixes` first. A description
      without generational suffixes is only stripped of outer whitespace. */
  function ThrowsOf(description: string): (r: Result<Throws>)
    ensures NoSuffixMarkers(description) ==> r == ThrowsOfClean(Strip(description))
    ensures !Contains(StripSuffixes(description), ". ") && r.Ok? ==> r.value.suffix == ""
  {
    assert NoSuffixMarkers(description) ==> StripSuffixes(description) == Strip(description) by {
      if NoSuffixMarkers(description) {
        StripSuffixesClean(description);
      }
    }
    ThrowsOfClean(StripSuffixes(description))
  }

  /** `get_throws_str` of the top-level script: `strip_suffixes`, then
      `fix_initials`. It agrees with the package's version whenever no spaced
      initial is left to fix. */
  function ThrowsOfScript(description: string): (r: Result<Throws>)
    ensures (forall i :: InitialDotAt(StripSuffixes(description), i).None?) ==> r == ThrowsOf(description)
  {
    var d := StripSuffixes(description);
    assert (forall i :: InitialDotAt(d, i).None?) ==> FixInitials(d) == d by {
      if forall i :: InitialDotAt(d, i).None? {
        FixInitialsFixes(d);
      }
    }
    ThrowsOfClean(FixInitials(StripSuffixes(description)))
  }

  /** With no ". " in the description there is no suffix clause and no suffix. */
  lemma NoSentenceBreakNoSuffix(d: string)
    requires !Contains(d, ". ")
    ensures Segment(d).suffix == "" && DefenseSuffix(Segment(d).suffix) == Ok("")
  {
    assert Search("", OutClause).None? by {
      if Search("", OutClause).Some? {
        var span := Search("", OutClause).value;
        assert OutClause("", span.start).Some?;
      }
    }
  }

  // ---------------------------------------------------------------------------
  // get_play_str

  /** The clause the play code is read from: before the first ". ". */
  function PlayClause(description: string): (c: string)
    ensures !Contains(c, ". ")
    ensures var d := StripSuffixes(description);
            Contains(d, ". ") ==> c == d[..IndexOf(d, ". ").value]
    ensures !Contains(StripSuffixes(description), ". ") ==> c == StripSuffixes(description)
  {
    SplitFirst(StripSuffixes(description), ". ");
    Split(StripSuffixes(description), ". ")[0]
  }

  /** The keyword loop: every keyword found overwrites the code. */
  function KeywordFold(clause: string, keywords: seq<Keyword>, code: Option<string>): (r: Option<string>)
  {
    if |keywords| == 0 then code
    else KeywordFold(clause, keywords[1..], if Contains(clause, keywords[0].phrase) then Some(keywords[0].code) else code)
  }

  /** `keywords[k]` is the last keyword of the list found in the clause. */
  predicate LastFound(clause: string, keywords: seq<Keyword>, k: nat) {
    k < |keywords| && Contains(clause, keywords[k].phrase)
    && forall j :: k < j < |keywords| ==> !Contains(clause, keywords[j].phrase)
  }

  /** The loop yields the code of the last keyword found, or the code it
      started with when none is found. */
  lemma KeywordFoldLast(clause: string, keywords: seq<Keyword>, code: Option<string>)
    ensures (forall j :: 0 <= j < |keywords| ==> !Contains(clause, keywords[j].phrase)) ==>
              KeywordFold(clause, keywords, code) == code
    ensures forall k: nat :: LastFound(clause, keywords, k) ==>
              KeywordFold(clause, keywords, code) == Some(keywords[k].code)
  {
    if forall j :: 0 <= j < |keywords| ==> !Contains(clause, keywords[j].phrase) {
      KeywordFoldNone(clause, keywords, code);
    }
    forall k: nat | LastFound(clause, keywords, k)
      ensures KeywordFold(clause, keywords, code) == Some(keywords[k].code)
    {
      KeywordFoldFound(clause, keywords, code, k);
    }
  }

  /** With no keyword found the loop keeps the code it started with. */
  lemma {:induction false} KeywordFoldNone(clause: string, keywords: seq<Keyword>, code: Option<string>)
    requires forall j :: 0 <= j < |keywords| ==> !Contains(clause, keywords[j].phrase)
    ensures KeywordFold(clause, keywords, code) == code
  {
    if |keywords| > 0 {
      var rest := keywords[1..];
      forall j | 0 <= j < |rest| ensures !Contains(clause, rest[j].phrase) {
        assert rest[j] == keywords[j + 1];
      }
      KeywordFoldNone(clause, rest, code);
    }
  }

  /** The last keyword found decides the code. */
  lemma {:induction false} KeywordFoldFound(clause: string, keywords: seq<Keyword>, code: Option<string>, k: nat)
    requires LastFound(clause, keywords, k)
    ensures KeywordFold(clause, keywords, code) == Some(keywords[k].code)
  {
    var rest := keywords[1..];
    var next := if Contains(clause, keywords[0].phrase) then Some(keywords[0].code) else code;
    assert KeywordFold(clause, keywords, code) == KeywordFold(clause, rest, next);
    if k > 0 {
      forall j | k - 1 < j < |rest| ensures !Contains(clause, rest[j].phrase) {
        assert rest[j] == keywords[j + 1];
      }
      assert rest[k - 1] == keywords[k];
      KeywordFoldFound(clause, rest, next, k - 1);
    } else {
      forall j | 0 <= j < |rest| ensures !Contains(clause, rest[j].phrase) {
        assert rest[j] == keywords[j + 1];
      }
      KeywordFoldNone(clause, rest, next);
    }
  }

  /** The code of the last keyword, in table order, found in the clause. */
  function KeywordCode(clause: string): (r: Option<string>)
    ensures r.Some? ==> |r.value| > 0
    ensures (forall j :: 0 <= j < |PlayKeywords| ==> !Contains(clause, PlayKeywords[j].phrase)) ==> r.None?
    ensures forall k: nat :: LastFound(clause, PlayKeywords, k) ==> r == Some(PlayKeywords[k].code)
  {
    KeywordFoldLast(clause, PlayKeywords, None);
    forall k | 0 <= k < |PlayKeywords| ensures |PlayKeywords[k].code| > 0 {
      KeywordCodesNonEmpty(k);
    }
    KeywordNonEmptyFold(clause, PlayKeywords, None);
    KeywordFold(clause, PlayKeywords, None)
  }

  /** Every keyword code is non-empty, so Python's `not code` means "no keyword". */
  lemma KeywordCodesNonEmpty(k: nat)
    requires k < |PlayKeywords|
    ensures |PlayKeywords[k].code| > 0
  {
  }

  /** "sacrifice fly" overrides "fly" (and "flies"): SF, unless a later keyword appears. */
  lemma SacrificeFlyWins(clause: string)
    requires Contains(clause, "sacrifice fly")
    requires forall j :: 17 <= j < |PlayKeywords| ==> !Contains(clause, PlayKeywords[j].phrase)
    ensures KeywordCode(clause) == Some("SF")
  {
    assert LastFound(clause, PlayKeywords, 16);
  }

  /** "intentionally walks" overrides "walks": IBB, unless a strikeout or
      "choice" appears. */
  lemma IntentionalWalkWins(clause: string)
    requires Contains(clause, "intentionally walks")
    requires !Contains(clause, "called out on strikes") && !Contains(clause, "strikes out")
    requires !Contains(clause, "choice")
    ensures KeywordCode(clause) == Some("IBB")
  {
    assert LastFound(clause, PlayKeywords, 21);
  }

  /** Clauses for which no keyword is expected. */
  predicate Disqualified(clause: string) {
    Contains(clause, "out at") || Contains(clause, "singles") || Contains(clause, "doubles")
    || Contains(clause, "triples") || Contains(clause, "hits a home run") || Contains(clause, "ejected")
  }

  /** `get_play_str` on its clause. The error message names the description
      as given. */
  function PlayCodeOfClause(clause: string, description: string, summary: string): (r: Result<string>)
    // the summary label "Fan interference" forces FI
    ensures summary == "Fan interference" ==> r == Ok("FI")
    // otherwise the last keyword found decides
    ensures summary != "Fan interference" ==>
              forall k: nat :: LastFound(clause, PlayKeywords, k) ==> r == Ok(PlayKeywords[k].code)
    // with no keyword, a disqualifying phrase gives "" and anything else raises
    ensures summary != "Fan interference" && KeywordCode(clause).None? ==>
              r == (if Disqualified(clause) then Ok("") else Err(NoPlayKeyword(description)))
    ensures r.Ok? && r.value == "" ==> Disqualified(clause)
    ensures r.Err? ==> r.error == NoPlayKeyword(description)
  {
    var code := if summary == "Fan interference" then Some("FI") else KeywordCode(clause);
    match code
    case Some(c) =>
      Ok(c)
    case None => if Disqualified(clause) then Ok("") else Err(NoPlayKeyword(description))
  }

  /** `get_play_str`. The keywords are sought in the cleaned-up clause, but an
      error names the description as given. */
  function PlayCode(description: string, summary: string): (r: Result<string>)
    ensures summary == "Fan interference" ==> r == Ok("FI")
    ensures summary != "Fan interference" ==>
              forall k: nat :: LastFound(PlayClause(description), PlayKeywords, k) ==> r == Ok(PlayKeywords[k].code)
    ensures NoSuffixMarkers(description) && !Contains(Strip(description), ". ") ==>
              r == PlayCodeOfClause(Strip(description), description, summary)
    ensures r.Err? ==> r.error == NoPlayKeyword(description)
  {
    assert NoSuffixMarkers(description) ==> StripSuffixes(description) == Strip(description) by {
      if NoSuffixMarkers(description) {
        StripSuffixesClean(description);
      }
    }
    PlayCodeOfClause(PlayClause(description), description, summary)
  }

  /** The fold only ever holds a code it started with or a keyword's code. */
  lemma {:induction false} KeywordNonEmptyFold(clause: string, keywords: seq<Keyword>, code: Option<string>)
    requires forall k :: 0 <= k < |keywords| ==> |keywords[k].code| > 0
    requires code.Some? ==> |code.value| > 0
    ensures KeywordFold(clause, keywords, code).Some? ==> |KeywordFold(clause, keywords, code).value| > 0
  {
    if |keywords| > 0 {
      assert forall k :: 0 <= k < |keywords[1..]| ==> keywords[1..][k] == keywords[k + 1];
      KeywordNonEmptyFold(clause, keywords[1..],
        if Contains(clause, keywords[0].phrase) then Some(keywords[0].code) else code);
    }
  }

  // ---------------------------------------------------------------------------
  // get_hit_location

  /** The hit location: the play code and the first fielder of the chain,
      except for plays that have no batted ball. */
  function HitLocation(play: string, chain: string): (r: Option<string>)
    ensures r.None? <==> chain == "" || play in NoHitCodes
    ensures r.Some? ==> |chain| > 0 && r.value == play + chain[..1]
  {
    if chain != "" && play !in NoHitCodes then Some(play + [chain[0]]) else None
  }

  /** The chain's first character is the first code's first digit. */
  lemma HitLocationFirstFielder(play: string, codes: seq<string>)
    requires |codes| > 0 && |codes[0]| > 0
    requires play !in NoHitCodes
    ensures HitLocation(play, Join(codes, "-")) == Some(play + codes[0][..1])
  {
    var first := codes[0];
    JoinHead(codes, "-");
    assert Join(codes, "-")[0] == first[0];
    assert first[..1] == [first[0]];
  }

  // ---------------------------------------------------------------------------
  // get_error_str

  /** `split(' error by ')[1].split()[0]`: the word after the first " error by ". */
  function ErroredFielder(description: string): (r: Result<string>)
    ensures r.Ok? ==> IsWord(r.value)
    ensures !Contains(description, " error by ") ==> r == Err(IndexOutOfRange)
    ensures r.Err? ==> r.error == IndexOutOfRange
  {
    var parts := Split(description, " error by ");
    if |parts| < 2 then Err(IndexOutOfRange)
    else
      var words := SplitWs(parts[1]);
      if |words| == 0 then Err(IndexOutOfRange) else Ok(words[0])
  }

  /** The word right after the first " error by " is the one found. */
  lemma ErroredFielderAfterFirst(lead: string, w: string, tail: string)
    requires IndexOf(lead + " error by " + w + tail, " error by ") == Some(|lead|)
    requires IsWord(w)
    requires tail == [] || IsSpace(tail[0])
    ensures ErroredFielder(lead + " error by " + w + tail) == Ok(w)
  {
    var sep := " error by ";
    var d := lead + sep + w + tail;
    assert d[|lead| + |sep|..] == w + tail;
    assert Split(d, sep)[1] == Split(w + tail, sep)[0];
    WordBeforeSeparator(w, tail, sep);
  }

  /** A separator that starts with a blank cannot start inside a word, so the
      first piece of `w + tail` still begins with the word `w`. */
  lemma WordBeforeSeparator(w: string, tail: string, sep: string)
    requires IsWord(w) && |sep| > 0 && IsSpace(sep[0])
    requires tail == [] || IsSpace(tail[0])
    ensures |SplitWs(Split(w + tail, sep)[0])| > 0 && SplitWs(Split(w + tail, sep)[0])[0] == w
  {
    FirstPieceExtendsWord(w, tail, sep);
    WordThenPrefix(w, tail, Split(w + tail, sep)[0]);
  }

  /** A word followed by a prefix of a blank-led tail is still the first word. */
  lemma WordThenPrefix(w: string, tail: string, piece: string)
    requires IsWord(w)
    requires tail == [] || IsSpace(tail[0])
    requires |w| <= |piece| <= |w + tail| && piece == w + tail[..|piece| - |w|]
    ensures |SplitWs(piece)| > 0 && SplitWs(piece)[0] == w
  {
    var rest := tail[..|piece| - |w|];
    assert rest == [] || rest[0] == tail[0];
    FirstWord(w, rest);
  }

  /** The first piece of `w + tail` is `w` followed by a prefix of `tail`. */
  lemma FirstPieceExtendsWord(w: string, tail: string, sep: string)
    requires IsWord(w) && |sep| > 0 && IsSpace(sep[0])
    ensures |w| <= |Split(w + tail, sep)[0]| <= |w + tail|
    ensures Split(w + tail, sep)[0] == w + tail[..|Split(w + tail, sep)[0]| - |w|]
  {
    var after := w + tail;
    SplitFirst(after, sep);
    var m := if Contains(after, sep) then IndexOf(after, sep).value else |after|;
    assert Split(after, sep)[0] == after[..m];
    assert m >= |w| by {
      if Contains(after, sep) {
        SeparatorNotInWord(w, tail, sep);
      }
    }
    assert after[..m] == w + tail[..m - |w|];
  }

  /** No occurrence of the separator starts inside the word. */
  lemma SeparatorNotInWord(w: string, tail: string, sep: string)
    requires IsWord(w) && |sep| > 0 && IsSpace(sep[0])
    ensures forall j: nat :: j < |w| ==> !OccursAt(w + tail, sep, j)
  {
    forall j: nat | j < |w| ensures !OccursAt(w + tail, sep, j) {
      if j + |sep| <= |w + tail| {
        assert (w + tail)[j..j + |sep|][0] == w[j];
      }
    }
  }

  /** `get_error_str`: "error" anywhere sends the word after the first
      " error by " through POSITION_CODE_DICT; otherwise "catcher interference"
      is charged to the catcher. */
  function ErrorStr(description: string): (r: Result<Option<string>>)
    ensures !Contains(description, "error") && Contains(description, "catcher interference") ==> r == Ok(Some("E2"))
    ensures !Contains(description, "error") && !Contains(description, "catcher interference") ==> r == Ok(None)
    ensures Contains(description, "error") && !Contains(description, " error by ") ==> r == Err(IndexOutOfRange)
    ensures Contains(description, "error") && r.Ok? ==>
              ErroredFielder(description).Ok? && ErroredFielder(description).value in PositionNumber
              && r.value == Some("E" + PositionCode(ErroredFielder(description).value))
    ensures Contains(description, "error") && ErroredFielder(description).Ok?
            && ErroredFielder(description).value !in PositionNumber ==>
              r == Err(MissingKey(ErroredFielder(description).value))
  {
    if Contains(description, "error") then
      var w :- ErroredFielder(description);
      if w !in PositionNumber then Err(MissingKey(w)) else Ok(Some("E" + PositionCode(w)))
    else if Contains(description, "catcher interference") then Ok(Some("E2"))
    else Ok(None)
  }

  /** The fielder named right after the first " error by " is charged with the error. */
  lemma ErrorChargedToFielder(lead: string, w: string, tail: string)
    requires IndexOf(lead + " error by " + w + tail, " error by ") == Some(|lead|)
    requires IsWord(w) && w in PositionNumber
    requires tail == [] || IsSpace(tail[0])
    ensures ErrorStr(lead + " error by " + w + tail) == Ok(Some("E" + PositionCode(w)))
  {
    var d := lead + " error by " + w + tail;
    assert d[|lead| + 1..|lead| + 6] == "error";
    ContainsAt(d, "error", |lead| + 1);
    ErroredFielderAfterFirst(lead, w, tail);
  }

  // ---------------------------------------------------------------------------
  // get_on_base_and_summary

  /** The on-base flag and the scorecard summary, given the play code as a
      thunk-free value: the source asks for it only when the batter is out. */
  datatype Outcome = Outcome(gotOnBase: bool, summary: string)

  /** `get_on_base_and_summary`, given the throws and the play-code result. */
  function OnBaseAndSummary(summaryLabel: string, throws: Throws, play: Result<string>): (r: Result<Outcome>)
    ensures r.Ok? ==> (r.value.gotOnBase <==> summaryLabel in OnBaseNotation)
    ensures summaryLabel in OnBaseNotation ==>
              r == Ok(Outcome(true, OnBaseNotation[summaryLabel] + throws.suffix))
    ensures summaryLabel !in OnBaseNotation && play.Ok? ==>
              r == Ok(Outcome(false, play.value + throws.chain + throws.suffix))
    ensures summaryLabel !in OnBaseNotation && play.Err? ==> r == Err(play.error)
  {
    if summaryLabel in OnBaseNotation then Ok(Outcome(true, OnBaseNotation[summaryLabel] + throws.suffix))
    else
      var code :- play;
      Ok(Outcome(false, code + throws.chain + throws.suffix))
  }
}

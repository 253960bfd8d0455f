/** Runners put out on the play: `get_out_runners_list`.

    The description (after `strip_suffixes`) is scanned with `re.findall` for

      ([A-Z][\w'-]+\s+(?:[A-Z,a-z][\w'-]+\s+)?(?:[A-Z,a-z][\w'-]+\s+)?[A-Z][\w'-]+)
      \s+(?:out at|...|(?:was )?doubled off) +(\w+)

    capturing a runner's name (two to four tokens) and the word after the out
    phrase. Every greedy run in the pattern is followed by a class disjoint from
    it (`[\w'-]+` by `\s`, `\s+` by a letter, ` +` by `\w`), so each run takes
    its maximal extent; the only choices the regex engine backtracks over are
    the two optional middle tokens and the alternatives of the out phrase.
 */
module Runners {
  import opened Results
  import opened Text
  import opened Scan
  import opened Tables
  import opened Names
  import opened Roster

  // ---------------------------------------------------------------------------
  // The pattern, piece by piece

  /** `[\w'-]`. */
  predicate IsNameChar(c: char) {
    IsWordChar(c) || c == '\'' || c == '-'
  }

  /** `[A-Z,a-z]`: the comma is part of the class as written. */
  predicate IsMiddleLead(c: char) {
    IsUpper(c) || IsLower(c) || c == ','
  }

  predicate IsBlank(c: char) {
    c == ' '
  }

  /** `s[i..e]` is one `<lead>[\w'-]+` token that ends a `[\w'-]` run. */
  predicate TokenShape(s: string, i: nat, e: nat, lead: char -> bool) {
    i + 2 <= e <= |s| && lead(s[i]) && (forall j :: i < j < e ==> IsNameChar(s[j]))
    && (e == |s| || !IsNameChar(s[e]))
  }

  /** `<lead>[\w'-]+` at `i`: it matches exactly when a lead character is
      followed by a name character, and ends where the name characters do. */
  function TokenAt(s: string, i: nat, lead: char -> bool): (r: Option<nat>)
    ensures r.Some? <==> i + 1 < |s| && lead(s[i]) && IsNameChar(s[i + 1])
    ensures r.Some? ==> TokenShape(s, i, r.value, lead)
    ensures forall e: nat :: TokenShape(s, i, e, lead) ==> r == Some(e)
  {
    assert forall e: nat :: TokenShape(s, i, e, lead) ==> RunEnd(s, i + 1, IsNameChar) == e by {
      forall e: nat | TokenShape(s, i, e, lead)
        ensures RunEnd(s, i + 1, IsNameChar) == e
      {
        RunEndAt(s, i + 1, e, IsNameChar);
      }
    }
    if i < |s| && lead(s[i]) then
      var e := RunEnd(s, i + 1, IsNameChar);
      if e > i + 1 then Some(e) else None
    else None
  }

  /** `\s+` at `i`: the end of the whitespace run. */
  function BlanksAt(s: string, i: nat): (r: Option<nat>)
    ensures r.Some? <==> i < |s| && IsSpace(s[i])
    ensures r.Some? ==> SpaceRun(s, i, r.value)
    ensures forall e: nat :: SpaceRun(s, i, e) ==> r == Some(e)
  {
    SpaceRunsEnd(s);
    if i <= |s| then
      var e := SpaceRunEnd(s, i);
      if e > i then Some(e) else None
    else None
  }

  /** `<lead>[\w'-]+\s+` at `i`. */
  function TokenBlanksAt(s: string, i: nat, lead: char -> bool): (r: Option<nat>)
    ensures r.Some? ==> i + 3 <= r.value <= |s| && lead(s[i]) && IsSpace(s[r.value - 1])
    ensures r.Some? ==> NameText(s, i + 1, r.value)
  {
    match TokenAt(s, i, lead)
    case None => None
    case Some(e) => BlanksAt(s, e)
  }

  /** Every character of `s[a..b]` is a name character, a comma or whitespace. */
  predicate NameText(s: string, a: nat, b: nat)
    requires a <= b <= |s|
  {
    forall j :: a <= j < b ==> IsNameChar(s[j]) || s[j] == ',' || IsSpace(s[j])
  }

  /** `s[..e]` ends with a whole `[\w'-]` run. */
  predicate TokenEnd(s: string, e: nat) {
    0 < e <= |s| && IsNameChar(s[e - 1]) && (e == |s| || !IsNameChar(s[e]))
  }

  /** `extra` middle tokens `[A-Z,a-z][\w'-]+\s+`, then the last token `[A-Z][\w'-]+`. */
  function MiddleThenLast(s: string, j: nat, extra: nat): (r: Option<nat>)
    ensures r.Some? ==> j + 2 <= r.value <= |s| && TokenEnd(s, r.value) && NameText(s, j, r.value)
    decreases extra
  {
    if extra == 0 then TokenAt(s, j, IsUpper)
    else
      match TokenBlanksAt(s, j, IsMiddleLead)
      case None => None
      case Some(k) => MiddleThenLast(s, k, extra - 1)
  }

  /** The name group with `extra` of the optional tokens present: the end of the
      name, which starts with a capital, holds a blank and ends a token. */
  function NameAt(s: string, i: nat, extra: nat): (r: Option<nat>)
    ensures r.Some? ==> i + 5 <= r.value <= |s| && IsUpper(s[i])
    ensures r.Some? ==> TokenEnd(s, r.value) && NameText(s, i, r.value) && !IsWord(s[i..r.value])
  {
    match TokenBlanksAt(s, i, IsUpper)
    case None => None
    case Some(j) =>
      var n := MiddleThenLast(s, j, extra);
      if n.Some? then
        assert s[i..n.value][j - 1 - i] == s[j - 1];
        n
      else n
  }

  /** `s[q..e]` reads ` +(\w+)`, blanks up to `b` and then a whole `\w` run. */
  predicate BaseShape(s: string, q: nat, b: nat, e: nat) {
    q < b < e <= |s| && (forall j :: q <= j < b ==> s[j] == ' ')
    && (forall j :: b <= j < e ==> IsWordChar(s[j])) && (e == |s| || !IsWordChar(s[e]))
  }

  /** ` +(\w+)` at `q`: the span of the captured word, found exactly when the
      text there has that shape. */
  function BaseWordAt(s: string, q: nat): (r: Option<Span>)
    ensures r.Some? ==> BaseShape(s, q, r.value.start, r.value.end)
    ensures forall b: nat, e: nat :: BaseShape(s, q, b, e) ==> r == Some(Span(b, e))
  {
    assert forall b: nat, e: nat :: BaseShape(s, q, b, e) ==>
             RunEnd(s, q, IsBlank) == b && RunEnd(s, b, IsWordChar) == e by {
      forall b: nat, e: nat | BaseShape(s, q, b, e)
        ensures RunEnd(s, q, IsBlank) == b && RunEnd(s, b, IsWordChar) == e
      {
        assert !IsBlank(s[b]);
        RunEndAt(s, q, b, IsBlank);
        RunEndAt(s, b, e, IsWordChar);
      }
    }
    if q <= |s| then
      var b := RunEnd(s, q, IsBlank);
      if b > q then
        var e := RunEnd(s, b, IsWordChar);
        if e > b then Some(Span(b, e)) else None
      else None
    else None
  }

  /** One out phrase at `p`, with the base word after it. */
  function PhraseBaseAt(s: string, p: nat, phrase: string): (r: Option<Span>)
    ensures r.Some? ==> OccursAt(s, phrase, p) && BaseShape(s, p + |phrase|, r.value.start, r.value.end)
    ensures forall b: nat, e: nat :: OccursAt(s, phrase, p) && BaseShape(s, p + |phrase|, b, e) ==>
              r == Some(Span(b, e))
  {
    if OccursAt(s, phrase, p) then BaseWordAt(s, p + |phrase|) else None
  }

  /** The out-phrase alternatives, tried in order: the first that matches wins. */
  function PhraseBaseFrom(s: string, p: nat, phrases: seq<string>): (r: Option<Span>)
    ensures r.Some? ==> p < r.value.start < r.value.end <= |s|
    ensures r.Some? <==> exists k :: 0 <= k < |phrases| && PhraseBaseAt(s, p, phrases[k]).Some?
    // the first alternative that matches decides the base
    ensures forall k :: (0 <= k < |phrases| && PhraseBaseAt(s, p, phrases[k]).Some?
                         && forall j :: 0 <= j < k ==> PhraseBaseAt(s, p, phrases[j]).None?) ==>
              r == PhraseBaseAt(s, p, phrases[k])
  {
    FirstSome(PhraseOf(s, p), phrases)
  }

  /** An out phrase at `p` as a function value. */
  function PhraseOf(s: string, p: nat): (f: string -> Option<Span>)
    ensures forall phrase :: f(phrase) == PhraseBaseAt(s, p, phrase)
  {
    phrase => PhraseBaseAt(s, p, phrase)
  }

  /** What follows the name: `\s+`, an out phrase, and the base word. */
  function TailAt(s: string, n: nat): (r: Option<Span>)
    ensures r.Some? ==> n < r.value.start < r.value.end <= |s|
    ensures n >= |s| || !IsSpace(s[n]) ==> r.None?
  {
    match BlanksAt(s, n)
    case None => None
    case Some(p) => PhraseBaseFrom(s, p, OutPhrases)
  }

  /** One `findall` hit: the spans of the two groups. */
  datatype RunnerMatch = RunnerMatch(name: Span, base: Span)

  /** Predicate of a well-placed hit inside `s`. */
  predicate InOrder(m: RunnerMatch, s: string) {
    m.name.start < m.name.end < m.base.start < m.base.end <= |s|
  }

  /** The optional middle tokens as the engine tries them: both present, only
      the first, only the second, neither. The two groups are the same pattern,
      so the second and third choices match the same texts. */
  const MiddleChoices: seq<nat> := [2, 1, 1, 0]

  /** With `c` optional tokens the name matches and so does what follows it. */
  predicate ChoiceHits(s: string, i: nat, c: nat) {
    NameAt(s, i, c).Some? && TailAt(s, NameAt(s, i, c).value).Some?
  }

  /** The hit of a choice that works. */
  function ChoiceHit(s: string, i: nat, c: nat): (m: RunnerMatch)
    requires ChoiceHits(s, i, c)
    ensures m.name == Span(i, NameAt(s, i, c).value) && m.base == TailAt(s, NameAt(s, i, c).value).value
    ensures InOrder(m, s)
  {
    RunnerMatch(Span(i, NameAt(s, i, c).value), TailAt(s, NameAt(s, i, c).value).value)
  }

  /** A choice as a function value: the hit when the choice works. */
  function ChoiceOf(s: string, i: nat): (f: nat -> Option<RunnerMatch>)
    ensures forall c :: f(c).Some? <==> ChoiceHits(s, i, c)
    ensures forall c :: ChoiceHits(s, i, c) ==> f(c) == Some(ChoiceHit(s, i, c))
  {
    (c: nat) => if ChoiceHits(s, i, c) then Some(ChoiceHit(s, i, c)) else None
  }

  /** The whole pattern anchored at `i`: the choices are tried in order, the
      pattern matches when some choice works, and the first that works gives
      the hit. */
  function RunnerAt(s: string, i: nat): (r: Option<RunnerMatch>)
    ensures r.Some? ==> r.value.name.start == i && InOrder(r.value, s)
    ensures r.Some? <==> exists k :: 0 <= k < 4 && ChoiceHits(s, i, MiddleChoices[k])
    ensures forall k :: (0 <= k < 4 && ChoiceHits(s, i, MiddleChoices[k])
                         && forall j :: 0 <= j < k ==> !ChoiceHits(s, i, MiddleChoices[j])) ==>
              r == Some(ChoiceHit(s, i, MiddleChoices[k]))
  {
    var f := ChoiceOf(s, i);
    var r := FirstSome(f, MiddleChoices);
    assert r.Some? ==> r.value.name.start == i && InOrder(r.value, s) by {
      if r.Some? {
        var k :| 0 <= k < |MiddleChoices| && r == f(MiddleChoices[k]);
        assert ChoiceHits(s, i, MiddleChoices[k]);
      }
    }
    r
  }

  function RunnerEnd(s: string, i: nat): (r: Option<nat>)
    ensures r.Some? <==> RunnerAt(s, i).Some?
    ensures r.Some? ==> r.value == RunnerAt(s, i).value.base.end
  {
    match RunnerAt(s, i)
    case None => None
    case Some(m) => Some(m.base.end)
  }

  const RunnerPattern: Matcher := (s, i) => RunnerEnd(s, i)

  // ---------------------------------------------------------------------------
  // re.findall

  /** The hit the runner pattern found where it matched. */
  function HitAt(s: string, span: Span): (m: RunnerMatch)
    requires RunnerPattern(s, span.start) == Some(span.end)
    ensures RunnerAt(s, span.start) == Some(m)
    ensures m.name.start == span.start && m.base.end == span.end
  {
    assert RunnerEnd(s, span.start) == Some(span.end);
    RunnerAt(s, span.start).value
  }

  /** The hits at the given match starts. */
  function HitsAt(s: string, spans: seq<Span>): (ms: seq<RunnerMatch>)
    requires forall k :: 0 <= k < |spans| ==> RunnerPattern(s, spans[k].start) == Some(spans[k].end)
    ensures |ms| == |spans|
    ensures forall k :: 0 <= k < |ms| ==> RunnerAt(s, spans[k].start) == Some(ms[k])
    ensures forall k :: 0 <= k < |ms| ==> ms[k].name.start == spans[k].start && ms[k].base.end == spans[k].end
  {
    seq(|spans|, k requires 0 <= k < |spans| => HitAt(s, spans[k]))
  }

  /** `re.findall(pattern, s)`, one hit per match, in order. */
  function FindRunners(s: string): (ms: seq<RunnerMatch>)
    // every element is a hit of the pattern where it starts
    ensures forall k :: 0 <= k < |ms| ==> RunnerAt(s, ms[k].name.start) == Some(ms[k])
    // hits come in order and do not overlap
    ensures forall k :: 0 < k < |ms| ==> ms[k - 1].base.end <= ms[k].name.start
    ensures forall k :: 0 <= k < |ms| ==> InOrder(ms[k], s)
  {
    HitsAt(s, FindAllFrom(s, RunnerPattern, 0))
  }

  /** Nothing is skipped: every position where the pattern matches lies inside a hit. */
  lemma FindRunnersComplete(s: string, i: nat)
    requires i <= |s| && RunnerAt(s, i).Some?
    ensures exists k :: 0 <= k < |FindRunners(s)| && FindRunners(s)[k].name.start <= i < FindRunners(s)[k].base.end
  {
    assert RunnerPattern(s, i).Some?;
    FindRunnersCover(s, i);
  }

  /** The same, stated for the matcher `findall` runs. */
  lemma FindRunnersCover(s: string, i: nat)
    requires i <= |s| && RunnerPattern(s, i).Some?
    ensures exists k :: 0 <= k < |FindRunners(s)| && FindRunners(s)[k].name.start <= i < FindRunners(s)[k].base.end
  {
    RunnerPatternNonEmpty(s);
    FindAllCovers(s, RunnerPattern, i);
    var spans := FindAllFrom(s, RunnerPattern, 0);
    var k :| 0 <= k < |spans| && spans[k].start <= i < spans[k].end;
    assert FindRunners(s)[k].name.start == spans[k].start && FindRunners(s)[k].base.end == spans[k].end;
  }

  /** Every match of the runner pattern is non-empty. */
  lemma RunnerPatternNonEmpty(s: string)
    ensures forall j: nat :: j <= |s| && RunnerPattern(s, j).Some? ==> j < RunnerPattern(s, j).value
  {
    forall j: nat | j <= |s| && RunnerPattern(s, j).Some?
      ensures j < RunnerPattern(s, j).value
    {
      assert RunnerEnd(s, j).Some?;
    }
  }

  // ---------------------------------------------------------------------------
  // Doubled off: the base is advanced

  /** `findall(escape(name) + r' (?:was )?doubled off', description)` is non-empty. */
  predicate DoubledOff(d: string, name: string) {
    Contains(d, name + " doubled off") || Contains(d, name + " was doubled off")
  }

  /** The base recorded for a runner: the captured word, advanced through
      INCREMENT_BASE_DICT when the runner was doubled off (`KeyError` if the
      word is not one of its keys). */
  function RecordedBase(d: string, name: string, base: string): (r: Result<string>)
    ensures !DoubledOff(d, name) ==> r == Ok(base)
    ensures DoubledOff(d, name) ==> (r.Ok? <==> base in BaseNames)
    ensures r.Err? ==> r.error == MissingKey(base)
  {
    if DoubledOff(d, name) then
      if base in NextBase then Ok(NextBase[base]) else Err(MissingKey(base))
    else Ok(base)
  }

  /** The bases in running order, the reference for the increment. */
  const BasePath: seq<string> := ["1st", "2nd", "3rd", "home"]

  /** A doubled-off runner is recorded one base further along. */
  lemma DoubledOffAdvances(d: string, name: string, k: nat)
    requires k < 3 && DoubledOff(d, name)
    ensures RecordedBase(d, name, BasePath[k]) == Ok(BasePath[k + 1])
  {
  }

  /** Any other out phrase keeps the base as captured. */
  lemma OtherOutKeepsBase(d: string, name: string, base: string)
    requires !DoubledOff(d, name)
    ensures RecordedBase(d, name, base) == Ok(base)
  {
  }

  // ---------------------------------------------------------------------------
  // get_out_runners_list

  /** One entry of `out_runners_list`. */
  datatype OutRunner = OutRunner(player: Player, base: string)

  function NameOf(s: string, m: RunnerMatch): string
    requires InOrder(m, s)
  {
    s[m.name.start..m.name.end]
  }

  function BaseOf(s: string, m: RunnerMatch): string
    requires InOrder(m, s)
  {
    s[m.base.start..m.base.end]
  }

  /** One hit: the recorded base first (it may raise `KeyError`), then the
      roster lookup of the captured name (it may raise `ValueError` or
      `IndexError`). */
  function ResolveRunner(team: Team, d: string, m: RunnerMatch): (r: Result<OutRunner>)
    requires InOrder(m, d)
    ensures RecordedBase(d, NameOf(d, m), BaseOf(d, m)).Err? ==>
              r == Err(RecordedBase(d, NameOf(d, m), BaseOf(d, m)).error)
    ensures r.Ok? <==> RecordedBase(d, NameOf(d, m), BaseOf(d, m)).Ok? && GetItem(team, Name(NameOf(d, m))).Ok?
    ensures r.Ok? ==>
              r.value == OutRunner(GetItem(team, Name(NameOf(d, m))).value,
                                   RecordedBase(d, NameOf(d, m), BaseOf(d, m)).value)
  {
    var name := NameOf(d, m);
    var base :- RecordedBase(d, name, BaseOf(d, m));
    var player :- GetItem(team, Name(name));
    Ok(OutRunner(player, base))
  }

  /** The loop over the hits, raising at the first hit that fails. */
  function ResolveRunners(team: Team, d: string, ms: seq<RunnerMatch>): (r: Result<seq<OutRunner>>)
    requires forall k :: 0 <= k < |ms| ==> InOrder(ms[k], d)
    ensures r.Ok? <==> forall k :: 0 <= k < |ms| ==> ResolveRunner(team, d, ms[k]).Ok?
    ensures r.Ok? ==> |r.value| == |ms|
    ensures r.Ok? ==> forall k :: 0 <= k < |ms| ==> ResolveRunner(team, d, ms[k]) == Ok(r.value[k])
  {
    MapAll(ResolveIn(team, d), ms)
  }

  /** `ResolveRunner` as a total function value; the out-of-order case never
      arises for the hits `FindRunners` produces. */
  function ResolveIn(team: Team, d: string): (f: RunnerMatch -> Result<OutRunner>)
    ensures forall m :: InOrder(m, d) ==> f(m) == ResolveRunner(team, d, m)
  {
    m => if InOrder(m, d) then ResolveRunner(team, d, m) else Err(IndexOutOfRange)
  }

  /** `get_out_runners_list`. */
  function OutRunners(team: Team, description: string): (r: Result<seq<OutRunner>>)
    ensures r.Ok? ==> |r.value| == |FindRunners(StripSuffixes(description))|
  {
    var d := StripSuffixes(description);
    ResolveRunners(team, d, FindRunners(d))
  }
}

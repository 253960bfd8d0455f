/** The defensive chain: from a clause such as "grounds out, shortstop X to
    first baseman Y" to the position codes "6", "3".

    Three stages, as in `get_defense_code_order`: pick the fielder phrases
    (`get_defense_predicate_list`), reduce each phrase to its fielder word
    (`get_defense_player_order`), and map each word to its position number
    (`process_defense_predicate_list`). `get_defense_suffix` runs the same
    chain on the runner-out clause that follows the batter's own play.
 */
module Defense {
  import opened Results
  import opened Text
  import opened Scan
  import opened Tables

  // ---------------------------------------------------------------------------
  // get_defense_predicate_list

  /** Phrases that describe a play with no fielder chain. */
  predicate StopPhrase(d: string) {
    Contains(d, "caught stealing") || Contains(d, "on fan interference")
    || Contains(d, "picks off") || Contains(d, "wild pitch by")
  }

  /** The outcome of the `if`/`elif` cascade: the text the final "error by"
      test looks at (some rules narrow it) and the fielder phrases chosen. */
  datatype Chain = Chain(rest: string, phrases: seq<string>)

  /** The `if`/`elif` cascade of `get_defense_predicate_list`. The `[1]` after
      `split(' fielded by ')` raises `IndexError` when the text says "fielded
      by" without the surrounding blanks. */
  function ChainRule(d: string): (r: Result<Chain>)
    ensures StopPhrase(d) ==> r == Ok(Chain(d, []))
    ensures !StopPhrase(d) && Contains(d, "catcher interference by") ==> r == Ok(Chain(d, ["catcher"]))
    ensures r.Err? ==> r.error == IndexOutOfRange && Contains(d, "fielded by") && !Contains(d, " fielded by ")
    ensures !StopPhrase(d) && !Contains(d, "catcher interference by") && Contains(d, "fielded by")
            && !Contains(d, " fielded by ") ==>
              r == Err(IndexOutOfRange)
    // "fielded by": one phrase, the text after the first " fielded by " up to the next one
    ensures !StopPhrase(d) && !Contains(d, "catcher interference by") && Contains(d, " fielded by ") ==>
              r == Ok(Chain(Split(d, " fielded by ")[1], [Split(d, " fielded by ")[1]]))
    // a comma and " to ": the text after the first ", " up to the next one, cut at every " to "
    ensures !StopPhrase(d) && !Contains(d, "catcher interference by") && !Contains(d, "fielded by")
            && Contains(d, ", ") && Contains(d, " to ") ==>
              r == Ok(Chain(Split(d, ", ")[1], Split(Split(d, ", ")[1], " to ")))
    // " to " alone: every piece after the first " to "
    ensures !StopPhrase(d) && !Contains(d, "catcher interference by") && !Contains(d, "fielded by")
            && !Contains(d, ", ") && Contains(d, " to ") ==>
              r == Ok(Chain(d, Split(d, " to ")[1..]))
    // in every case but "fielded by", no phrase holds " to "
    ensures r.Ok? && !StopPhrase(d) && !Contains(d, "catcher interference by") && !Contains(d, "fielded by") ==>
              forall k :: 0 <= k < |r.value.phrases| ==> !Contains(r.value.phrases[k], " to ")
    ensures (!StopPhrase(d) && !Contains(d, "catcher interference by") && !Contains(d, "fielded by")
             && !Contains(d, " to ")) ==> r == Ok(Chain(d, []))
  {
    assert Contains(d, " fielded by ") ==> Contains(d, "fielded by") by {
      if Contains(d, " fielded by ") {
        ContainsSub(d, " fielded by ", "fielded by", 1);
      }
    }
    if StopPhrase(d) then Ok(Chain(d, []))
    else if Contains(d, "catcher interference by") then Ok(Chain(d, ["catcher"]))
    else if Contains(d, "fielded by") then
      var parts := Split(d, " fielded by ");
      if |parts| < 2 then Err(IndexOutOfRange) else Ok(Chain(parts[1], [parts[1]]))
    else if Contains(d, ", ") && Contains(d, " to ") then
      var clause := Split(d, ", ")[1];
      Ok(Chain(clause, Split(clause, " to ")))
    else if Contains(d, " to ") then
      var parts := Split(d, " to ");
      Ok(Chain(d, parts[1..]))
    else Ok(Chain(d, []))
  }

  /** `get_defense_predicate_list`: the cascade, then "error by" in the text the
      cascade left overrides everything with the one phrase after " error by ". */
  function DefensePredicates(d: string): (r: Result<seq<string>>)
    ensures ChainRule(d).Err? ==> r == Err(ChainRule(d).error)
    ensures ChainRule(d).Ok? && !Contains(ChainRule(d).value.rest, "error by") ==>
              r == Ok(ChainRule(d).value.phrases)
    // the override: the text after the first " error by " up to the next one
    ensures ChainRule(d).Ok? && Contains(ChainRule(d).value.rest, " error by ") ==>
              r == Ok([Split(ChainRule(d).value.rest, " error by ")[1]])
    // "error by" without a blank on either side makes the `[1]` raise
    ensures (ChainRule(d).Ok? && Contains(ChainRule(d).value.rest, "error by")
             && !Contains(ChainRule(d).value.rest, " error by ")) ==> r == Err(IndexOutOfRange)
  {
    var chain :- ChainRule(d);
    assert Contains(chain.rest, " error by ") ==> Contains(chain.rest, "error by") by {
      if Contains(chain.rest, " error by ") {
        ContainsSub(chain.rest, " error by ", "error by", 1);
      }
    }
    if Contains(chain.rest, "error by") then
      var parts := Split(chain.rest, " error by ");
      if |parts| < 2 then Err(IndexOutOfRange) else Ok([parts[1]])
    else Ok(chain.phrases)
  }

  // ---------------------------------------------------------------------------
  // get_defense_player_order

  /** Every "deep", then every "shallow", removed, stripping after each removal. */
  function DropDepth(phrase: string): string {
    var a := if Contains(phrase, "deep") then Strip(Replace(phrase, "deep", "")) else phrase;
    if Contains(a, "shallow") then Strip(Replace(a, "shallow", "")) else a
  }

  /** `w.split('-')[0]`: the part of a word before its first '-'. */
  function BeforeHyphen(w: string): (r: string)
    ensures !Contains(r, "-") && |r| <= |w| && r == w[..|r|]
    ensures Contains(w, "-") ==> OccursAt(w, "-", |r|)
    ensures !Contains(w, "-") ==> r == w
  {
    SplitFirst(w, "-");
    Split(w, "-")[0]
  }

  /** Drop every "deep" and then every "shallow", keep the first word, and cut
      it at the first '-'. `split()[0]` raises `IndexError` on blank text. */
  function FielderWord(phrase: string): (r: Result<string>)
    ensures r.Err? <==> AllSpace(DropDepth(phrase))
    ensures r.Err? ==> r.error == IndexOutOfRange
    ensures r.Ok? ==> !Contains(r.value, "-") && forall j :: 0 <= j < |r.value| ==> !IsSpace(r.value[j])
  {
    var words := SplitWs(DropDepth(phrase));
    if |words| == 0 then Err(IndexOutOfRange)
    else
      var w := BeforeHyphen(words[0]);
      assert forall j :: 0 <= j < |w| ==> w[j] == words[0][j];
      Ok(w)
  }

  /** A phrase that is only a depth word ("deep" or "shallow") drops to blank
      text, so it has no first word and `split()[0]` raises. */
  lemma DepthWordOnly(w: string)
    requires w == "deep" || w == "shallow"
    ensures FielderWord(w) == Err(IndexOutOfRange)
  {
    ReplaceWhole(w);
    assert Strip("") == "";
    assert !Contains("", "shallow");
    if w == "shallow" {
      MissingCharAbsent(w, "deep", 1);
    }
    assert DropDepth(w) == "";
  }

  /** A phrase that already starts with a plain word keeps that word. */
  lemma FielderWordPlain(w: string, tail: string)
    requires IsWord(w) && !Contains(w, "-")
    requires tail == [] || IsSpace(tail[0])
    requires !Contains(w + tail, "deep") && !Contains(w + tail, "shallow")
    ensures FielderWord(w + tail) == Ok(w)
  {
    FirstWord(w, tail);
    SplitFirst(w, "-");
  }

  /** "deep" in front of a plain word is dropped: "deep shortstop" gives "shortstop". */
  lemma FielderWordDeep(w: string)
    requires IsWord(w) && !Contains(w, "-")
    requires !Contains(w, "deep") && !Contains(w, "shallow")
    ensures FielderWord("deep " + w) == Ok(w)
  {
    var p := "deep " + w;
    assert OccursAt(p, "deep", 0);
    assert p[4..] == [' '] + w;
    AbsentAfterLead(' ', w, "deep");
    ReplaceAbsent([' '] + w, "deep", "");
    assert Replace(p, "deep", "") == [' '] + w;
    StripLeadBlank(w);
    FirstWord(w, []);
    assert w + [] == w;
  }

  /** A hyphenated word keeps only its part before the first '-': "left-center"
      gives "left". */
  lemma FielderWordHyphen(w: string, x: string, tail: string)
    requires IsWord(w) && !Contains(w, "-")
    requires forall j :: 0 <= j < |x| ==> !IsSpace(x[j])
    requires tail == [] || IsSpace(tail[0])
    requires !Contains(w + "-" + x + tail, "deep") && !Contains(w + "-" + x + tail, "shallow")
    ensures FielderWord(w + "-" + x + tail) == Ok(w)
  {
    var h := w + "-" + x;
    assert forall j :: 0 <= j < |h| ==> !IsSpace(h[j]) by {
      forall j | 0 <= j < |h| ensures !IsSpace(h[j]) {
        if j < |w| { assert h[j] == w[j]; } else if j > |w| { assert h[j] == x[j - |w| - 1]; }
      }
    }
    FirstWord(h, tail);
    LeadCharClear(w, "-");
    ClearFirst(w, "-", x);
    SplitFirst(h, "-");
    assert h[..|w|] == w;
  }

  /** Phrases that are already plain fielder words are kept as they are. */
  lemma FielderWordsPlain(ps: seq<string>)
    requires forall k :: 0 <= k < |ps| ==> IsWord(ps[k]) && !Contains(ps[k], "-")
    requires forall k :: 0 <= k < |ps| ==> !Contains(ps[k], "deep") && !Contains(ps[k], "shallow")
    ensures FielderWords(ps) == Ok(ps)
  {
    forall k | 0 <= k < |ps|
      ensures FielderWord(ps[k]) == Ok(ps[k])
    {
      PlainWord(ps[k]);
    }
    MapAllFixed(FielderWord, ps);
  }

  lemma PlainWord(w: string)
    requires IsWord(w) && !Contains(w, "-") && !Contains(w, "deep") && !Contains(w, "shallow")
    ensures FielderWord(w) == Ok(w)
  {
    assert w + [] == w;
    FielderWordPlain(w, []);
  }

  /** `get_defense_player_order`, raising at the first phrase without a word. */
  function FielderWords(phrases: seq<string>): (r: Result<seq<string>>)
    ensures r.Ok? <==> forall k :: 0 <= k < |phrases| ==> FielderWord(phrases[k]).Ok?
    ensures r.Ok? ==> |r.value| == |phrases|
    ensures r.Ok? ==> forall k :: 0 <= k < |phrases| ==> FielderWord(phrases[k]) == Ok(r.value[k])
    // a phrase that is blank once "deep" and "shallow" are gone raises
    ensures r.Err? <==> exists k :: 0 <= k < |phrases| && AllSpace(DropDepth(phrases[k]))
    ensures r.Err? ==> r.error == IndexOutOfRange
  {
    MapAll(FielderWord, phrases)
  }

  // ---------------------------------------------------------------------------
  // process_defense_predicate_list

  /** The scorecard codes "1" to "10". */
  const PositionCodeStrings: seq<string> := ["1", "2", "3", "4", "5", "6", "7", "8", "9", "10"]

  /** The position numbers run from 1 to 10. */
  lemma PositionNumberRange(w: string)
    requires w in PositionNumber
    ensures 1 <= PositionNumber[w] <= 10
  {
  }

  /** `str(n)` for a position number is the n-th scorecard code. */
  lemma PositionNumberString(n: nat)
    requires 1 <= n <= 10
    ensures NatToString(n) == PositionCodeStrings[n - 1]
  {
    if n == 10 {
      assert NatToString(10) == NatToString(1) + [DigitChar(0)];
    }
  }

  /** `str(POSITION_CODE_DICT[w])`. */
  function PositionCode(w: string): (c: string)
    requires w in PositionNumber
    ensures c in PositionCodeStrings
  {
    PositionNumberRange(w);
    PositionNumberString(PositionNumber[w]);
    NatToString(PositionNumber[w])
  }

  /** A token the chain accepts: a fielder word, or a base a runner was tagged at. */
  predicate Acceptable(w: string) {
    w in PositionNumber || StripBlankOrDot(w) in BaseNames
  }

  /** The fielder words among `words`, in order (the reference for the codes). */
  function Fielders(words: seq<string>): (f: seq<string>)
    ensures |f| <= |words|
    ensures forall k :: 0 <= k < |f| ==> f[k] in PositionNumber
  {
    if |words| == 0 then []
    else if words[0] in PositionNumber then [words[0]] + Fielders(words[1..])
    else Fielders(words[1..])
  }

  /** `process_defense_predicate_list`: fielder words become codes, base names
      are dropped, anything else raises `ValueError` naming it. */
  function PositionCodes(words: seq<string>): (r: Result<seq<string>>)
    ensures r.Ok? <==> forall k :: 0 <= k < |words| ==> Acceptable(words[k])
    ensures r.Err? ==> exists k :: 0 <= k < |words| && FirstUnacceptable(words, k) && r.error == NotAPosition(words[k])
    ensures r.Ok? ==> |r.value| <= |words|
    ensures r.Ok? ==> forall k :: 0 <= k < |r.value| ==> r.value[k] in PositionCodeStrings
  {
    if |words| == 0 then Ok([])
    else
      var w := words[0];
      if w in PositionNumber then
        AcceptableTail(words);
        var rest :- PositionCodes(words[1..]);
        Ok([PositionCode(w)] + rest)
      else if StripBlankOrDot(w) in BaseNames then
        AcceptableTail(words);
        PositionCodes(words[1..])
      else
        assert FirstUnacceptable(words, 0);
        Err(NotAPosition(w))
  }

  /** Past an acceptable first word, the words are all acceptable exactly
      when the rest are, and the first unacceptable one of the rest is the
      first of all. */
  lemma AcceptableTail(words: seq<string>)
    requires |words| > 0 && Acceptable(words[0])
    ensures (forall k :: 0 <= k < |words| ==> Acceptable(words[k])) <==>
            (forall k :: 0 <= k < |words[1..]| ==> Acceptable(words[1..][k]))
    ensures forall k: nat :: k < |words[1..]| && FirstUnacceptable(words[1..], k) ==> FirstUnacceptable(words, k + 1)
  {
    var rest := words[1..];
    if forall k :: 0 <= k < |rest| ==> Acceptable(rest[k]) {
      forall k | 1 <= k < |words| ensures Acceptable(words[k]) {
        assert words[k] == rest[k - 1];
      }
    }
    forall k: nat | k < |rest| && FirstUnacceptable(rest, k) ensures FirstUnacceptable(words, k + 1) {
      forall j | 1 <= j < k + 1 ensures Acceptable(words[j]) {
        assert words[j] == rest[j - 1];
      }
    }
  }

  /** `words[k]` is the first token the chain rejects. */
  predicate FirstUnacceptable(words: seq<string>, k: nat)
    requires k < |words|
  {
    !Acceptable(words[k]) && forall j :: 0 <= j < k ==> Acceptable(words[j])
  }

  /** The code of every word of a list of fielder words, in order. */
  function CodesOf(fielders: seq<string>): (codes: seq<string>)
    requires forall k :: 0 <= k < |fielders| ==> fielders[k] in PositionNumber
    ensures |codes| == |fielders|
  {
    seq(|fielders|, k requires 0 <= k < |fielders| => PositionCode(fielders[k]))
  }

  /** The codes are exactly those of the fielder words, in order: the base
      names are the only tokens that disappear. */
  lemma {:induction false} PositionCodesAreFielderCodes(words: seq<string>)
    requires forall k :: 0 <= k < |words| ==> Acceptable(words[k])
    ensures PositionCodes(words) == Ok(CodesOf(Fielders(words)))
  {
    if |words| > 0 {
      AcceptableTail(words);
      PositionCodesAreFielderCodes(words[1..]);
      if words[0] in PositionNumber {
        FielderHeadCodes(words);
      } else {
        assert PositionCodes(words) == PositionCodes(words[1..]);
      }
    }
  }

  /** A leading fielder word contributes its code ahead of the rest's. */
  lemma FielderHeadCodes(words: seq<string>)
    requires |words| > 0 && words[0] in PositionNumber
    requires PositionCodes(words[1..]) == Ok(CodesOf(Fielders(words[1..])))
    ensures PositionCodes(words) == Ok(CodesOf(Fielders(words)))
  {
    var rest := words[1..];
    assert PositionCodes(words) == Ok([PositionCode(words[0])] + PositionCodes(rest).value);
    assert Fielders(words) == [words[0]] + Fielders(rest);
    CodesOfCons(words[0], Fielders(rest));
  }

  lemma CodesOfCons(w: string, fielders: seq<string>)
    requires w in PositionNumber
    requires forall k :: 0 <= k < |fielders| ==> fielders[k] in PositionNumber
    ensures forall k :: 0 <= k < |[w] + fielders| ==> ([w] + fielders)[k] in PositionNumber
    ensures CodesOf([w] + fielders) == [PositionCode(w)] + CodesOf(fielders)
  {
    CodesOfConcat([w], fielders);
  }

  lemma {:induction false} FieldersConcat(a: seq<string>, b: seq<string>)
    ensures Fielders(a + b) == Fielders(a) + Fielders(b)
  {
    if |a| == 0 {
      assert a + b == b;
    } else {
      assert (a + b)[1..] == a[1..] + b;
      FieldersConcat(a[1..], b);
    }
  }

  lemma CodesOfConcat(a: seq<string>, b: seq<string>)
    requires forall k :: 0 <= k < |a| ==> a[k] in PositionNumber
    requires forall k :: 0 <= k < |b| ==> b[k] in PositionNumber
    ensures forall k :: 0 <= k < |a + b| ==> (a + b)[k] in PositionNumber
    ensures CodesOf(a + b) == CodesOf(a) + CodesOf(b)
  {
    assert forall k :: |a| <= k < |a + b| ==> (a + b)[k] == b[k - |a|];
  }

  /** The codes of a concatenation are the concatenated codes. */
  lemma PositionCodesConcat(a: seq<string>, b: seq<string>)
    requires PositionCodes(a).Ok? && PositionCodes(b).Ok?
    ensures PositionCodes(a + b) == Ok(PositionCodes(a).value + PositionCodes(b).value)
  {
    assert forall k :: 0 <= k < |a + b| ==> Acceptable((a + b)[k]) by {
      forall k | 0 <= k < |a + b|
        ensures Acceptable((a + b)[k])
      {
        if k >= |a| {
          assert (a + b)[k] == b[k - |a|];
        }
      }
    }
    PositionCodesAreFielderCodes(a);
    PositionCodesAreFielderCodes(b);
    PositionCodesAreFielderCodes(a + b);
    FieldersConcat(a, b);
    CodesOfConcat(Fielders(a), Fielders(b));
  }

  /** A tagging-out base name contributes nothing, whatever blanks and periods
      surround it. */
  lemma BaseNameDropped(w: string, rest: seq<string>)
    requires w !in PositionNumber && StripBlankOrDot(w) in BaseNames
    ensures PositionCodes([w] + rest) == PositionCodes(rest)
  {
    assert ([w] + rest)[1..] == rest;
  }

  // ---------------------------------------------------------------------------
  // get_defense_code_order

  /** `get_defense_code_order`: the three stages in sequence. */
  function CodeOrder(d: string): (r: Result<seq<string>>)
    ensures r.Ok? ==> DefensePredicates(d).Ok? && |r.value| <= |DefensePredicates(d).value|
    ensures DefensePredicates(d).Err? ==> r == Err(DefensePredicates(d).error)
    // a blank fielder phrase raises before any position is looked up
    ensures DefensePredicates(d).Ok? &&
            (exists k :: 0 <= k < |DefensePredicates(d).value| && AllSpace(DropDepth(DefensePredicates(d).value[k])))
            ==> r == Err(IndexOutOfRange)
    ensures r.Ok? ==> forall k :: 0 <= k < |r.value| ==> r.value[k] in PositionCodeStrings
  {
    var phrases :- DefensePredicates(d);
    var words :- FielderWords(phrases);
    PositionCodes(words)
  }

  // ---------------------------------------------------------------------------
  // get_defense_suffix

  /** `[\w\s]`. */
  predicate IsWordOrSpace(c: char) {
    IsWordChar(c) || IsSpace(c)
  }

  /** `s[j..k + 2]` reads `[1-3,h][snro][tdm][\w\s]*, `, the comma at `k`. */
  predicate ClauseShape(s: string, j: nat, k: nat) {
    j + 3 <= k && k + 2 <= |s|
    && s[j] in "123,h" && s[j + 1] in "snro" && s[j + 2] in "tdm"
    && (forall m :: j + 3 <= m < k ==> IsWordOrSpace(s[m]))
    && s[k] == ',' && s[k + 1] == ' '
  }

  /** `[1-3,h][snro][tdm][e]?[\w\s]*, ` anchored at `j`. The optional `e` is a
      word character, so it never changes where the greedy run stops, and the
      run stops before the first character outside `[\w\s]`, which must be the
      comma. */
  function BaseClauseAt(s: string, j: nat): (r: Option<nat>)
    ensures r.Some? ==> j + 5 <= r.value && ClauseShape(s, j, r.value - 2)
    ensures forall k: nat :: ClauseShape(s, j, k) ==> r == Some(k + 2)
  {
    assert forall k: nat :: ClauseShape(s, j, k) ==> RunEnd(s, j + 3, IsWordOrSpace) == k by {
      forall k: nat | ClauseShape(s, j, k)
        ensures RunEnd(s, j + 3, IsWordOrSpace) == k
      {
        RunEndAt(s, j + 3, k, IsWordOrSpace);
      }
    }
    if j + 3 <= |s| && s[j] in "123,h" && s[j + 1] in "snro" && s[j + 2] in "tdm" then
      var k := RunEnd(s, j + 3, IsWordOrSpace);
      if k + 2 <= |s| && s[k] == ',' && s[k + 1] == ' ' then Some(k + 2) else None
    else None
  }

  /** The alternatives of the out-phrase group, tried in order, each followed
      directly (with no blank) by the base clause. */
  function OutClauseFrom(s: string, i: nat, phrases: seq<string>): (r: Option<nat>)
    ensures r.Some? <==> exists k :: 0 <= k < |phrases| && PhraseClauseAt(s, i, phrases[k])
  {
    if |phrases| == 0 then None
    else if PhraseClauseAt(s, i, phrases[0]) then BaseClauseAt(s, i + |phrases[0]|)
    else
      var r := OutClauseFrom(s, i, phrases[1..]);
      assert forall k :: 1 <= k < |phrases| ==> phrases[k] == phrases[1..][k - 1];
      r
  }

  /** One alternative of the out-phrase group matches at `i`. */
  predicate PhraseClauseAt(s: string, i: nat, phrase: string) {
    OccursAt(s, phrase, i) && BaseClauseAt(s, i + |phrase|).Some?
  }

  function OutClauseAt(s: string, i: nat): Option<nat> {
    OutClauseFrom(s, i, OutPhrases)
  }

  /** The pattern of `get_defense_suffix`. */
  const OutClause: Matcher := (s, i) => OutClauseAt(s, i)

  /** `get_defense_suffix`: the chain of the text from the first runner-out
      clause on, in parentheses; empty when there is none. */
  function DefenseSuffix(s: string): (r: Result<string>)
    ensures Search(s, OutClause).None? ==> r == Ok("")
    ensures Search(s, OutClause).Some? ==>
              match CodeOrder(s[Search(s, OutClause).value.start..])
              case Err(e) => r == Err(e)
              case Ok(codes) => r == Ok(" (" + Join(codes, "-") + ")")
  {
    match Search(s, OutClause)
    case None => Ok("")
    case Some(span) =>
      var codes :- CodeOrder(s[span.start..]);
      Ok(" (" + Join(codes, "-") + ")")
  }

  /** As written, the pattern needs the base token to follow the out phrase
      with no blank, so a text in which every out phrase is followed by a blank
      ("out at 2nd, ...") gets no suffix. */
  lemma SpacedPhrasesNoSuffix(s: string)
    requires forall i: nat, k :: (0 <= k < |OutPhrases| && OccursAt(s, OutPhrases[k], i)
               && i + |OutPhrases[k]| < |s|) ==> s[i + |OutPhrases[k]|] == ' '
    ensures DefenseSuffix(s) == Ok("")
  {
    forall i: nat | i <= |s|
      ensures OutClause(s, i).None?
    {
      forall k | 0 <= k < |OutPhrases|
        ensures !PhraseClauseAt(s, i, OutPhrases[k])
      {
        if OccursAt(s, OutPhrases[k], i) && i + |OutPhrases[k]| < |s| {
          assert s[i + |OutPhrases[k]|] == ' ';
        }
      }
    }
    assert Search(s, OutClause).None?;
  }
}

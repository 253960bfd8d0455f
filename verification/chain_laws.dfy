/** What `get_defense_code_order` reads off the usual shapes of a fielding
    chain: "lead, p1 to p2 to ... to pn" and "p0 to p1 to ... to pn". */
module ChainLaws {
  import opened Results
  import opened Text
  import opened Tables
  import opened Scan
  import opened Defense

  /** With no ", " on either side, `d.split(', ')` undoes the one comma. */
  lemma CommaSplit(lead: string, j: string)
    requires !Contains(lead, ", ") && !Contains(j, ", ")
    ensures Split(lead + ", " + j, ", ") == [lead, j]
  {
    LeadCharClear(lead, ", ");
    SplitAfterClear(lead, ", ", j);
    SplitFirst(j, ", ");
  }

  /** The two splits rule 4 makes, on "lead, p1 to ... to pn". */
  lemma CommaSplits(lead: string, ps: seq<string>)
    requires |ps| >= 2
    requires !Contains(lead, ", ") && !Contains(Join(ps, " to "), ", ")
    requires forall k :: 0 <= k < |ps| - 1 ==> ClearBefore(ps[k], " to ")
    requires !Contains(ps[|ps| - 1], " to ")
    ensures Split(lead + ", " + Join(ps, " to "), ", ") == [lead, Join(ps, " to ")]
    ensures Split(Join(ps, " to "), " to ") == ps
    ensures Contains(lead + ", " + Join(ps, " to "), " to ")
  {
    CommaSplit(lead, Join(ps, " to "));
    SplitJoin(ps, " to ");
    JoinHoldsSep(lead + ", ", ps, " to ");
  }

  /** Rule 4, read off its two splits. */
  lemma CommaRule(d: string, lead: string, j: string, ps: seq<string>)
    requires Split(d, ", ") == [lead, j] && Split(j, " to ") == ps && Contains(d, " to ")
    requires !StopPhrase(d) && !Contains(d, "catcher interference by") && !Contains(d, "fielded by")
    ensures ChainRule(d) == Ok(Chain(j, ps))
  {
  }

  /** Rule 4 undone: "lead, p1 to p2 to ... to pn" names exactly the phrases
      p1 .. pn, as in "grounds out, shortstop to second to first". */
  lemma CommaToChain(d: string, lead: string, ps: seq<string>)
    requires d == lead + ", " + Join(ps, " to ")
    requires |ps| >= 2
    requires !Contains(lead, ", ") && !Contains(Join(ps, " to "), ", ")
    requires forall k :: 0 <= k < |ps| - 1 ==> ClearBefore(ps[k], " to ")
    requires !Contains(ps[|ps| - 1], " to ")
    requires !StopPhrase(d) && !Contains(d, "catcher interference by") && !Contains(d, "fielded by")
    ensures ChainRule(d) == Ok(Chain(Join(ps, " to "), ps))
  {
    CommaSplits(lead, ps);
    CommaRule(d, lead, Join(ps, " to "), ps);
  }

  /** ... and, with no "error by" among them, `get_defense_predicate_list`
      returns exactly those phrases. */
  lemma CommaToPredicates(d: string, lead: string, ps: seq<string>)
    requires d == lead + ", " + Join(ps, " to ")
    requires |ps| >= 2
    requires !Contains(lead, ", ") && !Contains(Join(ps, " to "), ", ")
    requires forall k :: 0 <= k < |ps| - 1 ==> ClearBefore(ps[k], " to ")
    requires !Contains(ps[|ps| - 1], " to ")
    requires !StopPhrase(d) && !Contains(d, "catcher interference by") && !Contains(d, "fielded by")
    requires !Contains(Join(ps, " to "), "error by")
    ensures DefensePredicates(d) == Ok(ps)
  {
    CommaToChain(d, lead, ps);
    QuietRest(d, Join(ps, " to "), ps);
  }

  /** A chain whose text holds no "error by" keeps its phrases. */
  lemma QuietRest(d: string, rest: string, ps: seq<string>)
    requires ChainRule(d) == Ok(Chain(rest, ps)) && !Contains(rest, "error by")
    ensures DefensePredicates(d) == Ok(ps)
  {
  }

  /** Rule 5, read off its split. */
  lemma ToRule(d: string, ps: seq<string>)
    requires Split(d, " to ") == ps && Contains(d, " to ") && !Contains(d, ", ")
    requires !StopPhrase(d) && !Contains(d, "catcher interference by") && !Contains(d, "fielded by")
    ensures ChainRule(d) == Ok(Chain(d, ps[1..]))
  {
  }

  /** Rule 5 undone: with no comma, "p0 to p1 to ... to pn" names p1 .. pn. */
  lemma ToChain(d: string, ps: seq<string>)
    requires d == Join(ps, " to ")
    requires |ps| >= 2
    requires forall k :: 0 <= k < |ps| - 1 ==> ClearBefore(ps[k], " to ")
    requires !Contains(ps[|ps| - 1], " to ")
    requires !Contains(d, ", ")
    requires !StopPhrase(d) && !Contains(d, "catcher interference by") && !Contains(d, "fielded by")
    ensures ChainRule(d) == Ok(Chain(d, ps[1..]))
  {
    SplitJoin(ps, " to ");
    JoinHoldsSep("", ps, " to ");
    assert "" + d == d;
    ToRule(d, ps);
  }

  /** Words that are all fielder words are all kept. */
  lemma {:induction false} FieldersAll(ws: seq<string>)
    requires forall k :: 0 <= k < |ws| ==> ws[k] in PositionNumber
    ensures Fielders(ws) == ws
  {
    if |ws| > 0 {
      FieldersAll(ws[1..]);
      assert [ws[0]] + ws[1..] == ws;
    }
  }

  /** A phrase that stands for itself in the chain: a plain fielder word. */
  predicate PlainFielder(w: string) {
    IsWord(w) && w in PositionNumber && !Contains(w, "-")
    && !Contains(w, "deep") && !Contains(w, "shallow")
  }

  /** Plain fielder words pass through `get_defense_player_order` and
      `process_defense_predicate_list` as their own codes. */
  lemma PlainCodes(ps: seq<string>)
    requires forall k :: 0 <= k < |ps| ==> PlainFielder(ps[k])
    ensures forall k :: 0 <= k < |ps| ==> ps[k] in PositionNumber
    ensures FielderWords(ps) == Ok(ps)
    ensures PositionCodes(ps) == Ok(CodesOf(ps))
  {
    assert forall k :: 0 <= k < |ps| ==> ps[k] in PositionNumber && Acceptable(ps[k]);
    FielderWordsPlain(ps);
    PositionCodesAreFielderCodes(ps);
    FieldersAll(ps);
  }

  /** Words hold no blank, so " to " splits their join back apart. */
  lemma WordsClear(ps: seq<string>)
    requires |ps| > 0 && forall k :: 0 <= k < |ps| ==> IsWord(ps[k])
    ensures forall k :: 0 <= k < |ps| - 1 ==> ClearBefore(ps[k], " to ")
    ensures !Contains(ps[|ps| - 1], " to ")
  {
    forall k | 0 <= k < |ps| - 1
      ensures ClearBefore(ps[k], " to ")
    {
      MissingLeadClear(ps[k], " to ");
    }
    MissingCharAbsent(ps[|ps| - 1], " to ", 0);
  }

  /** The whole pipeline on "lead, p1 to ... to pn" with plain fielder words:
      the codes of p1 .. pn, in order. */
  lemma CommaChainCodes(d: string, lead: string, ps: seq<string>)
    requires d == lead + ", " + Join(ps, " to ")
    requires |ps| >= 2 && forall k :: 0 <= k < |ps| ==> PlainFielder(ps[k])
    requires !Contains(lead, ", ") && !Contains(Join(ps, " to "), ", ")
    requires !Contains(Join(ps, " to "), "error by")
    requires !StopPhrase(d) && !Contains(d, "catcher interference by") && !Contains(d, "fielded by")
    ensures forall k :: 0 <= k < |ps| ==> ps[k] in PositionNumber
    ensures CodeOrder(d) == Ok(CodesOf(ps))
  {
    WordsClear(ps);
    CommaToPredicates(d, lead, ps);
    PlainCodes(ps);
    CodeOrderOf(d, ps, ps);
  }

  /** A runner-out clause at the very start, "out at2nd, p1 to ... to pn" (the
      base token glued to "out at", as the pattern wants), gives the suffix
      " (c1-...-cn)" of the plain fielders' codes. */
  lemma OutAtSuffix(s: string, base: string, ps: seq<string>)
    requires s == "out at" + base + ", " + Join(ps, " to ")
    requires |base| >= 3 && forall m :: 0 <= m < |base| ==> IsWordChar(base[m])
    requires base[0] in "123h" && base[1] in "snro" && base[2] in "tdm"
    requires |ps| >= 2 && forall k :: 0 <= k < |ps| ==> PlainFielder(ps[k])
    requires !Contains(Join(ps, " to "), ", ") && !Contains(Join(ps, " to "), "error by")
    requires !StopPhrase(s) && !Contains(s, "catcher interference by") && !Contains(s, "fielded by")
    ensures forall k :: 0 <= k < |ps| ==> ps[k] in PositionNumber
    ensures DefenseSuffix(s) == Ok(" (" + Join(CodesOf(ps), "-") + ")")
  {
    var lead := "out at" + base;
    OutClauseAtStart(s, base, Join(ps, " to "));
    OutAtLeadClear(base, lead);
    SuffixFromStart(s, lead, ps);
  }

  /** A runner-out clause at the start of "lead, p1 to ... to pn" makes the
      whole text the suffix's chain. */
  lemma SuffixFromStart(s: string, lead: string, ps: seq<string>)
    requires Search(s, OutClause).Some? && Search(s, OutClause).value.start == 0
    requires s == lead + ", " + Join(ps, " to ")
    requires |ps| >= 2 && forall k :: 0 <= k < |ps| ==> PlainFielder(ps[k])
    requires !Contains(lead, ", ") && !Contains(Join(ps, " to "), ", ")
    requires !Contains(Join(ps, " to "), "error by")
    requires !StopPhrase(s) && !Contains(s, "catcher interference by") && !Contains(s, "fielded by")
    ensures forall k :: 0 <= k < |ps| ==> ps[k] in PositionNumber
    ensures DefenseSuffix(s) == Ok(" (" + Join(CodesOf(ps), "-") + ")")
  {
    assert s[0..] == s;
    CommaChainCodes(s, lead, ps);
  }

  /** "out at" and a word-character base token hold no comma. */
  lemma OutAtLeadClear(base: string, lead: string)
    requires forall m :: 0 <= m < |base| ==> IsWordChar(base[m])
    requires lead == "out at" + base
    ensures !Contains(lead, ", ")
  {
    forall m | 0 <= m < |lead|
      ensures lead[m] != ','
    {
      if m >= 6 {
        assert lead[m] == base[m - 6];
      }
    }
    MissingCharAbsent(lead, ", ", 0);
  }

  /** "out at" followed directly by a base token and ", " is a runner-out
      clause, and the search finds it at the start. */
  lemma OutClauseAtStart(s: string, base: string, tail: string)
    requires |base| >= 3 && forall m :: 0 <= m < |base| ==> IsWordChar(base[m])
    requires base[0] in "123h" && base[1] in "snro" && base[2] in "tdm"
    requires s == "out at" + base + ", " + tail
    ensures Search(s, OutClause).Some? && Search(s, OutClause).value.start == 0
  {
    var k := 6 + |base|;
    assert s[..6] == "out at";
    assert forall m :: 9 <= m < k ==> s[m] == base[m - 6];
    assert s[k] == ',' && s[k + 1] == ' ';
    assert ClauseShape(s, 6, k);
    assert PhraseClauseAt(s, 0, OutPhrases[0]);
    SearchFirst(s, OutClause, 0);
  }

  /** `get_defense_code_order` once the phrases and their words are known. */
  lemma CodeOrderOf(d: string, phrases: seq<string>, words: seq<string>)
    requires DefensePredicates(d) == Ok(phrases) && FielderWords(phrases) == Ok(words)
    ensures CodeOrder(d) == PositionCodes(words)
  {
  }

  /** The fielders of "grounds out, shortstop to second to first" read 6-4-3;
      `CommaChainCodes` says the whole text does. */
  lemma SixFourThree()
    ensures CodesOf(["shortstop", "second", "first"]) == ["6", "4", "3"]
  {
    PositionNumberString(6);
    PositionNumberString(4);
    PositionNumberString(3);
  }
}

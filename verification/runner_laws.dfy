/** The runner-out sentence "First Last doubled off base", as text and in
    positions. */
module RunnerText {
  import opened Text
  import opened Runners

  /** A plain name token: a capital, then at least one name character. */
  predicate NameToken(t: string) {
    |t| >= 2 && IsUpper(t[0]) && forall j :: 0 <= j < |t| ==> IsNameChar(t[j])
  }

  /** The text "n1 n2 doubled off b", laid out. */
  predicate DoubledOffText(s: string, n1: string, n2: string, b: string) {
    NameToken(n1) && NameToken(n2) && |b| > 0 && (forall j :: 0 <= j < |b| ==> IsWordChar(b[j]))
    && s == n1 + " " + n2 + " doubled off " + b
  }

  /** `s[..n]` reads "First Last": a name token ending at `a`, one blank, and
      a second name token. */
  predicate TwoTokens(s: string, a: nat, n: nat) {
    2 <= a && a + 3 <= n < |s| && IsUpper(s[0]) && s[a] == ' ' && IsUpper(s[a + 1])
    && (forall j :: 0 <= j < a ==> IsNameChar(s[j]))
    && (forall j :: a + 1 <= j < n ==> IsNameChar(s[j]))
  }

  /** `s[n..]` reads " doubled off " and then a word that ends the text. */
  predicate DoubledOffAt(s: string, n: nat) {
    n + 13 < |s| && s[n..n + 13] == " doubled off " && forall j :: n + 13 <= j < |s| ==> IsWordChar(s[j])
  }
}

/** What `get_out_runners_list` reads off the usual runner-out sentence
    "First Last doubled off base": one hit, the whole two-token name and the
    captured base, recorded one base further along. */
module RunnerLaws {
  import opened Results
  import opened Text
  import opened Scan
  import opened Tables
  import opened Names
  import opened Roster
  import opened Runners
  import opened RunnerText

  /** The layout of "n1 n2 doubled off b" in positions, with the name and
      the base as slices. */
  lemma DoubledOffLayout(s: string, n1: string, n2: string, b: string)
    requires DoubledOffText(s, n1, n2, b)
    ensures TwoTokens(s, |n1|, |n1| + 1 + |n2|) && DoubledOffAt(s, |n1| + 1 + |n2|)
    ensures s[..|n1| + 1 + |n2|] == n1 + " " + n2 && s[|n1| + 1 + |n2| + 13..] == b
  {
    var a := |n1|;
    var n := a + 1 + |n2|;
    assert s == (n1 + " " + n2) + " doubled off " + b;
    assert forall j :: 0 <= j < a ==> s[j] == n1[j];
    assert forall j :: a + 1 <= j < n ==> s[j] == n2[j - a - 1];
    assert s[n..n + 13] == " doubled off ";
    assert forall j :: n + 13 <= j < |s| ==> s[j] == b[j - n - 13];
  }

  /** The characters of " doubled off " the matchers look at. */
  lemma DoubledOffChars(s: string, n: nat)
    requires n + 13 <= |s| && s[n..n + 13] == " doubled off "
    ensures s[n] == ' ' && s[n + 1] == 'd' && s[n + 8] == ' ' && s[n + 9] == 'o' && s[n + 12] == ' '
    ensures forall j :: n + 1 <= j < n + 8 ==> IsNameChar(s[j])
    ensures s[n..n + 12] == " doubled off" && s[n + 1..n + 12] == "doubled off"
  {
    var w := s[n..n + 13];
    assert forall j :: n <= j < n + 13 ==> s[j] == w[j - n];
    assert w[..12] == " doubled off" && w[1..12] == "doubled off";
  }

  /** A whole token followed by exactly one blank. */
  lemma TokenThenBlank(s: string, i: nat, e: nat, lead: char -> bool)
    requires TokenShape(s, i, e, lead) && SpaceRun(s, e, e + 1)
    ensures TokenAt(s, i, lead) == Some(e) && TokenBlanksAt(s, i, lead) == Some(e + 1)
  {
  }

  /** The two name tokens of "First Last": the first with the blank after it. */
  lemma NameTokens(s: string, a: nat, n: nat)
    requires TwoTokens(s, a, n) && SpaceRun(s, n, n + 1)
    ensures TokenBlanksAt(s, 0, IsUpper) == Some(a + 1) && TokenAt(s, a + 1, IsUpper) == Some(n)
  {
    TokenThenBlank(s, 0, a, IsUpper);
    TokenThenBlank(s, a + 1, n, IsUpper);
  }

  /** After the name: one blank, then "doubled" as a lower-case middle token
      with one blank after it, and "off", which no last token can start. */
  lemma DoubledToken(s: string, n: nat)
    requires n + 13 <= |s| && s[n..n + 13] == " doubled off "
    ensures SpaceRun(s, n, n + 1) && !IsUpper(s[n + 1]) && !IsUpper(s[n + 9])
    ensures TokenBlanksAt(s, n + 1, IsMiddleLead) == Some(n + 9)
  {
    DoubledOffChars(s, n);
    TokenThenBlank(s, n + 1, n + 8, IsMiddleLead);
  }

  /** Two optional tokens, then no last token: no name. */
  lemma NameTwoExtraMisses(s: string, i: nat, j: nat, k: nat, l: nat)
    requires TokenBlanksAt(s, i, IsUpper) == Some(j)
    requires TokenBlanksAt(s, j, IsMiddleLead) == Some(k) && TokenBlanksAt(s, k, IsMiddleLead) == Some(l)
    requires l < |s| && !IsUpper(s[l])
    ensures NameAt(s, i, 2).None?
  {
    assert MiddleThenLast(s, l, 0).None?;
    assert MiddleThenLast(s, k, 1).None?;
  }

  /** One optional token, then no last token: no name. */
  lemma NameOneExtraMisses(s: string, i: nat, j: nat, k: nat)
    requires TokenBlanksAt(s, i, IsUpper) == Some(j) && TokenBlanksAt(s, j, IsMiddleLead) == Some(k)
    requires k < |s| && !IsUpper(s[k])
    ensures NameAt(s, i, 1).None?
  {
    assert MiddleThenLast(s, k, 0).None?;
  }

  /** No optional token: the first token, a blank and the last token. */
  lemma NameNoExtra(s: string, i: nat, j: nat, n: nat)
    requires TokenBlanksAt(s, i, IsUpper) == Some(j) && TokenAt(s, j, IsUpper) == Some(n)
    ensures NameAt(s, i, 0) == Some(n)
  {
    assert MiddleThenLast(s, j, 0) == Some(n);
  }

  /** The name group, token by token: a first token with its blanks up to
      `j` and a last token from `j` to `n`; read as optional tokens, one from
      `j` to `k` and one from `k` to `l`, with no capital at `k` or at `l` to
      start a last token. With one or two optional tokens the group fails;
      with none it ends at `n`. */
  lemma NameByTokens(s: string, j: nat, n: nat, k: nat, l: nat)
    requires TokenBlanksAt(s, 0, IsUpper) == Some(j) && TokenAt(s, j, IsUpper) == Some(n)
    requires TokenBlanksAt(s, j, IsMiddleLead) == Some(k) && TokenBlanksAt(s, k, IsMiddleLead) == Some(l)
    requires l < |s| && !IsUpper(s[k]) && !IsUpper(s[l])
    ensures NameAt(s, 0, 2).None? && NameAt(s, 0, 1).None? && NameAt(s, 0, 0) == Some(n)
  {
    NameTwoExtraMisses(s, 0, j, k, l);
    NameOneExtraMisses(s, 0, j, k);
    NameNoExtra(s, 0, j, n);
  }

  /** After the name: the blank, "doubled off" (the last alternative, every
      earlier one starts with another letter), and the base word. */
  lemma DoubledOffTail(s: string, n: nat)
    requires DoubledOffAt(s, n)
    ensures TailAt(s, n) == Some(Span(n + 13, |s|))
  {
    DoubledOffChars(s, n);
    assert SpaceRun(s, n, n + 1);
    forall k | 0 <= k < 8
      ensures PhraseBaseAt(s, n + 1, OutPhrases[k]).None?
    {
      MismatchAt(s, OutPhrases[k], n + 1, 0);
    }
    assert BaseShape(s, n + 12, n + 13, |s|);
    assert PhraseBaseAt(s, n + 1, OutPhrases[8]) == Some(Span(n + 13, |s|));
  }

  /** Only the last choice, no optional token, finds a name, so it gives the hit. */
  lemma LastChoiceHit(s: string, n: nat, base: Span)
    requires NameAt(s, 0, 2).None? && NameAt(s, 0, 1).None?
    requires NameAt(s, 0, 0) == Some(n) && TailAt(s, n) == Some(base)
    ensures RunnerAt(s, 0) == Some(RunnerMatch(Span(0, n), base))
  {
    assert ChoiceHits(s, 0, MiddleChoices[3]);
  }

  /** No hit starts at the end of the text. */
  lemma NoHitAtEnd(s: string)
    ensures RunnerAt(s, |s|).None?
  {
  }

  /** Where the hit is, the matcher `findall` runs matches up to its end. */
  lemma PatternAtHit(s: string, i: nat, m: RunnerMatch)
    requires RunnerAt(s, i) == Some(m)
    ensures RunnerPattern(s, i) == Some(m.base.end)
  {
    assert RunnerEnd(s, i) == Some(m.base.end);
  }

  /** Where there is no hit, the matcher does not match. */
  lemma PatternMiss(s: string, i: nat)
    requires RunnerAt(s, i).None?
    ensures RunnerPattern(s, i).None?
  {
    assert RunnerEnd(s, i).None?;
  }

  /** A hit that runs to the end of the text is the only one `findall` reports. */
  lemma WholeHit(s: string, m: RunnerMatch)
    requires RunnerAt(s, 0) == Some(m) && m.base.end == |s|
    ensures FindRunners(s) == [m]
  {
    NoHitAtEnd(s);
    PatternAtHit(s, 0, m);
    PatternMiss(s, |s|);
    FindAllWhole(s, RunnerPattern);
  }

  /** The hit at the start from the tokens: the name group ends after the
      last token at `n` (see `NameByTokens`), and the tail after it. */
  lemma HitByTokens(s: string, j: nat, n: nat, k: nat, l: nat, base: Span)
    requires TokenBlanksAt(s, 0, IsUpper) == Some(j) && TokenAt(s, j, IsUpper) == Some(n)
    requires TokenBlanksAt(s, j, IsMiddleLead) == Some(k) && TokenBlanksAt(s, k, IsMiddleLead) == Some(l)
    requires l < |s| && !IsUpper(s[k]) && !IsUpper(s[l])
    requires TailAt(s, n) == Some(base)
    ensures RunnerAt(s, 0) == Some(RunnerMatch(Span(0, n), base))
  {
    NameByTokens(s, j, n, k, l);
    LastChoiceHit(s, n, base);
  }

  /** A first token read as a middle token: the same end, and one blank after it. */
  lemma MiddleAfterName(s: string, j: nat, n: nat)
    requires TokenAt(s, j, IsUpper) == Some(n) && SpaceRun(s, n, n + 1)
    ensures TokenBlanksAt(s, j, IsMiddleLead) == Some(n + 1)
  {
    assert TokenShape(s, j, n, IsUpper);
    TokenThenBlank(s, j, n, IsMiddleLead);
  }

  /** Read as optional tokens, the last name and "doubled" both take a blank
      after them, and neither "doubled" nor "off" starts with a capital. The
      positions are named through the matchers themselves. */
  lemma DoubledOffAfterName(s: string, j: nat, n: nat)
    requires TokenAt(s, j, IsUpper) == Some(n) && DoubledOffAt(s, n)
    ensures TokenBlanksAt(s, j, IsMiddleLead).Some?
    ensures var k := TokenBlanksAt(s, j, IsMiddleLead).value;
            k < |s| && !IsUpper(s[k]) && TokenBlanksAt(s, k, IsMiddleLead).Some?
            && TokenBlanksAt(s, k, IsMiddleLead).value < |s|
            && !IsUpper(s[TokenBlanksAt(s, k, IsMiddleLead).value])
  {
    DoubledToken(s, n);
    MiddleAfterName(s, j, n);
  }

  /** The runner pattern at the start of "First Last doubled off b". */
  lemma DoubledOffMatch(s: string, j: nat, n: nat)
    requires TokenBlanksAt(s, 0, IsUpper) == Some(j) && TokenAt(s, j, IsUpper) == Some(n)
    requires DoubledOffAt(s, n)
    ensures RunnerAt(s, 0) == Some(RunnerMatch(Span(0, n), Span(n + 13, |s|)))
  {
    DoubledOffAfterName(s, j, n);
    DoubledOffTail(s, n);
    var k := TokenBlanksAt(s, j, IsMiddleLead).value;
    var l := TokenBlanksAt(s, k, IsMiddleLead).value;
    HitByTokens(s, j, n, k, l, Span(n + 13, |s|));
  }

  /** `findall` finds the name and the base of "First Last doubled off b". */
  lemma DoubledOffFound(s: string, j: nat, n: nat)
    requires TokenBlanksAt(s, 0, IsUpper) == Some(j) && TokenAt(s, j, IsUpper) == Some(n)
    requires DoubledOffAt(s, n)
    ensures FindRunners(s) == [RunnerMatch(Span(0, n), Span(n + 13, |s|))]
  {
    DoubledOffMatch(s, j, n);
    WholeHit(s, RunnerMatch(Span(0, n), Span(n + 13, |s|)));
  }

  /** A hit whose name is doubled off, with its name and base text. */
  predicate DoubledOffParts(d: string, m: RunnerMatch, name: string, base: string) {
    InOrder(m, d) && NameOf(d, m) == name && BaseOf(d, m) == base && DoubledOff(d, name)
  }

  /** A doubled-off hit resolves to the player and the base after the captured one. */
  lemma DoubledOffHitResolves(team: Team, d: string, m: RunnerMatch, name: string, base: string, p: Player)
    requires DoubledOffParts(d, m, name, base)
    requires base in NextBase && GetItem(team, Name(name)) == Ok(p)
    ensures ResolveRunner(team, d, m) == Ok(OutRunner(p, NextBase[base]))
  {
  }

  /** The name before " doubled off" is doubled off. */
  lemma DoubledOffNamed(s: string, n: nat)
    requires n + 13 <= |s| && s[n..n + 13] == " doubled off "
    ensures DoubledOff(s, s[..n])
  {
    DoubledOffChars(s, n);
    assert s[..n + 12] == s[..n] + " doubled off";
    ContainsAt(s, s[..n] + " doubled off", 0);
  }

  /** "name doubled off base", split at `n`. */
  predicate DoubledOffSplit(s: string, n: nat, name: string, base: string) {
    0 < n && n + 13 < |s| && s[n..n + 13] == " doubled off " && s[..n] == name && s[n + 13..] == base
  }

  /** The hit spanning "name doubled off base" has that name and base. */
  lemma DoubledOffSplitParts(s: string, n: nat, name: string, base: string)
    requires DoubledOffSplit(s, n, name, base)
    ensures DoubledOffParts(s, RunnerMatch(Span(0, n), Span(n + 13, |s|)), name, base)
  {
    DoubledOffNamed(s, n);
  }

  /** The hit of "First Last doubled off b" resolves to the player filed
      under "First Last" and the base after `b`. */
  lemma DoubledOffHit(team: Team, s: string, n: nat, name: string, base: string, p: Player)
    requires DoubledOffSplit(s, n, name, base)
    requires base in NextBase && GetItem(team, Name(name)) == Ok(p)
    ensures ResolveRunner(team, s, RunnerMatch(Span(0, n), Span(n + 13, |s|))) == Ok(OutRunner(p, NextBase[base]))
  {
    DoubledOffSplitParts(s, n, name, base);
    DoubledOffHitResolves(team, s, RunnerMatch(Span(0, n), Span(n + 13, |s|)), name, base, p);
  }

  /** One hit that resolves gives a one-entry list. */
  lemma OneHitResolves(team: Team, s: string, m: RunnerMatch, x: OutRunner)
    requires InOrder(m, s) && ResolveRunner(team, s, m) == Ok(x)
    ensures ResolveRunners(team, s, [m]) == Ok([x])
  {
    var r := ResolveRunners(team, s, [m]);
    assert [m][0] == m;
    assert r.Ok? && |r.value| == 1 && r.value[0] == x;
    assert r.value == [x];
  }

  /** On a clean text `get_out_runners_list` resolves the hits of the text itself. */
  lemma CleanOutRunners(team: Team, s: string)
    requires StripSuffixes(s) == s
    ensures OutRunners(team, s) == ResolveRunners(team, s, FindRunners(s))
  {
  }

  /** A text that starts with a capital and ends with a word is already clean. */
  lemma DoubledOffClean(s: string, n: nat)
    requires 0 < |s| && IsUpper(s[0]) && DoubledOffAt(s, n) && NoSuffixMarkers(s)
    ensures StripSuffixes(s) == s
  {
    assert Stripped(s);
    StripSuffixesClean(s);
    StripStripped(s);
  }

  /** The one doubled-off hit resolves to the player filed under the name
      and the base after the captured one. */
  lemma DoubledOffResolved(team: Team, s: string, n: nat, name: string, base: string, p: Player)
    requires 0 < n && DoubledOffAt(s, n)
    requires s[..n] == name && s[n + 13..] == base
    requires base in NextBase && GetItem(team, Name(name)) == Ok(p)
    ensures ResolveRunners(team, s, [RunnerMatch(Span(0, n), Span(n + 13, |s|))]) == Ok([OutRunner(p, NextBase[base])])
  {
    DoubledOffHit(team, s, n, name, base, p);
    OneHitResolves(team, s, RunnerMatch(Span(0, n), Span(n + 13, |s|)), OutRunner(p, NextBase[base]));
  }

  /** The name tokens of "First Last doubled off b". */
  lemma DoubledOffTokens(s: string, a: nat, n: nat)
    requires TwoTokens(s, a, n) && DoubledOffAt(s, n)
    ensures TokenBlanksAt(s, 0, IsUpper) == Some(a + 1) && TokenAt(s, a + 1, IsUpper) == Some(n)
  {
    DoubledToken(s, n);
    NameTokens(s, a, n);
  }

  /** `findall` on "First Last doubled off b", from its layout. */
  lemma DoubledOffFoundIn(s: string, a: nat, n: nat)
    requires TwoTokens(s, a, n) && DoubledOffAt(s, n)
    ensures FindRunners(s) == [RunnerMatch(Span(0, n), Span(n + 13, |s|))]
  {
    DoubledOffTokens(s, a, n);
    DoubledOffFound(s, a + 1, n);
  }

  /** "First Last doubled off b", from its layout: `get_out_runners_list`
      resolves exactly the one hit that spans the name and the base. */
  lemma DoubledOffRunnerIn(team: Team, s: string, a: nat, n: nat)
    requires TwoTokens(s, a, n) && DoubledOffAt(s, n) && NoSuffixMarkers(s)
    ensures OutRunners(team, s) == ResolveRunners(team, s, [RunnerMatch(Span(0, n), Span(n + 13, |s|))])
  {
    DoubledOffClean(s, n);
    DoubledOffFoundIn(s, a, n);
    CleanOutRunners(team, s);
  }

  /** The same with the player and the base named: one out runner. */
  lemma DoubledOffRunnerNamed(team: Team, s: string, a: nat, n: nat, name: string, base: string, p: Player)
    requires TwoTokens(s, a, n) && DoubledOffAt(s, n) && NoSuffixMarkers(s)
    requires s[..n] == name && s[n + 13..] == base
    requires base in NextBase && GetItem(team, Name(name)) == Ok(p)
    ensures OutRunners(team, s) == Ok([OutRunner(p, NextBase[base])])
  {
    DoubledOffRunnerIn(team, s, a, n);
    DoubledOffResolved(team, s, n, name, base, p);
  }

  /** "n1 n2 doubled off b": one out runner, the player filed under "n1 n2",
      recorded at the base after `b`. */
  lemma DoubledOffRunner(team: Team, s: string, n1: string, n2: string, b: string, p: Player)
    requires DoubledOffText(s, n1, n2, b) && NoSuffixMarkers(s)
    requires b in NextBase
    requires GetItem(team, Name(n1 + " " + n2)) == Ok(p)
    ensures OutRunners(team, s) == Ok([OutRunner(p, NextBase[b])])
  {
    DoubledOffLayout(s, n1, n2, b);
    DoubledOffRunnerNamed(team, s, |n1|, |n1| + 1 + |n2|, n1 + " " + n2, b, p);
  }
}

/** Name clean-up: `fix_initials`, `strip_this_suffix`, `strip_suffixes`, and
    the description normalisation of the `PlateAppearance` constructor in the
    top-level script.

    Each regex is a matcher anchored at a position (see `Scan`). In every pattern
    here a greedy `\s+` is followed by a non-space class or ends the pattern, so
    the run it takes is the maximal one and no backtracking can change a match.
 */
module Names {
  import opened Results
  import opened Text
  import opened Scan

  // ---------------------------------------------------------------------------
  // fix_initials

  /** `s[i..e]` reads `[A-Z]\.\s+[A-Z]\.\s+`, the second capital at `j`, each
      whitespace run taken whole. */
  predicate PairShape(s: string, i: nat, j: nat, e: nat) {
    i + 2 <= |s| && IsUpper(s[i]) && s[i + 1] == '.' && SpaceRun(s, i + 2, j)
    && j + 2 <= |s| && IsUpper(s[j]) && s[j + 1] == '.' && SpaceRun(s, j + 2, e)
  }

  /** `[A-Z]\.\s+[A-Z]\.\s+` anchored at `i`: it matches exactly when the text
      there has that shape, and the match ends after the second whitespace run. */
  function InitialPairAt(s: string, i: nat): (r: Option<nat>)
    ensures r.Some? ==> i + 6 <= r.value <= |s| && PairShape(s, i, SpaceRunEnd(s, i + 2), r.value)
    ensures forall j: nat, e: nat :: PairShape(s, i, j, e) ==> r == Some(e)
  {
    SpaceRunsEnd(s);
    if i + 2 <= |s| && IsUpper(s[i]) && s[i + 1] == '.' then
      var j := SpaceRunEnd(s, i + 2);
      if j > i + 2 && j + 2 <= |s| && IsUpper(s[j]) && s[j + 1] == '.' then
        var e := SpaceRunEnd(s, j + 2);
        if e > j + 2 then Some(e) else None
      else None
    else None
  }

  /** `s[i..j + 1]` reads `[A-Z]\.\s+[A-Z]`, the second capital at `j`. */
  predicate DotShape(s: string, i: nat, j: nat) {
    i + 2 <= |s| && IsUpper(s[i]) && s[i + 1] == '.' && SpaceRun(s, i + 2, j)
    && j < |s| && IsUpper(s[j])
  }

  /** `[A-Z]\.\s+[A-Z]` anchored at `i`: it matches exactly when the text there
      has that shape, and the match ends just past the second capital. */
  function InitialDotAt(s: string, i: nat): (r: Option<nat>)
    ensures r.Some? ==> i + 4 <= r.value <= |s| && DotShape(s, i, r.value - 1)
    ensures forall j: nat :: DotShape(s, i, j) ==> r == Some(j + 1)
  {
    SpaceRunsEnd(s);
    if i + 2 <= |s| && IsUpper(s[i]) && s[i + 1] == '.' then
      var j := SpaceRunEnd(s, i + 2);
      if j > i + 2 && j < |s| && IsUpper(s[j]) then Some(j + 1) else None
    else None
  }

  /** Where the first pattern of `fix_initials` matches, so does the second. */
  lemma PairImpliesDot(s: string, i: nat)
    ensures InitialPairAt(s, i).Some? ==> InitialDotAt(s, i).Some?
  {
  }

  /** `s[i..e]` is a period followed by a whole whitespace run. */
  predicate DotRun(s: string, i: nat, e: nat) {
    i < |s| && s[i] == '.' && SpaceRun(s, i + 1, e)
  }

  /** `\.\s+` anchored at `i`: a period and the whole whitespace run after it. */
  function DotSpacesAt(s: string, i: nat): (r: Option<nat>)
    ensures r.Some? ==> i + 2 <= r.value <= |s| && DotRun(s, i, r.value)
    ensures forall e: nat :: DotRun(s, i, e) ==> r == Some(e)
  {
    SpaceRunsEnd(s);
    if i + 2 <= |s| && s[i] == '.' && IsSpace(s[i + 1]) then Some(SpaceRunEnd(s, i + 1)) else None
  }

  /** `re.sub(r'\.\s+', rep, s)`: each period with the whitespace run after it
      becomes `rep`, scanning left to right. */
  function SubDotSpaces(s: string, rep: string): string
    decreases |s|
  {
    if |s| == 0 then ""
    else
      match DotSpacesAt(s, 0)
      case Some(e) => rep + SubDotSpaces(s[e..], rep)
      case None => [s[0]] + SubDotSpaces(s[1..], rep)
  }

  /** The sub-match `X.<ws>Y.<ws>` loses both `.<ws>` runs: only the two letters stay. */
  lemma CollapsedMiddle(s: string, i: nat)
    requires InitialPairAt(s, i).Some?
    ensures SpaceRunEnd(s, i + 2) < |s|
    ensures SubDotSpaces(s[i..InitialPairAt(s, i).value], "") == [s[i], s[SpaceRunEnd(s, i + 2)]]
  {
    CollapsedRuns(s, i, SpaceRunEnd(s, i + 2), InitialPairAt(s, i).value);
  }

  /** The same, with the two whitespace runs of the match ending at `j` and `e`. */
  lemma CollapsedRuns(s: string, i: nat, j: nat, e: nat)
    requires i + 2 < j && j + 2 < e <= |s|
    requires s[i + 1] == '.' && s[j + 1] == '.' && !IsSpace(s[i]) && !IsSpace(s[j])
    requires j == SpaceRunEnd(s, i + 2) && e == SpaceRunEnd(s, j + 2)
    ensures SubDotSpaces(s[i..e], "") == [s[i], s[j]]
  {
    var m := s[i..e];
    var m1 := s[i + 1..e];
    var m2 := s[j..e];
    var m3 := s[j + 1..e];
    DotSpacesInSlice(s, i + 1, e);
    DotSpacesInSlice(s, j + 1, e);
    assert m[1..] == m1 && m1[j - i - 1..] == m2 && m2[1..] == m3;
    SubSkipsRun(m3, |m3|);
    assert m3[|m3|..] == [];
    SubKeepsFirst(m2);
    SubSkipsRun(m1, j - i - 1);
    SubKeepsFirst(m);
  }

  /** A `.<ws>` run whose whitespace ends inside `s[a..b]` matches there too. */
  lemma DotSpacesInSlice(s: string, a: nat, b: nat)
    requires a + 2 <= b <= |s| && s[a] == '.' && IsSpace(s[a + 1]) && SpaceRunEnd(s, a + 1) <= b
    ensures DotSpacesAt(s[a..b], 0) == Some(SpaceRunEnd(s, a + 1) - a)
  {
    RunEndSlice(s, a, b, 1, IsSpace);
  }

  /** Where no `.<ws>` run starts, `re.sub` keeps the first character. */
  lemma SubKeepsFirst(m: string)
    requires |m| > 0 && DotSpacesAt(m, 0).None?
    ensures SubDotSpaces(m, "") == [m[0]] + SubDotSpaces(m[1..], "")
  {
  }

  /** Where a `.<ws>` run starts, `re.sub` with an empty replacement drops it. */
  lemma SubSkipsRun(m: string, e: nat)
    requires DotSpacesAt(m, 0) == Some(e)
    ensures SubDotSpaces(m, "") == SubDotSpaces(m[e..], "")
  {
  }

  /** One pass of the first loop of `fix_initials`: the leftmost `A. B. ` becomes
      `AB `, so the string shrinks by at least three characters. */
  function CollapsePairStep(s: string, i: nat): (r: string)
    requires InitialPairAt(s, i).Some?
    ensures SpaceRunEnd(s, i + 2) < |s|
    ensures r == s[..i] + [s[i], s[SpaceRunEnd(s, i + 2)]] + " " + s[InitialPairAt(s, i).value..]
    ensures |r| + 3 <= |s|
  {
    var e := InitialPairAt(s, i).value;
    CollapsedMiddle(s, i);
    s[..i] + SubDotSpaces(s[i..e], "") + " " + s[e..]
  }

  /** The first loop of `fix_initials`, run to its fixed point. */
  function CollapsePairs(s: string): (r: string)
    ensures |r| <= |s|
    ensures forall i :: InitialPairAt(r, i).None?
    decreases |s|
  {
    match Search(s, InitialPairAt)
    case None => s
    case Some(m) => CollapsePairs(CollapsePairStep(s, m.start))
  }

  /** One pass of the second loop of `fix_initials`: the period of the leftmost
      `A.<ws>B` is deleted and the whole string stripped. */
  function DropDotStep(s: string, i: nat): (r: string)
    requires InitialDotAt(s, i).Some?
    ensures r == Strip(s[..i + 1] + s[i + 2..])
    ensures |r| < |s|
  {
    var e := InitialDotAt(s, i).value;
    var m := s[i..e];
    assert OccursAt(m, ".", 1) by {
      assert m[1..2] == ".";
    }
    assert !OccursAt(m, ".", 0) by {
      assert m[0..1][0] == s[i];
    }
    assert IndexOf(m, ".") == Some(1);
    NoPeriodInSpacedLetter(s, i + 2, e);
    assert m[2..] == s[i + 2..e];
    ReplaceAbsent(m[2..], ".", "");
    var middle := Replace(m, ".", "");
    assert middle == [s[i]] + s[i + 2..e];
    assert s[..i] + middle + s[e..] == s[..i + 1] + s[i + 2..];
    Strip(s[..i] + middle + s[e..])
  }

  /** The tail `<ws>B` of an `A.<ws>B` match holds no period. */
  lemma NoPeriodInSpacedLetter(s: string, a: nat, e: nat)
    requires a <= e <= |s|
    requires forall k :: a <= k < e - 1 ==> IsSpace(s[k])
    requires e > a ==> IsUpper(s[e - 1])
    ensures !Contains(s[a..e], ".")
  {
    var t := s[a..e];
    forall k | 0 <= k < |t|
      ensures t[k] != '.'
    {
      assert t[k] == s[a + k];
    }
    CharAbsent(t, '.');
  }

  /** The second loop of `fix_initials`, run to its fixed point. */
  function DropInitialDots(s: string): (r: string)
    ensures |r| <= |s|
    ensures forall i :: InitialDotAt(r, i).None?
    decreases |s|
  {
    match Search(s, InitialDotAt)
    case None => s
    case Some(m) => DropInitialDots(DropDotStep(s, m.start))
  }

  /** `fix_initials`: "J. D. Martinez" becomes "JD Martinez"; the result has no
      initial-period-space-capital left. */
  function FixInitials(s: string): (r: string)
    ensures |r| <= |s|
    ensures forall i :: InitialDotAt(r, i).None?
  {
    DropInitialDots(CollapsePairs(s))
  }

  /** Neither loop fires on a string without `[A-Z]\.\s+[A-Z]`, so such a string
      is returned unchanged. */
  lemma {:induction false} FixInitialsFixes(s: string)
    requires forall i :: InitialDotAt(s, i).None?
    ensures FixInitials(s) == s
  {
    forall i
      ensures InitialPairAt(s, i).None?
    {
      PairImpliesDot(s, i);
    }
    assert CollapsePairs(s) == s;
  }

  /** `fix_initials` is idempotent. */
  lemma FixInitialsIdempotent(s: string)
    ensures FixInitials(FixInitials(s)) == FixInitials(s)
  {
    FixInitialsFixes(FixInitials(s));
  }

  // ---------------------------------------------------------------------------
  // strip_this_suffix and strip_suffixes

  /** The two suffixes `strip_suffixes` hands to `strip_this_suffix`. */
  predicate NameSuffix(suffix: string) {
    suffix == " Jr." || suffix == " Sr."
  }

  /** `s[i..j + 1]` reads `<suffix>\s+[A-Z]`, the capital at `j`. */
  predicate SuffixShape(s: string, suffix: string, i: nat, j: nat) {
    OccursAt(s, suffix, i) && SpaceRun(s, i + |suffix|, j) && j < |s| && IsUpper(s[j])
  }

  /** `<suffix>\s+[A-Z]` anchored at `i`, e.g. ` Jr\.\s+[A-Z]`: it matches exactly
      when the text there has that shape, and ends just past the capital. */
  function SuffixBeforeCapitalAt(s: string, suffix: string, i: nat): (r: Option<nat>)
    ensures r.Some? ==> OccursAt(s, suffix, i) && i + |suffix| + 2 <= r.value <= |s|
    ensures r.Some? ==> SuffixShape(s, suffix, i, r.value - 1)
    ensures forall j: nat :: SuffixShape(s, suffix, i, j) ==> r == Some(j + 1)
  {
    SpaceRunsEnd(s);
    if OccursAt(s, suffix, i) then
      var j := SpaceRunEnd(s, i + |suffix|);
      if j > i + |suffix| && j < |s| && IsUpper(s[j]) then Some(j + 1) else None
    else None
  }

  /** One pass of the loop of `strip_this_suffix`: inside the match the suffix
      becomes a period, so "Acuna Jr. Lines out" reads "Acuna. Lines out". */
  function PeriodForSuffixStep(s: string, suffix: string, i: nat): (r: string)
    requires NameSuffix(suffix)
    requires SuffixBeforeCapitalAt(s, suffix, i).Some?
    ensures r == s[..i] + "." + s[i + |suffix|..]
    ensures |r| + 3 == |s|
  {
    var e := SuffixBeforeCapitalAt(s, suffix, i).value;
    var m := s[i..e];
    assert m[..|suffix|] == suffix;
    assert IndexOf(m, suffix) == Some(0);
    NoPeriodInSpacedLetter(s, i + |suffix|, e);
    assert m[|suffix|..] == s[i + |suffix|..e];
    NoSuffixWithoutPeriod(m[|suffix|..], suffix);
    ReplaceAbsent(m[|suffix|..], suffix, ".");
    assert s[..i] + "." + s[i + |suffix|..e] + s[e..] == s[..i] + "." + s[i + |suffix|..];
    s[..i] + Replace(m, suffix, ".") + s[e..]
  }

  /** Both name suffixes end in a period, so they cannot occur in period-free text. */
  lemma NoSuffixWithoutPeriod(t: string, suffix: string)
    requires NameSuffix(suffix)
    requires !Contains(t, ".")
    ensures !Contains(t, suffix)
  {
    if Contains(t, suffix) {
      var k := IndexOf(t, suffix).value;
      assert t[k + 3] == suffix[3] == '.';
      assert t[k + 3..k + 4] == ".";
      ContainsAt(t, ".", k + 3);
    }
  }

  /** The pattern `<suffix>\s+[A-Z]` as a matcher. */
  function SuffixMatcher(suffix: string): Matcher {
    (t, i) => SuffixBeforeCapitalAt(t, suffix, i)
  }

  /** When the search fails the pattern matches nowhere, also past the end. */
  lemma NoSuffixMatchLeft(s: string, suffix: string)
    requires Search(s, SuffixMatcher(suffix)).None?
    ensures forall i :: SuffixBeforeCapitalAt(s, suffix, i).None?
  {
    forall i: nat
      ensures SuffixBeforeCapitalAt(s, suffix, i).None?
    {
      if i <= |s| {
        assert SuffixMatcher(suffix)(s, i).None?;
      }
    }
  }

  /** The loop of `strip_this_suffix`, run to its fixed point. */
  function PeriodsForSuffix(s: string, suffix: string): (r: string)
    requires NameSuffix(suffix)
    ensures |r| <= |s|
    ensures forall i :: SuffixBeforeCapitalAt(r, suffix, i).None?
    decreases |s|
  {
    match Search(s, SuffixMatcher(suffix))
    case None => NoSuffixMatchLeft(s, suffix); s
    case Some(m) => PeriodsForSuffix(PeriodForSuffixStep(s, suffix, m.start), suffix)
  }

  /** `strip_this_suffix`: suffixes before a capital become periods, every other
      occurrence is deleted, and the result is stripped. */
  function StripThisSuffix(s: string, suffix: string): (r: string)
    requires NameSuffix(suffix)
    ensures |r| <= |s|
    ensures Stripped(r)
  {
    var t := PeriodsForSuffix(s, suffix);
    ReplaceLength(t, suffix, "");
    Strip(Replace(t, suffix, ""))
  }

  /** `strip_suffixes`. */
  function StripSuffixes(s: string): (r: string)
    ensures |r| <= |s|
  {
    var a := StripThisSuffix(s, " Jr.");
    var b := StripThisSuffix(a, " Sr.");
    var c := Replace(b, " II", "");
    var d := Replace(c, " III", "");
    var e := Replace(d, " IV", "");
    ReplaceLength(b, " II", "");
    ReplaceLength(c, " III", "");
    ReplaceLength(d, " IV", "");
    ReplaceLength(e, " St. ", " St ");
    Replace(e, " St. ", " St ")
  }

  /** Text mentioning none of the suffix markers. */
  predicate NoSuffixMarkers(s: string) {
    !Contains(s, " Jr.") && !Contains(s, " Sr.") && !Contains(s, " II")
    && !Contains(s, " IV") && !Contains(s, " St. ")
  }

  /** A slice of marker-free text is marker-free. */
  lemma NoSuffixMarkersSlice(s: string, a: nat, b: nat)
    requires a <= b <= |s| && NoSuffixMarkers(s)
    ensures NoSuffixMarkers(s[a..b])
  {
    NotContainsSlice(s, " Jr.", a, b);
    NotContainsSlice(s, " Sr.", a, b);
    NotContainsSlice(s, " II", a, b);
    NotContainsSlice(s, " IV", a, b);
    NotContainsSlice(s, " St. ", a, b);
  }

  /** `strip_this_suffix` only strips text in which its suffix never occurs. */
  lemma StripThisSuffixAbsent(s: string, suffix: string)
    requires NameSuffix(suffix) && !Contains(s, suffix)
    ensures StripThisSuffix(s, suffix) == Strip(s)
  {
    assert Search(s, SuffixMatcher(suffix)).None?;
    ReplaceAbsent(s, suffix, "");
  }

  /** In `a + suffix + rest` with `a` free of the suffix, the suffix does not
      start inside `a`: it would have to cover the blank that opens the suffix
      with one of its other characters. */
  lemma SuffixOnlyAfter(a: string, suffix: string, rest: string)
    requires NameSuffix(suffix) && !Contains(a, suffix)
    ensures forall p: nat :: p < |a| ==> !OccursAt(a + suffix + rest, suffix, p)
  {
    var s := a + suffix + rest;
    forall p: nat | p < |a|
      ensures !OccursAt(s, suffix, p)
    {
      if p + 4 <= |a| {
        assert s[p..p + 4] == a[p..p + 4];
        assert !OccursAt(a, suffix, p);
      } else {
        assert s[|a|] == ' ';
        assert s[p..p + 4][|a| - p] == s[|a|];
      }
    }
  }

  /** With no match of the pattern the loop of `strip_this_suffix` does nothing. */
  lemma PeriodsForSuffixNoMatch(s: string, suffix: string)
    requires NameSuffix(suffix)
    requires forall i: nat :: i <= |s| ==> SuffixBeforeCapitalAt(s, suffix, i).None?
    ensures PeriodsForSuffix(s, suffix) == s
  {
    assert forall i: nat :: i <= |s| ==> SuffixMatcher(suffix)(s, i).None?;
    assert Search(s, SuffixMatcher(suffix)).None?;
  }

  /** A suffix that ends the text is not followed by a capital: it is deleted,
      and what comes before it is stripped. */
  lemma StripFinalSuffix(a: string, suffix: string)
    requires NameSuffix(suffix) && !Contains(a, suffix)
    ensures StripThisSuffix(a + suffix, suffix) == Strip(a)
  {
    var s := a + suffix;
    SuffixOnlyAfter(a, suffix, "");
    assert s == a + suffix + "";
    forall i: nat | i <= |s|
      ensures SuffixBeforeCapitalAt(s, suffix, i).None?
    {
      if i == |a| {
        assert SpaceRunEnd(s, |s|) == |s|;
      }
    }
    PeriodsForSuffixNoMatch(s, suffix);
    assert s[..|a|] == a && s[|a|..|a| + 4] == suffix && s[|a| + 4..] == "";
    IndexOfFirst(s, suffix, |a|);
    assert !Contains("", suffix);
    assert Replace(s, suffix, "") == a;
  }

  /** A suffix followed by whitespace and a capital becomes a period: "Acuna Jr.
      Lines out" reads "Acuna. Lines out". The text after the step must not hold
      the suffix again (see `SuffixCanReappear`). */
  lemma StripSuffixBeforeCapital(a: string, suffix: string, ws: string, c: char, b: string)
    requires NameSuffix(suffix)
    requires |ws| > 0 && forall k :: 0 <= k < |ws| ==> IsSpace(ws[k])
    requires IsUpper(c)
    requires !Contains(a + "." + ws + [c] + b, suffix)
    ensures StripThisSuffix(a + suffix + ws + [c] + b, suffix) == Strip(a + "." + ws + [c] + b)
  {
    var rest := ws + [c] + b;
    var s := a + suffix + rest;
    var t := a + "." + rest;
    assert s == a + suffix + ws + [c] + b && t == a + "." + ws + [c] + b;
    assert t[0..|a|] == a;
    NotContainsSlice(t, suffix, 0, |a|);
    SuffixShapeBeforeCapital(a, suffix, ws, c, b);
    FirstSuffixAt(a, suffix, rest, s);
    assert PeriodsForSuffix(s, suffix) == PeriodsForSuffix(t, suffix);
    PeriodsForSuffixAbsent(t, suffix);
    ReplaceAbsent(t, suffix, "");
  }

  /** When the suffix right after a suffix-free `a` matches, it is the first
      match, and the loop's step turns it into a period. */
  lemma FirstSuffixAt(a: string, suffix: string, rest: string, s: string)
    requires NameSuffix(suffix) && !Contains(a, suffix)
    requires s == a + suffix + rest
    requires SuffixBeforeCapitalAt(s, suffix, |a|).Some?
    ensures Search(s, SuffixMatcher(suffix)).Some?
    ensures Search(s, SuffixMatcher(suffix)).value.start == |a|
    ensures PeriodForSuffixStep(s, suffix, |a|) == a + "." + rest
  {
    SuffixOnlyAfter(a, suffix, rest);
    forall j: nat | j < |a|
      ensures SuffixMatcher(suffix)(s, j).None?
    {
      assert !OccursAt(s, suffix, j);
    }
    SearchFirst(s, SuffixMatcher(suffix), |a|);
    assert s[..|a|] == a && s[|a| + 4..] == rest;
  }

  /** The suffix after `a` is followed by whitespace and a capital. */
  lemma SuffixShapeBeforeCapital(a: string, suffix: string, ws: string, c: char, b: string)
    requires NameSuffix(suffix)
    requires |ws| > 0 && forall k :: 0 <= k < |ws| ==> IsSpace(ws[k])
    requires IsUpper(c)
    ensures SuffixShape(a + suffix + ws + [c] + b, suffix, |a|, |a| + 4 + |ws|)
  {
    var s := a + suffix + ws + [c] + b;
    var i := |a|;
    assert s[i..i + 4] == suffix;
    assert forall k :: i + 4 <= k < i + 4 + |ws| ==> s[k] == ws[k - i - 4];
    assert s[i + 4 + |ws|] == c;
  }

  /** Text without the suffix passes the loop of `strip_this_suffix` unchanged. */
  lemma PeriodsForSuffixAbsent(t: string, suffix: string)
    requires NameSuffix(suffix) && !Contains(t, suffix)
    ensures PeriodsForSuffix(t, suffix) == t
  {
    forall i: nat | i <= |t|
      ensures SuffixBeforeCapitalAt(t, suffix, i).None?
    {
      assert !OccursAt(t, suffix, i);
    }
    PeriodsForSuffixNoMatch(t, suffix);
  }

  /** As written, `strip_this_suffix` can leave its suffix before a capital: the
      last deletion joins " J" and "r." into a new " Jr." that the loop has
      already passed. */
  lemma SuffixCanReappear(s: string, t: string)
    requires s == "A J Jr.r. X" && t == "A Jr. X"
    ensures StripThisSuffix(s, " Jr.") == t
    ensures SuffixBeforeCapitalAt(t, " Jr.", 1).Some?
  {
    ReappearNoMatch(s);
    PeriodsForSuffixNoMatch(s, " Jr.");
    ReappearDeletion(s);
    assert Stripped(t);
    StripStripped(t);
    ReappearShape(t);
  }

  /** In "A J Jr.r. X" the only " Jr." is followed by "r", not by whitespace. */
  lemma ReappearNoMatch(s: string)
    requires s == "A J Jr.r. X"
    ensures forall i: nat :: i <= |s| ==> SuffixBeforeCapitalAt(s, " Jr.", i).None?
  {
    forall i: nat | i <= |s|
      ensures SuffixBeforeCapitalAt(s, " Jr.", i).None?
    {
      if i == 3 {
        assert SpaceRunEnd(s, 7) == 7;
      } else if i == 1 {
        MismatchAt(s, " Jr.", i, 2);
      } else if i == 9 {
        MismatchAt(s, " Jr.", i, 1);
      } else {
        MismatchAt(s, " Jr.", i, 0);
      }
    }
  }

  /** Deleting the " Jr." of "A J Jr.r. X" joins " J" and "r.". */
  lemma ReappearDeletion(s: string)
    requires s == "A J Jr.r. X"
    ensures Replace(s, " Jr.", "") == "A Jr. X"
  {
    assert s[3..7] == " Jr.";
    MismatchAt(s, " Jr.", 0, 0);
    MismatchAt(s, " Jr.", 1, 2);
    MismatchAt(s, " Jr.", 2, 0);
    IndexOfFirst(s, " Jr.", 3);
    var rest := s[7..];
    assert rest == "r. X";
    MissingCharAbsent(rest, " Jr.", 1);
    ReplaceAbsent(rest, " Jr.", "");
  }

  /** "A Jr. X" reads " Jr." then whitespace then a capital from position 1. */
  lemma ReappearShape(t: string)
    requires t == "A Jr. X"
    ensures SuffixBeforeCapitalAt(t, " Jr.", 1).Some?
  {
    assert t[1..5] == " Jr.";
    assert SpaceRun(t, 5, 6);
    assert SuffixShape(t, " Jr.", 1, 6);
  }

  /** The four plain substitutions of `strip_suffixes` leave marker-free text alone. */
  lemma PlainSubstitutionsClean(a: string)
    requires NoSuffixMarkers(a)
    ensures Replace(Replace(Replace(Replace(a, " II", ""), " III", ""), " IV", ""), " St. ", " St ") == a
  {
    ReplaceAbsent(a, " II", "");
    if Contains(a, " III") {
      var k := IndexOf(a, " III").value;
      assert a[k..k + 4] == " III";
      assert a[k..k + 3] == a[k..k + 4][..3] == " II";
      ContainsAt(a, " II", k);
    }
    ReplaceAbsent(a, " III", "");
    ReplaceAbsent(a, " IV", "");
    ReplaceAbsent(a, " St. ", " St ");
  }

  /** A name free of suffix markers passes `strip_suffixes` unchanged apart from
      surrounding whitespace. */
  lemma StripSuffixesClean(s: string)
    requires NoSuffixMarkers(s)
    ensures StripSuffixes(s) == Strip(s)
  {
    StripThisSuffixAbsent(s, " Jr.");
    var a := Strip(s);
    var bounds := TrimBounds(s, IsSpace);
    NoSuffixMarkersSlice(s, bounds.0, bounds.1);
    StripThisSuffixAbsent(a, " Sr.");
    StripStripped(a);
    PlainSubstitutionsClean(a);
  }

  // ---------------------------------------------------------------------------
  // Description normalisation of the script's PlateAppearance constructor

  /** A period followed by whitespace is followed by one space and then by
      non-whitespace, or by one space that ends the text. */
  predicate SpacedAfterPeriods(s: string) {
    forall k :: 0 <= k < |s| - 1 && s[k] == '.' && IsSpace(s[k + 1]) ==>
      s[k + 1] == ' ' && (k + 2 == |s| || !IsSpace(s[k + 2]))
  }

  /** The same, where the single space can never be the last character. */
  predicate SingleSpacedAfterPeriods(s: string) {
    forall k :: 0 <= k < |s| - 1 && s[k] == '.' && IsSpace(s[k + 1]) ==>
      s[k + 1] == ' ' && k + 2 < |s| && !IsSpace(s[k + 2])
  }

  /** `re.sub(r'\.\s+', '. ', s)` leaves every period followed by exactly one space,
      and keeps the first character of its input. */
  lemma {:induction false} SubDotSpacesSpacing(s: string)
    ensures |SubDotSpaces(s, ". ")| == 0 <==> |s| == 0
    ensures |s| > 0 ==> SubDotSpaces(s, ". ")[0] == s[0]
    ensures SpacedAfterPeriods(SubDotSpaces(s, ". "))
    decreases |s|
  {
    if |s| > 0 {
      match DotSpacesAt(s, 0)
      case Some(e) =>
        var rest := SubDotSpaces(s[e..], ". ");
        SubDotSpacesSpacing(s[e..]);
        var out := ". " + rest;
        assert SubDotSpaces(s, ". ") == out;
        forall k | 0 <= k < |out| - 1 && out[k] == '.' && IsSpace(out[k + 1])
          ensures out[k + 1] == ' ' && (k + 2 == |out| || !IsSpace(out[k + 2]))
        {
          if k >= 2 {
            assert out[k] == rest[k - 2] && out[k + 1] == rest[k - 1];
          } else if k == 0 && |rest| > 0 {
            assert out[2] == rest[0] == s[e];
          }
        }
      case None =>
        var rest := SubDotSpaces(s[1..], ". ");
        SubDotSpacesSpacing(s[1..]);
        var out := [s[0]] + rest;
        assert SubDotSpaces(s, ". ") == out;
        forall k | 0 <= k < |out| - 1 && out[k] == '.' && IsSpace(out[k + 1])
          ensures out[k + 1] == ' ' && (k + 2 == |out| || !IsSpace(out[k + 2]))
        {
          if k >= 1 {
            assert out[k] == rest[k - 1] && out[k + 1] == rest[k];
          }
        }
    }
  }

  /** Stripping keeps the spacing after periods and removes a trailing lone space. */
  lemma StripSpacing(t: string)
    requires SpacedAfterPeriods(t)
    ensures SingleSpacedAfterPeriods(Strip(t))
  {
    var b := TrimBounds(t, IsSpace);
    SliceSpacing(t, b.0, b.1);
  }

  /** A slice of a spaced string that does not end in a blank is single-spaced. */
  lemma SliceSpacing(t: string, lo: nat, hi: nat)
    requires SpacedAfterPeriods(t)
    requires lo <= hi <= |t| && (lo == hi || !IsSpace(t[hi - 1]))
    ensures SingleSpacedAfterPeriods(t[lo..hi])
  {
    var r := t[lo..hi];
    forall k | 0 <= k < |r| - 1 && r[k] == '.' && IsSpace(r[k + 1])
      ensures r[k + 1] == ' ' && k + 2 < |r| && !IsSpace(r[k + 2])
    {
      assert r[k] == t[lo + k] && r[k + 1] == t[lo + k + 1];
      if k + 2 < |r| {
        assert r[k + 2] == t[lo + k + 2];
      }
    }
  }

  /** The constructor's normalisation: initials fixed, whitespace after every
      period collapsed to one space, surrounding whitespace stripped. */
  function NormalizeDescription(s: string): (r: string)
    ensures Stripped(r)
    ensures SingleSpacedAfterPeriods(r)
  {
    var t := SubDotSpaces(FixInitials(s), ". ");
    SubDotSpacesSpacing(FixInitials(s));
    StripSpacing(t);
    Strip(t)
  }
}

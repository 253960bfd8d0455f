/** Surnames of several words: which word `Team.append` files a player under
    (the second, `split()[1]`), which word `Team.find_player` looks a name up
    by (the last, `split()[-1]`), and where the two agree.

    A surname here is one or more plain words joined by single blanks, such
    as "Smith", "De Cruz" or "De La Cruz"; a looked-up name is a first word
    (an initial such as "M." or a first name) then a blank then the surname.
 */
module Surnames {
  import opened Results
  import opened Text
  import opened Names
  import opened Roster

  /** One or more plain words: no comma, no period, none a suffix. */
  predicate PlainWords(ws: seq<string>) {
    |ws| > 0 && forall k :: 0 <= k < |ws| ==> PlainSurname(ws[k])
  }

  /** The word `append` keeps of a plain surname: the second, or the only one. */
  function FiledWord(ws: seq<string>): string
    requires |ws| > 0
  {
    if |ws| == 1 then ws[0] else ws[1]
  }

  // ---------------------------------------------------------------------------
  // The shape of a joined surname

  /** Words whose last one is a plain surname, joined by single blanks, start
      and end with a character that is neither a blank nor a period, and end
      with none of the five suffixes. */
  lemma EndingsKept(vs: seq<string>)
    requires |vs| > 0 && forall k :: 0 <= k < |vs| ==> IsWord(vs[k])
    requires IsWord(vs[0]) && vs[0][0] != '.' && PlainSurname(vs[|vs| - 1])
    ensures var s := Join(vs, " ");
            |s| > 0 && s[0] == vs[0][0] && Stripped(s)
            && !IsBlankOrDot(s[0]) && !IsBlankOrDot(s[|s| - 1])
    ensures var s := Join(vs, " ");
            SubAtEnd(s, " Jr") == s && SubAtEnd(s, " Sr") == s && SubAtEnd(s, " II") == s
            && SubAtEnd(s, " III") == s && SubAtEnd(s, " IV") == s
  {
    var s := Join(vs, " ");
    var last := vs[|vs| - 1];
    JoinFirstChar(vs);
    JoinLast(vs);
    assert s[|s| - |last|..][|last| - 1] == last[|last| - 1];
    LastWordEndings(s, last);
  }

  /** A text whose last word is a plain surname ends with none of the five
      suffixes. */
  lemma LastWordEndings(s: string, last: string)
    requires PlainSurname(last) && EndsWith(s, last)
    requires |s| == |last| || s[|s| - |last| - 1] == ' '
    ensures SubAtEnd(s, " Jr") == s && SubAtEnd(s, " Sr") == s && SubAtEnd(s, " II") == s
    ensures SubAtEnd(s, " III") == s && SubAtEnd(s, " IV") == s
  {
    assert |last| < 2 || last[..2] != "II";
    WordEndingKept(s, last, " Jr");
    WordEndingKept(s, last, " Sr");
    WordEndingKept(s, last, " II");
    WordEndingKept(s, last, " III");
    WordEndingKept(s, last, " IV");
  }

  /** `re.sub(' x$', '', s)` leaves alone a text whose last word is not `x`. */
  lemma WordEndingKept(s: string, last: string, suffix: string)
    requires IsWord(last) && EndsWith(s, last)
    requires |s| == |last| || s[|s| - |last| - 1] == ' '
    requires |suffix| > 1 && suffix[0] == ' ' && IsWord(suffix[1..]) && last != suffix[1..]
    ensures SubAtEnd(s, suffix) == s
  {
    assert suffix == " " + suffix[1..];
    NoEndingAfterWord(s, last, suffix[1..]);
  }

  /** A plain surname has no comma and no period, and `split()` gives back its
      words. */
  lemma PlainJoinWords(ws: seq<string>)
    requires PlainWords(ws)
    ensures ',' !in Join(ws, " ") && '.' !in Join(ws, " ")
    ensures SplitWs(Join(ws, " ")) == ws
    ensures Contains(Join(ws, " "), " ") <==> |ws| >= 2
  {
    JoinLacks(ws, ',');
    JoinLacks(ws, '.');
    SplitWsJoin(ws);
    JoinBlank(ws);
  }

  // ---------------------------------------------------------------------------
  // Filing: Team.append

  /** `append`'s clean-up keeps a plain surname as it is. */
  lemma PlainSurnameCleaned(ws: seq<string>)
    requires PlainWords(ws)
    ensures CleanedLastName(Join(ws, " ")) == Join(ws, " ")
  {
    var s := Join(ws, " ");
    EndingsKept(ws);
    PlainJoinWords(ws);
    TrimByKeeps(s, IsBlankOrDot);
    MissingCharAbsent(s, ",", 0);
    ReplaceAbsent(s, ",", "");
    StripStripped(s);
    var a := SubAtEnd(Replace(StripBlankOrDot(s), ",", ""), " Jr");
    assert a == s;
    var b := SubAtEnd(Replace(StripBlankOrDot(a), ",", ""), " Sr");
    assert b == s;
    var e := SubAtEnd(Strip(SubAtEnd(Strip(SubAtEnd(Strip(b), " II")), " III")), " IV");
    assert e == s;
    MissingCharAbsent(s, " St. ", 3);
    ReplaceAbsent(s, " St. ", " St ");
  }

  /** Every step of `append`'s clean-up leaves `s` as it is. */
  predicate Settled(s: string) {
    StripBlankOrDot(s) == s && Replace(s, ",", "") == s && Strip(s) == s
    && SubAtEnd(s, " Jr") == s && SubAtEnd(s, " Sr") == s && SubAtEnd(s, " II") == s
    && SubAtEnd(s, " III") == s && SubAtEnd(s, " IV") == s
    && Replace(s, " St. ", " St ") == s
  }

  /** A plain surname is settled. */
  lemma PlainSettled(ws: seq<string>)
    requires PlainWords(ws)
    ensures Settled(Join(ws, " "))
  {
    var s := Join(ws, " ");
    EndingsKept(ws);
    PlainJoinWords(ws);
    TrimByKeeps(s, IsBlankOrDot);
    MissingCharAbsent(s, ",", 0);
    ReplaceAbsent(s, ",", "");
    StripStripped(s);
    MissingCharAbsent(s, " St. ", 3);
    ReplaceAbsent(s, " St. ", " St ");
  }

  /** A text a suffix can follow: stripped, not starting with a period, and
      without commas. */
  predicate Lead(s: string) {
    |s| > 0 && Stripped(s) && !IsBlankOrDot(s[0]) && ',' !in s
  }

  /** The stripping and comma steps keep `s + suffix`, and the suffix's own
      ending gives back `s`. */
  predicate Suffixed(s: string, suffix: string) {
    var u := s + suffix;
    |suffix| > 0 && suffix[|suffix| - 1] != '\n'
    && StripBlankOrDot(u) == u && Replace(u, ",", "") == u && Strip(u) == u && SubAtEnd(u, suffix) == s
  }

  /** Any word without commas or periods, after a blank, is such a suffix. */
  lemma SuffixedShape(s: string, suffix: string)
    requires Lead(s)
    requires |suffix| >= 3 && suffix[0] == ' '
    requires forall k :: 1 <= k < |suffix| ==> IsUpper(suffix[k]) || IsLower(suffix[k])
    ensures Suffixed(s, suffix)
  {
    assert IsWord(suffix[1..]) && ',' !in suffix && '.' !in suffix;
    var u := s + suffix;
    var x := suffix[1..];
    assert u[0] == s[0];
    assert u[|u| - 1] == suffix[|suffix| - 1] == x[|x| - 1];
    assert u[|u| - |suffix|..] == suffix;
    var r := SubAtEnd(u, suffix);
    assert r == (r + suffix)[..|s|] == u[..|s|] == s;
    TrimByKeeps(u, IsBlankOrDot);
    MissingCharAbsent(u, ",", 0);
    ReplaceAbsent(u, ",", "");
    StripStripped(u);
  }

  /** " Jr", " Sr" and " II" qualify. */
  lemma FirstSuffixesShape(s: string)
    requires Lead(s)
    ensures Suffixed(s, " Jr") && Suffixed(s, " Sr") && Suffixed(s, " II")
  {
    SuffixedShape(s, " Jr");
    SuffixedShape(s, " Sr");
    SuffixedShape(s, " II");
  }

  /** " III" and " IV" qualify. */
  lemma LastSuffixesShape(s: string)
    requires Lead(s)
    ensures Suffixed(s, " III") && Suffixed(s, " IV")
  {
    SuffixedShape(s, " III");
    SuffixedShape(s, " IV");
  }

  /** A word and its blank after a base: the text ends with that word. */
  lemma SuffixEnds(s: string, suffix: string)
    requires |suffix| >= 2 && suffix[0] == ' '
    ensures EndsWith(s + suffix, suffix[1..])
    ensures (s + suffix)[|s + suffix| - |suffix[1..]| - 1] == ' '
  {
    var u := s + suffix;
    assert u[|u| - |suffix| + 1..] == suffix[1..];
  }

  /** `re.sub(' y$', '', s + suffix)` keeps the text when `y` is another word. */
  lemma OtherEndingKept(s: string, suffix: string, y: string)
    requires |suffix| >= 2 && suffix[0] == ' ' && IsWord(suffix[1..])
    requires |y| > 1 && y[0] == ' ' && IsWord(y[1..]) && suffix[1..] != y[1..]
    ensures SubAtEnd(s + suffix, y) == s + suffix
  {
    SuffixEnds(s, suffix);
    WordEndingKept(s + suffix, suffix[1..], y);
  }

  /** The endings `append` tries before " Sr" or " II" leave the text alone. */
  lemma EndingsBeforeSecond(s: string)
    ensures SubAtEnd(s + " Sr", " Jr") == s + " Sr"
    ensures SubAtEnd(s + " II", " Jr") == s + " II" && SubAtEnd(s + " II", " Sr") == s + " II"
  {
    OtherEndingKept(s, " Sr", " Jr");
    OtherEndingKept(s, " II", " Jr");
    OtherEndingKept(s, " II", " Sr");
  }

  /** The endings `append` tries before " III" leave the text alone. */
  lemma EndingsBeforeThird(s: string)
    ensures SubAtEnd(s + " III", " Jr") == s + " III" && SubAtEnd(s + " III", " Sr") == s + " III"
            && SubAtEnd(s + " III", " II") == s + " III"
  {
    OtherEndingKept(s, " III", " Jr");
    OtherEndingKept(s, " III", " Sr");
    OtherEndingKept(s, " III", " II");
  }

  /** The endings `append` tries before " IV" leave the text alone. */
  lemma EndingsBeforeFourth(s: string)
    ensures SubAtEnd(s + " IV", " Jr") == s + " IV" && SubAtEnd(s + " IV", " Sr") == s + " IV"
            && SubAtEnd(s + " IV", " II") == s + " IV" && SubAtEnd(s + " IV", " III") == s + " IV"
  {
    OtherEndingKept(s, " IV", " Jr");
    OtherEndingKept(s, " IV", " Sr");
    OtherEndingKept(s, " IV", " II");
    OtherEndingKept(s, " IV", " III");
  }

  /** `append` drops " Jr" after a settled text. */
  lemma JrDropped(s: string)
    requires Settled(s) && Suffixed(s, " Jr")
    ensures CleanedLastName(s + " Jr") == s
  {
  }

  /** `append` drops " Sr" after a settled text. */
  lemma SrDropped(s: string)
    requires Settled(s) && Suffixed(s, " Sr") && SubAtEnd(s + " Sr", " Jr") == s + " Sr"
    ensures CleanedLastName(s + " Sr") == s
  {
  }

  /** `append` drops " II" after a settled text. */
  lemma SecondDropped(s: string)
    requires Settled(s) && Suffixed(s, " II")
    requires SubAtEnd(s + " II", " Jr") == s + " II" && SubAtEnd(s + " II", " Sr") == s + " II"
    ensures CleanedLastName(s + " II") == s
  {
  }

  /** `append` drops " III" after a settled text. */
  lemma ThirdDropped(s: string)
    requires Settled(s) && Suffixed(s, " III")
    requires SubAtEnd(s + " III", " Jr") == s + " III" && SubAtEnd(s + " III", " Sr") == s + " III"
    requires SubAtEnd(s + " III", " II") == s + " III"
    ensures CleanedLastName(s + " III") == s
  {
  }

  /** `append` drops " IV" after a settled text. */
  lemma FourthDropped(s: string)
    requires Settled(s) && Suffixed(s, " IV")
    requires SubAtEnd(s + " IV", " Jr") == s + " IV" && SubAtEnd(s + " IV", " Sr") == s + " IV"
    requires SubAtEnd(s + " IV", " II") == s + " IV" && SubAtEnd(s + " IV", " III") == s + " IV"
    ensures CleanedLastName(s + " IV") == s
  {
  }

  /** `append` files a plain surname followed by " Jr", " Sr", " II", " III"
      or " IV" exactly as it files the surname alone. */
  lemma SuffixDropped(ws: seq<string>)
    requires PlainWords(ws)
    ensures var s := Join(ws, " ");
            CleanedLastName(s + " Jr") == s && CleanedLastName(s + " Sr") == s
            && CleanedLastName(s + " II") == s && CleanedLastName(s + " III") == s
            && CleanedLastName(s + " IV") == s
  {
    var s := Join(ws, " ");
    PlainSettled(ws);
    PlainLead(ws);
    FirstSuffixesShape(s);
    LastSuffixesShape(s);
    EndingsBeforeSecond(s);
    EndingsBeforeThird(s);
    EndingsBeforeFourth(s);
    JrDropped(s);
    SrDropped(s);
    SecondDropped(s);
    ThirdDropped(s);
    FourthDropped(s);
  }

  /** A plain surname can take a suffix. */
  lemma PlainLead(ws: seq<string>)
    requires PlainWords(ws)
    ensures Lead(Join(ws, " "))
  {
    EndingsKept(ws);
    PlainJoinWords(ws);
  }

  /** `append` files a plain surname followed by " Jr", " Sr", " II", " III"
      or " IV" under the word it files the surname alone under. */
  lemma SuffixedFiled(ws: seq<string>)
    requires PlainWords(ws)
    ensures IndexedLastName(Join(ws, " ") + " Jr") == Ok(FiledWord(ws))
    ensures IndexedLastName(Join(ws, " ") + " Sr") == Ok(FiledWord(ws))
    ensures IndexedLastName(Join(ws, " ") + " II") == Ok(FiledWord(ws))
    ensures IndexedLastName(Join(ws, " ") + " III") == Ok(FiledWord(ws))
    ensures IndexedLastName(Join(ws, " ") + " IV") == Ok(FiledWord(ws))
  {
    SuffixDropped(ws);
    FiledFromCleaned(Join(ws, " ") + " Jr", ws);
    FiledFromCleaned(Join(ws, " ") + " Sr", ws);
    FiledFromCleaned(Join(ws, " ") + " II", ws);
    FiledFromCleaned(Join(ws, " ") + " III", ws);
    FiledFromCleaned(Join(ws, " ") + " IV", ws);
  }

  /** `append` writes " St. " between two plain words as " St ", so the name
      holds a blank and the word filed under is "St". */
  lemma SaintRewritten(a: string, b: string)
    requires PlainSurname(a) && PlainSurname(b)
    ensures CleanedLastName(a + " St. " + b) == a + " St " + b
    ensures IndexedLastName(a + " St. " + b) == Ok("St")
  {
    SaintKept(a, b);
    SaintReplaced(a, b);
    SaintWords(a, b);
    FiledFromCleaned(a + " St. " + b, [a, "St", b]);
  }

  /** "a St b" is the plain words a, "St" and b. */
  lemma SaintWords(a: string, b: string)
    requires PlainSurname(a) && PlainSurname(b)
    ensures PlainWords([a, "St", b]) && Join([a, "St", b], " ") == a + " St " + b
  {
    var ws := [a, "St", b];
    assert ws[1..][1..] == [b] && ws[1..][0] == "St";
    assert Join([b], " ") == b;
    assert Join(ws[1..], " ") == "St" + " " + b;
    assert Join(ws, " ") == a + " " + ("St" + " " + b);
    var st := ws[1];
    assert st[0] == 'S' && st[1] == 't' && |st| == 2;
    assert IsWord(st);
    assert st[..2] == st;
    assert st != "Jr" && st != "Sr" && st != "II" && st != "IV";
    assert ',' !in st && '.' !in st;
    assert PlainSurname(st);
  }

  /** Every step before the " St. " rewrite keeps "a St. b". */
  lemma SaintKept(a: string, b: string)
    requires PlainSurname(a) && PlainSurname(b)
    ensures var u := a + " St. " + b;
            StripBlankOrDot(u) == u && Replace(u, ",", "") == u && Strip(u) == u
    ensures var u := a + " St. " + b;
            SubAtEnd(u, " Jr") == u && SubAtEnd(u, " Sr") == u && SubAtEnd(u, " II") == u
            && SubAtEnd(u, " III") == u && SubAtEnd(u, " IV") == u
  {
    var u := a + " St. " + b;
    assert u[0] == a[0] && u[|u| - 1] == b[|b| - 1];
    assert u[|u| - |b|..] == b && u[|u| - |b| - 1] == ' ';
    TrimByKeeps(u, IsBlankOrDot);
    assert ',' !in u;
    MissingCharAbsent(u, ",", 0);
    ReplaceAbsent(u, ",", "");
    StripStripped(u);
    LastWordEndings(u, b);
  }

  /** The rewrite itself: the first " St. " is the one after `a`, and `b` has
      no other. */
  lemma SaintReplaced(a: string, b: string)
    requires PlainSurname(a) && PlainSurname(b)
    ensures Replace(a + " St. " + b, " St. ", " St ") == a + " St " + b
  {
    var u := a + " St. " + b;
    var pat := " St. ";
    assert u == a + (pat + b);
    assert u[|a|..|a| + 5] == pat;
    FirstAfterWord(a, pat + b, pat);
    assert u[..|a|] == a && u[|a| + 5..] == b;
    MissingCharAbsent(b, pat, 3);
    ReplaceAbsent(b, pat, " St ");
  }

  /** Whatever cleans up to a plain surname is filed under its second word,
      or its only one. */
  lemma FiledFromCleaned(l: string, ws: seq<string>)
    requires PlainWords(ws) && CleanedLastName(l) == Join(ws, " ")
    ensures IndexedLastName(l) == Ok(FiledWord(ws))
  {
    PlainJoinWords(ws);
  }

  /** `append` files a plain surname under its second word, or its only one:
      `split()[1]`. */
  lemma PlainSurnameFiled(ws: seq<string>)
    requires PlainWords(ws)
    ensures IndexedLastName(Join(ws, " ")) == Ok(FiledWord(ws))
  {
    PlainSurnameCleaned(ws);
    FiledFromCleaned(Join(ws, " "), ws);
  }

  // ---------------------------------------------------------------------------
  // Looking up: Team.find_player

  /** "w surname" holds none of the markers `strip_suffixes` acts on: the
      periods of "M." lie before the first blank, and no surname word starts
      with "II" or "IV". */
  lemma NameNoMarkers(w: string, ws: seq<string>)
    requires IsWord(w) && PlainWords(ws)
    ensures NoSuffixMarkers(w + " " + Join(ws, " "))
  {
    var rest := " " + Join(ws, " ");
    RestNoMarkers(w, ws, rest);
    assert w + " " + Join(ws, " ") == w + rest;
  }

  lemma RestNoMarkers(w: string, ws: seq<string>, rest: string)
    requires IsWord(w) && PlainWords(ws) && rest == " " + Join(ws, " ")
    ensures NoSuffixMarkers(w + rest)
  {
    PlainJoinWords(ws);
    assert '.' !in rest;
    DottedAbsent(w, rest, " Jr.");
    DottedAbsent(w, rest, " Sr.");
    DottedAbsent(w, rest, " St. ");
    NoRomanStart(ws);
    JoinNoBlankPrefix(ws, " II");
    BlankLedIn(w, rest, " II");
    JoinNoBlankPrefix(ws, " IV");
    BlankLedIn(w, rest, " IV");
  }

  /** No word of a plain surname starts with "II" or "IV". */
  lemma NoRomanStart(ws: seq<string>)
    requires PlainWords(ws)
    ensures forall k :: 0 <= k < |ws| ==> IsWord(ws[k])
    ensures forall k :: 0 <= k < |ws| ==> !(|ws[k]| >= 2 && ws[k][..2] == " II"[1..])
    ensures forall k :: 0 <= k < |ws| ==> !(|ws[k]| >= 2 && ws[k][..2] == " IV"[1..])
  {
    assert " II"[1..] == "II" && " IV"[1..] == "IV";
  }

  /** "w surname" is the join of `w` and the surname's words. */
  lemma NameWords(w: string, ws: seq<string>)
    requires IsWord(w) && PlainWords(ws)
    ensures var vs := [w] + ws;
            |vs| > 0 && vs[0] == w && vs[|vs| - 1] == ws[|ws| - 1]
            && (forall k :: 0 <= k < |vs| ==> IsWord(vs[k]))
            && Join(vs, " ") == w + " " + Join(ws, " ")
  {
    var vs := [w] + ws;
    assert vs[1..] == ws;
    assert forall k :: 1 <= k < |vs| ==> vs[k] == ws[k - 1];
  }

  /** A blank-led pattern with a period is not in "w rest" when `rest` has no
      period. */
  lemma DottedAbsent(w: string, rest: string, pat: string)
    requires IsWord(w) && '.' !in rest
    requires |pat| == 4 || |pat| == 5
    requires pat[0] == ' ' && pat[3] == '.'
    ensures !Contains(w + rest, pat)
  {
    MissingCharAbsent(rest, pat, 3);
    BlankLedIn(w, rest, pat);
  }

  /** `find_player`'s clean-up keeps "w surname" as it is. */
  lemma NameCleaned(w: string, ws: seq<string>)
    requires IsWord(w) && w[0] != '.' && PlainWords(ws)
    ensures CleanedLookupName(w + " " + Join(ws, " ")) == w + " " + Join(ws, " ")
  {
    var s := w + " " + Join(ws, " ");
    NameWords(w, ws);
    EndingsKept([w] + ws);
    TrimByKeeps(s, IsBlankOrDot);
    StripStripped(s);
    var a := SubAtEnd(StripBlankOrDot(s), " Jr");
    assert a == s;
    var b := SubAtEnd(StripBlankOrDot(a), " Sr");
    assert b == s;
    var e := SubAtEnd(Strip(SubAtEnd(Strip(SubAtEnd(Strip(b), " II")), " III")), " IV");
    assert e == s;
    NameNoMarkers(w, ws);
    StripSuffixesClean(s);
  }

  /** `find_player` looks "w surname" up by the first character of `w` and
      the LAST word of the surname: `split()[-1]`. */
  lemma NameLookupKey(w: string, ws: seq<string>)
    requires IsWord(w) && w[0] != '.' && PlainWords(ws)
    ensures LookupKey(w + " " + Join(ws, " ")) == Ok([w[0]] + ws[|ws| - 1])
  {
    NameWords(w, ws);
    NameCleaned(w, ws);
    SplitWsJoin([w] + ws);
  }

  // ---------------------------------------------------------------------------
  // Where filing and looking up agree

  /** The two keys of a player with a plain surname: the one `append` files
      under and the one "w surname" is looked up by. */
  lemma SurnameKeys(p: Player, w: string, ws: seq<string>)
    requires PlainWords(ws) && p.lastName == Join(ws, " ")
    requires IsWord(w) && w[0] != '.' && |p.firstName| > 0 && w[0] == p.firstName[0]
    ensures InitialKey(p) == Ok([w[0]] + FiledWord(ws))
    ensures LookupKey(w + " " + p.lastName) == Ok([w[0]] + ws[|ws| - 1])
  {
    PlainSurnameFiled(ws);
    NameLookupKey(w, ws);
  }

  /** With a plain surname, the key "w surname" is looked up by is the key
      `append` filed `p` under exactly when the surname's last word is the
      word `append` kept: always for one or two words, and for three or more
      only when the last word repeats the second. */
  lemma SurnameKeysAgree(p: Player, w: string, ws: seq<string>)
    requires PlainWords(ws) && p.lastName == Join(ws, " ")
    requires IsWord(w) && w[0] != '.' && |p.firstName| > 0 && w[0] == p.firstName[0]
    ensures LookupKey(w + " " + p.lastName) == InitialKey(p) <==> ws[|ws| - 1] == FiledWord(ws)
    ensures |ws| <= 2 ==> LookupKey(w + " " + p.lastName) == InitialKey(p)
  {
    SurnameKeys(p, w, ws);
    ShortFiledLast(ws);
    SameLead(LookupKey(w + " " + p.lastName), InitialKey(p), [w[0]], ws[|ws| - 1], FiledWord(ws));
  }

  /** Of one or two words, the word `append` keeps is the last. */
  lemma ShortFiledLast(ws: seq<string>)
    requires |ws| > 0
    ensures |ws| <= 2 ==> ws[|ws| - 1] == FiledWord(ws)
  {
  }

  /** Two keys with the same initial are equal exactly when the words after it are. */
  lemma SameLead(k1: Result<string>, k2: Result<string>, c: string, x: string, y: string)
    requires k1 == Ok(c + x) && k2 == Ok(c + y)
    ensures k1 == k2 <==> x == y
  {
    if c + x == c + y {
      assert x == (c + x)[|c|..] == y;
    }
  }

  /** After `append(p)`, a name that is not a full name on the roster and
      whose first word starts with `p`'s initial finds `p` when the surname
      has one or two words. */
  lemma AppendThenGetBySurname(t: Team, p: Player, w: string, ws: seq<string>)
    requires PlainWords(ws) && p.lastName == Join(ws, " ") && |ws| <= 2
    requires IsWord(w) && w[0] != '.' && |p.firstName| > 0 && w[0] == p.firstName[0]
    requires w + " " + p.lastName !in Append(t, p).team.byName
    ensures GetItem(Append(t, p).team, Name(w + " " + p.lastName)) == Ok(p)
  {
    SurnameKeysAgree(p, w, ws);
    AppendThenGetByInitial(t, p, w + " " + p.lastName);
  }

  /** The as-written mismatch: a team holding only `p`, whose surname has
      three or more plain words and a last word other than the second (as in
      "De La Cruz", filed under "La"), does not find `p` by "M. De La Cruz"
      and raises naming the key. */
  lemma LongSurnameMissed(name: string, abbreviation: string, p: Player, w: string, ws: seq<string>)
    requires PlainWords(ws) && p.lastName == Join(ws, " ") && |ws| >= 3 && ws[1] != ws[|ws| - 1]
    requires IsWord(w) && w[0] != '.' && |p.firstName| > 0 && w[0] == p.firstName[0]
    requires w + " " + p.lastName != FullName(p)
    ensures GetItem(Append(EmptyTeam(name, abbreviation), p).team, Name(w + " " + p.lastName))
              == Err(PlayerNotFound(Name(w + " " + p.lastName)))
  {
    SurnameKeys(p, w, ws);
    SameLead(LookupKey(w + " " + p.lastName), InitialKey(p), [w[0]], ws[|ws| - 1], ws[1]);
    AppendAloneMisses(name, abbreviation, p, w + " " + p.lastName);
  }
}

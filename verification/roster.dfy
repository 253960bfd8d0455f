/** Players and the roster of one team: `Player.full_name`, `Team.append`,
    `Team.find_player`, `Team.__contains__` and `Team.__getitem__`.

    A team indexes every player three ways: by MLB id, by full name, and by the
    first initial glued to a normalised last name. A lookup by name tries the
    full name first and falls back to the initial-plus-last-name key, computed
    from the looked-up text after the same suffix clean-up.
 */
module Roster {
  import opened Results
  import opened Text
  import opened Names

  /** The statistics (on-base and slugging percentages, ERA) are floating point
      and take no part in the translation, so they are not kept. */
  datatype Player = Player(lastName: string, firstName: string, mlbId: int, number: Option<int>)

  /** `Player.full_name`: first name, one space, last name. */
  function FullName(p: Player): string {
    p.firstName + " " + p.lastName
  }

  datatype Team = Team(
    name: string,
    abbreviation: string,
    byId: map<int, Player>,            // player_id_dict
    byName: map<string, Player>,       // player_name_dict
    byInitialAndLast: map<string, Player>  // player_last_name_dict
  )

  /** `Team(name, abbreviation)`: a team with an empty roster. */
  function EmptyTeam(name: string, abbreviation: string): (t: Team)
    ensures t.byId == map[] && t.byName == map[] && t.byInitialAndLast == map[]
  {
    Team(name, abbreviation, map[], map[], map[])
  }

  /** A new team finds nobody: every id misses, every name lookup misses or
      raises, so indexing always raises and the team contains nobody. */
  lemma EmptyTeamFindsNobody(name: string, abbreviation: string)
    ensures forall id :: FindPlayer(EmptyTeam(name, abbreviation), Id(id)) == Ok(None)
    ensures forall key :: GetItem(EmptyTeam(name, abbreviation), key).Err?
    ensures forall key :: Has(EmptyTeam(name, abbreviation), key) != Ok(true)
  {
    forall key
      ensures FindPlayer(EmptyTeam(name, abbreviation), key).Ok? ==>
                FindPlayer(EmptyTeam(name, abbreviation), key).value.None?
    {
      EmptyTeamMisses(name, abbreviation, key);
    }
  }

  lemma EmptyTeamMisses(name: string, abbreviation: string, key: PlayerKey)
    ensures FindPlayer(EmptyTeam(name, abbreviation), key).Ok? ==>
              FindPlayer(EmptyTeam(name, abbreviation), key).value.None?
  {
    var t := EmptyTeam(name, abbreviation);
    if key.Name? && LookupKey(key.name).Ok? {
      assert LookupKey(key.name).value !in t.byInitialAndLast;
    }
  }

  // ---------------------------------------------------------------------------
  // Team.append

  /** The last name as `append` indexes it: strip `'. '` and commas and a
      trailing ` Jr`, then ` Sr`, then ` II`, ` III`, ` IV`, write ` St. ` as
      ` St `, and of a name that still holds a blank keep the second word. The
      `split()[1]` can raise `IndexError`. */
  function IndexedLastName(lastName: string): (r: Result<string>)
    // the clean-up never leaves a lone word with a blank, so `[1]` never raises
    ensures r.Ok?
    ensures IsWord(r.value) || !Contains(r.value, " ")
    ensures !Contains(CleanedLastName(lastName), " ") ==> r.value == CleanedLastName(lastName)
    // otherwise the second word: `split()[1]`
    ensures Contains(CleanedLastName(lastName), " ") ==>
              |SplitWs(CleanedLastName(lastName))| >= 2 && r.value == SplitWs(CleanedLastName(lastName))[1]
  {
    var f := CleanedLastName(lastName);
    if Contains(f, " ") then
      StrippedSpaceTwoWords(f);
      var words := SplitWs(f);
      if |words| < 2 then Err(IndexOutOfRange) else Ok(words[1])
    else Ok(f)
  }

  /** The suffix clean-up `append` applies before picking the second word. */
  function CleanedLastName(lastName: string): (r: string)
    ensures Stripped(r)
  {
    var a := SubAtEnd(Replace(StripBlankOrDot(lastName), ",", ""), " Jr");
    var b := SubAtEnd(Replace(StripBlankOrDot(a), ",", ""), " Sr");
    var c := SubAtEnd(Strip(b), " II");
    var d := SubAtEnd(Strip(c), " III");
    var e := SubAtEnd(Strip(d), " IV");
    ReplaceKeepsStripped(Strip(e), " St. ", " St ");
    Replace(Strip(e), " St. ", " St ")
  }

  /** The key of `player_last_name_dict`: `first_name[0] + last_name`. */
  function InitialKey(p: Player): (r: Result<string>)
    ensures r.Ok? <==> |p.firstName| > 0
    ensures r.Ok? ==> r.value == [p.firstName[0]] + IndexedLastName(p.lastName).value
  {
    InitialKeyOf(p, IndexedLastName(p.lastName))
  }

  /** The same key, given the outcome of the last-name clean-up. */
  function InitialKeyOf(p: Player, last: Result<string>): (r: Result<string>)
    ensures r.Ok? <==> |p.firstName| > 0 && last.Ok?
    ensures r.Ok? ==> r.value == [p.firstName[0]] + last.value
  {
    var l :- last;
    if |p.firstName| == 0 then Err(IndexOutOfRange) else Ok([p.firstName[0]] + l)
  }

  /** What `append` leaves behind: the team, and the exception it raised, if
      any. The id and full-name entries are written before `first_name[0]` is
      evaluated, so an empty first name leaves them in place and raises. */
  datatype Appended = Appended(team: Team, raised: Option<Error>)

  /** `Team.append`, given the outcome of the last-name clean-up. */
  function AppendIndexed(t: Team, p: Player, last: Result<string>): (r: Appended)
    // a failing last-name clean-up raises before any entry is written
    ensures last.Err? ==> r == Appended(t, Some(IndexOutOfRange))
    // otherwise the id and full-name entries now point at `p`, the others are kept
    ensures last.Ok? ==> r.team.byId == t.byId[p.mlbId := p] && r.team.byName == t.byName[FullName(p) := p]
    // the third entry is written exactly when the first name has an initial
    ensures last.Ok? ==> (r.raised.None? <==> |p.firstName| > 0)
    ensures r.raised.None? ==>
              (|p.firstName| > 0 && last.Ok?
               && r.team.byInitialAndLast == t.byInitialAndLast[[p.firstName[0]] + last.value := p])
    ensures r.raised.Some? ==> r.team.byInitialAndLast == t.byInitialAndLast && r.raised == Some(IndexOutOfRange)
    ensures r.team.name == t.name && r.team.abbreviation == t.abbreviation
  {
    match last
    case Err(_) => Appended(t, Some(IndexOutOfRange))
    case Ok(l) =>
      var t1 := t.(byId := t.byId[p.mlbId := p], byName := t.byName[FullName(p) := p]);
      if |p.firstName| == 0 then Appended(t1, Some(IndexOutOfRange))
      else Appended(t1.(byInitialAndLast := t.byInitialAndLast[[p.firstName[0]] + l := p]), None)
  }

  /** `Team.append`. */
  function Append(t: Team, p: Player): (r: Appended)
    ensures r.raised.None? ==> InitialKey(p).Ok? && InitialKey(p).value in r.team.byInitialAndLast
  {
    var last := IndexedLastName(p.lastName);
    assert InitialKey(p) == InitialKeyOf(p, last);
    AppendIndexed(t, p, last)
  }

  // ---------------------------------------------------------------------------
  // Team.find_player

  /** The fallback key `find_player` computes from a name that is not a full
      name on the roster: strip `' .'` and a trailing ` Jr`, then ` Sr`, then
      ` II`, ` III`, ` IV`, apply `strip_suffixes`, and glue the first character
      to the last word. `[0]` and `split()[-1]` can raise `IndexError`. */
  function LookupKey(name: string): (r: Result<string>)
    // it raises exactly when nothing but whitespace is left after the clean-up
    ensures r.Ok? <==> !AllSpace(CleanedLookupName(name))
    // the first character of the cleaned name, then one whole word
    ensures r.Ok? ==> |r.value| >= 2 && r.value[0] == CleanedLookupName(name)[0] && IsWord(r.value[1..])
    // the word is the last one: `split()[-1]`
    ensures r.Ok? ==> LastWordOf(CleanedLookupName(name), r.value[1..])
  {
    var f := CleanedLookupName(name);
    if |f| == 0 then Err(IndexOutOfRange)
    else
      var words := SplitWs(f);
      if |words| == 0 then Err(IndexOutOfRange)
      else
        var last := words[|words| - 1];
        var key := [f[0]] + last;
        assert IsWord(last) && key[0] == f[0] && key[1..] == last;
        assert LastWordOf(f, key[1..]);
        Ok(key)
  }

  /** `w` is `s.split()[-1]`. */
  predicate LastWordOf(s: string, w: string) {
    var words := SplitWs(s);
    |words| > 0 && w == words[|words| - 1]
  }

  /** The suffix clean-up `find_player` applies before forming the fallback key. */
  function CleanedLookupName(name: string): string {
    var a := SubAtEnd(StripBlankOrDot(name), " Jr");
    var b := SubAtEnd(StripBlankOrDot(a), " Sr");
    var c := SubAtEnd(Strip(b), " II");
    var d := SubAtEnd(Strip(c), " III");
    var e := SubAtEnd(Strip(d), " IV");
    StripSuffixes(Strip(e))
  }

  /** `Team.find_player`: `Ok(None)` when nobody matches. */
  function FindPlayer(t: Team, key: PlayerKey): (r: Result<Option<Player>>)
    ensures key.Id? ==> r.Ok? && (r.value.Some? <==> key.id in t.byId)
    ensures key.Id? && key.id in t.byId ==> r.value == Some(t.byId[key.id])
    ensures key.Name? && key.name in t.byName ==> r == Ok(Some(t.byName[key.name]))
    ensures key.Name? && key.name !in t.byName ==>
              match LookupKey(key.name)
              case Err(e) => r == Err(e)
              case Ok(k) => r.Ok? && (r.value.Some? <==> k in t.byInitialAndLast)
                            && (r.value.Some? ==> r.value.value == t.byInitialAndLast[k])
  {
    match key
    case Id(id) => Ok(if id in t.byId then Some(t.byId[id]) else None)
    case Name(name) =>
      if name in t.byName then Ok(Some(t.byName[name]))
      else
        var k :- LookupKey(name);
        Ok(if k in t.byInitialAndLast then Some(t.byInitialAndLast[k]) else None)
  }

  /** `Team.__contains__`: a player object is always truthy. */
  function Has(t: Team, key: PlayerKey): (r: Result<bool>)
    ensures r.Ok? <==> FindPlayer(t, key).Ok?
    ensures r.Ok? ==> (r.value <==> FindPlayer(t, key).value.Some?)
  {
    var found :- FindPlayer(t, key);
    Ok(found.Some?)
  }

  /** `Team.__getitem__`: the player, or `ValueError` naming the key. */
  function GetItem(t: Team, key: PlayerKey): (r: Result<Player>)
    ensures FindPlayer(t, key).Err? ==> r == Err(FindPlayer(t, key).error)
    ensures FindPlayer(t, key) == Ok(None) ==> r == Err(PlayerNotFound(key))
    ensures r.Ok? <==> FindPlayer(t, key).Ok? && FindPlayer(t, key).value.Some?
    ensures r.Ok? ==> FindPlayer(t, key).value == Some(r.value)
  {
    var found :- FindPlayer(t, key);
    match found
    case None => Err(PlayerNotFound(key))
    case Some(p) => Ok(p)
  }

  // ---------------------------------------------------------------------------
  // Round trips

  /** After `append(p)`, `team[p.mlb_id]` is `p`. */
  lemma AppendThenGetById(t: Team, p: Player)
    ensures GetItem(Append(t, p).team, Id(p.mlbId)) == Ok(p)
    ensures Has(Append(t, p).team, Id(p.mlbId)) == Ok(true)
  {
  }

  /** After `append(p)`, `team[p.full_name()]` is `p`. */
  lemma AppendThenGetByFullName(t: Team, p: Player)
    ensures GetItem(Append(t, p).team, Name(FullName(p))) == Ok(p)
  {
  }

  /** `append` leaves every other id where it was. */
  lemma AppendKeepsOtherIds(t: Team, p: Player, id: int)
    requires id != p.mlbId
    ensures FindPlayer(Append(t, p).team, Id(id)) == FindPlayer(t, Id(id))
  {
    AppendIndexedKeepsOtherIds(t, p, id, IndexedLastName(p.lastName));
  }

  lemma AppendIndexedKeepsOtherIds(t: Team, p: Player, id: int, last: Result<string>)
    requires id != p.mlbId
    ensures FindPlayer(AppendIndexed(t, p, last).team, Id(id)) == FindPlayer(t, Id(id))
  {
  }

  /** A name that is not a full name on the roster still finds `p` when its
      fallback key is the key `append` filed `p` under. */
  lemma AppendThenGetByInitial(t: Team, p: Player, name: string)
    requires Append(t, p).raised.None?
    requires name !in Append(t, p).team.byName
    requires LookupKey(name) == InitialKey(p)
    ensures GetItem(Append(t, p).team, Name(name)) == Ok(p)
  {
  }

  /** A surname `append` and `find_player` both keep as it is: one word, with
      no comma or period, that is not a suffix and does not start like one. */
  predicate PlainSurname(l: string) {
    IsWord(l) && ',' !in l && '.' !in l && l != "Jr" && l != "Sr"
    && !(|l| >= 2 && (l[..2] == "II" || l[..2] == "IV"))
  }

  /** `append` indexes a plain surname as it is. */
  lemma PlainLastNameIndexed(l: string)
    requires PlainSurname(l)
    ensures CleanedLastName(l) == l && IndexedLastName(l) == Ok(l)
  {
    TrimByKeeps(l, IsBlankOrDot);
    MissingCharAbsent(l, ",", 0);
    ReplaceAbsent(l, ",", "");
    StripStripped(l);
    PlainNoEndings(l);
    var a := SubAtEnd(Replace(StripBlankOrDot(l), ",", ""), " Jr");
    assert a == l;
    var b := SubAtEnd(Replace(StripBlankOrDot(a), ",", ""), " Sr");
    assert b == l;
    var c := SubAtEnd(Strip(b), " II");
    var d := SubAtEnd(Strip(c), " III");
    var e := SubAtEnd(Strip(d), " IV");
    assert e == l;
    MissingCharAbsent(l, " St. ", 0);
    ReplaceAbsent(l, " St. ", " St ");
    MissingCharAbsent(l, " ", 0);
  }

  /** A single word ends with none of the blank-led suffixes. */
  lemma PlainNoEndings(l: string)
    requires IsWord(l)
    ensures SubAtEnd(l, " Jr") == l && SubAtEnd(l, " Sr") == l
    ensures SubAtEnd(l, " II") == l && SubAtEnd(l, " III") == l && SubAtEnd(l, " IV") == l
  {
    NoSpacedEnding(l, |l|, " Jr");
    NoSpacedEnding(l, |l|, " Sr");
    NoSpacedEnding(l, |l|, " II");
    NoSpacedEnding(l, |l|, " III");
    NoSpacedEnding(l, |l|, " IV");
  }

  /** A pattern that starts with a blank and has a character the surname lacks
      cannot occur in "w l". */
  lemma NotAfterBlank(w: string, l: string, pat: string, m: nat)
    requires IsWord(w) && IsWord(l)
    requires 1 <= m < |pat| && pat[0] == ' ' && pat[m] !in l
    ensures !Contains(w + " " + l, pat)
  {
    var s := w + " " + l;
    if |w| + |pat| <= |s| {
      assert s[|w|..|w| + |pat|][m] == l[m - 1];
    }
    SpaceOnlyAt(s, |w|, pat);
  }

  /** "w l", a word and a plain surname, has none of the suffix markers. */
  lemma TwoWordsNoMarkers(w: string, l: string)
    requires IsWord(w) && PlainSurname(l)
    ensures NoSuffixMarkers(w + " " + l)
  {
    var s := w + " " + l;
    NotAfterBlank(w, l, " Jr.", 3);
    NotAfterBlank(w, l, " Sr.", 3);
    NotAfterBlank(w, l, " St. ", 3);
    if |w| + 3 <= |s| {
      assert s[|w|..|w| + 3][1..] == l[..2];
    }
    SpaceOnlyAt(s, |w|, " II");
    SpaceOnlyAt(s, |w|, " IV");
  }

  /** "w l" has its only blank between the two words and no period at either end. */
  lemma TwoWordsLayout(w: string, l: string, s: string)
    requires IsWord(w) && w[0] != '.' && PlainSurname(l) && s == w + " " + l
    ensures forall k :: 0 <= k < |s| && IsSpace(s[k]) ==> k == |w|
    ensures s[|w| + 1..] == l && Stripped(s)
    ensures !IsBlankOrDot(s[0]) && !IsBlankOrDot(s[|s| - 1])
  {
    assert forall k :: 0 <= k < |w| ==> s[k] == w[k];
    assert forall k :: |w| < k < |s| ==> s[k] == l[k - |w| - 1];
  }

  /** None of the five suffix endings `find_player` removes ends "w l". */
  lemma TwoWordsNoEndings(w: string, l: string, s: string)
    requires IsWord(w) && w[0] != '.' && PlainSurname(l) && s == w + " " + l
    ensures SubAtEnd(s, " Jr") == s && SubAtEnd(s, " Sr") == s
    ensures SubAtEnd(s, " II") == s && SubAtEnd(s, " III") == s && SubAtEnd(s, " IV") == s
  {
    TwoWordsLayout(w, l, s);
    NoSpacedEnding(s, |w|, " Jr");
    NoSpacedEnding(s, |w|, " Sr");
    NoSpacedEnding(s, |w|, " II");
    NoSpacedEnding(s, |w|, " III");
    NoSpacedEnding(s, |w|, " IV");
  }

  /** `find_player`'s clean-up leaves "w l" as it is. */
  lemma TwoWordsCleaned(w: string, l: string)
    requires IsWord(w) && w[0] != '.' && PlainSurname(l)
    ensures CleanedLookupName(w + " " + l) == w + " " + l
  {
    var s := w + " " + l;
    TwoWordsLayout(w, l, s);
    TrimByKeeps(s, IsBlankOrDot);
    StripStripped(s);
    TwoWordsNoEndings(w, l, s);
    var a := SubAtEnd(StripBlankOrDot(s), " Jr");
    assert a == s;
    var b := SubAtEnd(StripBlankOrDot(a), " Sr");
    assert b == s;
    var c := SubAtEnd(Strip(b), " II");
    assert c == s;
    var d := SubAtEnd(Strip(c), " III");
    assert d == s;
    var e := SubAtEnd(Strip(d), " IV");
    assert e == s;
    TwoWordsNoMarkers(w, l);
    StripSuffixesClean(s);
  }

  /** The fallback key of "w l" is the first character of `w` glued to `l`. */
  lemma LookupKeyTwoWords(w: string, l: string)
    requires IsWord(w) && w[0] != '.' && PlainSurname(l)
    ensures LookupKey(w + " " + l) == Ok([w[0]] + l)
  {
    TwoWordsCleaned(w, l);
    SplitWsTwo(w, l);
  }

  /** After `append(p)`, "J. Smith" and "J Smith" (any first word starting
      with the first name's initial, before a plain surname) find `p` when
      they are not a full name on the roster. */
  lemma AppendThenGetByInitialName(t: Team, p: Player, w: string)
    requires PlainSurname(p.lastName) && |p.firstName| > 0
    requires IsWord(w) && w[0] != '.' && w[0] == p.firstName[0]
    requires w + " " + p.lastName !in Append(t, p).team.byName
    ensures GetItem(Append(t, p).team, Name(w + " " + p.lastName)) == Ok(p)
  {
    PlainLastNameIndexed(p.lastName);
    LookupKeyTwoWords(w, p.lastName);
    AppendThenGetByInitial(t, p, w + " " + p.lastName);
  }

  /** A later `append` of a player with the same id (or the same full name)
      replaces the earlier one. */
  lemma AppendOverwrites(t: Team, p: Player, q: Player)
    ensures p.mlbId == q.mlbId ==> GetItem(Append(Append(t, p).team, q).team, Id(p.mlbId)) == Ok(q)
    ensures FullName(p) == FullName(q) ==>
              GetItem(Append(Append(t, p).team, q).team, Name(FullName(p))) == Ok(q)
  {
    AppendThenGetById(Append(t, p).team, q);
    AppendThenGetByFullName(Append(t, p).team, q);
  }

  /** With neither the full name nor the fallback key on the roster, the
      lookup finds nobody, the team does not contain the name, and indexing
      raises naming the key. */
  lemma MissGivesNotFound(t: Team, name: string)
    requires name !in t.byName
    requires LookupKey(name).Ok? && LookupKey(name).value !in t.byInitialAndLast
    ensures FindPlayer(t, Name(name)) == Ok(None)
    ensures Has(t, Name(name)) == Ok(false)
    ensures GetItem(t, Name(name)) == Err(PlayerNotFound(Name(name)))
  {
  }

  /** On a team holding only `p`, a name other than `p`'s full name whose
      fallback key is not the key `p` was filed under finds nobody. */
  lemma AppendAloneMisses(name: string, abbreviation: string, p: Player, n: string)
    requires n != FullName(p) && |p.firstName| > 0
    requires LookupKey(n).Ok? && LookupKey(n) != InitialKey(p)
    ensures GetItem(Append(EmptyTeam(name, abbreviation), p).team, Name(n)) == Err(PlayerNotFound(Name(n)))
  {
    var t := Append(EmptyTeam(name, abbreviation), p).team;
    assert t.byName == map[FullName(p) := p];
    assert t.byInitialAndLast == map[InitialKey(p).value := p];
    MissGivesNotFound(t, n);
  }
}

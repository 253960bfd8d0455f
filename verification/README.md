# Plate-appearance translator, modelled in Dafny

This project models the part of the `baseball` package that turns one
free-text MLB play description into scorecard notation. An example is
"Francisco Lindor grounds out, shortstop Andrelton Simmons to first baseman
Albert Pujols.", which becomes `G6-3`. It also models the roster that resolves
the names in such a description. Every operation is a pure function over
`seq<char>`. A Python exception becomes an `Err` of the `Results.Error`
datatype, and the model reports the exception the source would raise first.

The modules follow the source's structure:

- `Results` — `Option`, `Result`, the errors (`ValueError` kinds, `IndexError`, `KeyError`), and `MapAll`, a loop that stops at the first raise.
- `Text` — the Python `str` operations the translator uses (`in`, `find`,
  `split`, `split()`, `strip`, `replace`, `join`, anchored `re.sub`), with
  Python's whitespace set.
- `Scan` — regular-expression search and `findall`, over a per-position matcher.
- `Tables` — `POSITION_CODE_DICT`, `ON_BASE_SUMMARY_DICT`,
  `PLAY_CODE_ORDERED_DICT`, `NO_HIT_CODE_LIST` and `INCREMENT_BASE_DICT`.
- `Names` — `fix_initials`, `strip_this_suffix`, `strip_suffixes` and the
  description normalisation of the script's constructor.
- `Roster` — `Player.full_name`, and `Team.append`, `find_player`,
  `__contains__` and `__getitem__`.
- `Surnames` — what `append` and `find_player` make of surnames of one or
  more words, with and without a generational suffix or " St. ".
- `Defense` — the defensive chain: `get_defense_predicate_list`,
  `get_defense_player_order`, `process_defense_predicate_list`,
  `get_defense_code_order` and `get_defense_suffix`.
- `ChainLaws` — round trips of the chain rule: phrases joined the way a
  description joins them come back out, and reach the position codes.
- `Runners` — `get_out_runners_list`, including the doubled-off base increment.
- `RunnerText` and `RunnerLaws` — the runner-out sentence "First Last doubled
  off b" read back through `get_out_runners_list`.
- `Plays` — `get_throws_str`, `get_play_str`, the hit location, `get_error_str`
  and `get_on_base_and_summary`.
- `PlateAppearances` — the two `PlateAppearance` constructors: the package's
  in `baseball/baseball.py` and the top-level script's in `baseball.py`.

Each regular expression is a hand-written matcher for its pattern exactly as
written. Every greedy run in these patterns is followed by a character of a
disjoint class, so backtracking never changes a match, and each matcher takes
runs maximally. The runner pattern's two optional middle names are tried
present first, as the regex engine does.

Four as-written behaviours are kept on purpose:

- The out-clause pattern of `get_defense_suffix` has no blank between the out
  phrase and the base class `[1-3,h]`, so "out at 2nd, " does not match it.
  `Defense.SpacedPhrasesNoSuffix` proves that such a suffix yields "".
- `split(': ')[1]` keeps only the text between the first and the second ": ".
- `append` files the initial key under the second word of the cleaned last
  name (`split()[1]`), while `find_player` builds its key from the last word
  (`split()[-1]`). `Surnames.SurnameKeysAgree` proves they agree exactly when
  the second word is the last one, so always for one- and two-word last names.
  `Surnames.LongSurnameMissed` proves that "M. De La Cruz" is filed under
  "MLa", looked up as "MCruz" and not found. For the same reason a surname
  "a St. b" is filed under "St" (`Surnames.SaintRewritten`).
- `strip_this_suffix` makes one pass of its loop and then deletes every other
  occurrence of the suffix. A deletion can join two pieces into a new suffix
  before a capital: `Names.SuffixCanReappear` shows "A J Jr.r. X" coming out
  as "A Jr. X".

The two source files share the chain resolver, the keyword classifier and the
table values, so those are modelled once. Where the files differ, the model
has both versions:

- `Plays.ThrowsOf` and `Plays.ThrowsOfScript` differ in `fix_initials`.
- The script's constructor normalises the description (`Names.NormalizeDescription`).
- The script's constructor is handed the out runners.

## Model

| member | source | states |
|---|---|---|
| Names.InitialPairAt | baseball.py:11 | `[A-Z]\.\s+[A-Z]\.\s+` matches at a position exactly when a capital, a period, a whole whitespace run, a capital, a period and a whole whitespace run start there, and the match ends after the second run |
| Names.InitialDotAt | baseball.py:22 | `[A-Z]\.\s+[A-Z]` matches at a position exactly when a capital, a period, a whole whitespace run and a capital start there, and the match ends just past that capital |
| Names.DotSpacesAt | baseball.py:383-385 | `\.\s+` matches at a position exactly when a period followed by whitespace starts there, and the match takes the whole whitespace run |
| Names.CollapsedMiddle | baseball.py:17-18 | removing every `\.\s+` from a pair match leaves exactly the two capitals |
| Names.CollapsePairStep | baseball.py:13-19 | one step of the first loop keeps the text around the match, writes the two letters and one blank, and shrinks the string by at least 3 |
| Names.CollapsePairs | baseball.py:11-21 | the first loop ends with no pair match left and never lengthens the string |
| Names.DropDotStep | baseball.py:24-29 | one step of the second loop removes the period of the match and strips, so the string strictly shrinks |
| Names.NoPeriodInSpacedLetter | baseball.py:27 | the whitespace and the capital after the matched period hold no other period, so `replace('.', '')` removes exactly one |
| Names.DropInitialDots | baseball.py:22-30 | the second loop ends with no `[A-Z]\.\s+[A-Z]` left and never lengthens the string |
| Names.FixInitials | baseball.py:10-32 | the result has no occurrence of `[A-Z]\.\s+[A-Z]` and is no longer than the input |
| Names.FixInitialsFixes | baseball.py:10-32 | a string with no `[A-Z]\.\s+[A-Z]` is returned unchanged, because neither loop fires |
| Names.FixInitialsIdempotent | baseball.py:10-32 | `fix_initials` applied to its own output changes nothing |
| Names.SuffixBeforeCapitalAt | baseball/baseball.py:128-129 | ` Jr\.\s+[A-Z]` (or ` Sr\.`) matches at a position exactly when the suffix, a whole whitespace run and a capital start there, and the match ends just past the capital |
| Names.PeriodForSuffixStep | baseball/baseball.py:114-121 | one loop step turns the 4-character suffix into "." and shrinks the string by 3 |
| Names.NoSuffixWithoutPeriod | baseball/baseball.py:118 | a text without a period holds no " Jr." or " Sr." |
| Names.NoSuffixMatchLeft | baseball/baseball.py:121 | when `search` finds nothing, no position starts a suffix match |
| Names.PeriodsForSuffix | baseball/baseball.py:113-121 | the loop ends with no suffix match left and never lengthens the string |
| Names.StripThisSuffix | baseball/baseball.py:112-125 | the result carries no leading or trailing whitespace and is no longer than the input |
| Names.StripThisSuffixAbsent | baseball/baseball.py:123-125 | on a text without the suffix, `strip_this_suffix` is just `strip()` |
| Names.StripFinalSuffix | baseball/baseball.py:112-125 | a suffix that ends the text is not before a capital, so it is deleted and the text before it is stripped |
| Names.StripSuffixBeforeCapital | baseball/baseball.py:112-125 | a suffix followed by whitespace and a capital becomes a period: "Acuna Jr. Lines out" reads "Acuna. Lines out" |
| Names.SuffixCanReappear | baseball/baseball.py:112-125 | the final deletion can create a suffix before a capital that the loop has passed: "A J Jr.r. X" gives "A Jr. X" |
| Names.StripSuffixes | baseball/baseball.py:127-135 | the result is never longer than the input |
| Names.NoSuffixMarkersSlice | baseball/baseball.py:130-133 | a slice of a text free of the suffix markers is free of them too |
| Names.PlainSubstitutionsClean | baseball/baseball.py:130-133 | the four plain substitutions leave a text without their patterns unchanged |
| Names.StripSuffixesClean | baseball/baseball.py:127-135 | on a text with no suffix markers, `strip_suffixes` is just `strip()` |
| Names.SubDotSpacesSpacing | baseball.py:383-385 | after the substitution every period followed by whitespace is followed by one blank and then a non-blank or the end, and the first character is kept |
| Names.StripSpacing | baseball.py:387 | `strip()` turns that spacing into "every such period is followed by exactly one blank and a non-blank" |
| Names.NormalizeDescription | baseball.py:379-387 | the constructor's description is stripped, and every period followed by whitespace is followed by exactly one blank |
| Scan.Search | baseball/baseball.py:572-578 | `re.search` returns the leftmost position where the pattern matches, or nothing when it matches nowhere |
| Scan.FindAllFrom | baseball/baseball.py:591-599 | `findall` returns matches in order, each a match of the pattern at its start, each starting at or after the end of the previous one |
| Scan.FindAllComplete | baseball/baseball.py:591-599 | every position where the pattern matches lies inside one of the matches `findall` returns |
| Roster.EmptyTeamFindsNobody | baseball/baseball.py:224-264 | on a new team every id misses, indexing by any key raises, and the team contains nobody |
| Roster.IndexedLastName | baseball/baseball.py:267-277 | `split()[1]` never raises, because the cleaned last name is stripped, so a blank inside it means two words. A cleaned name with a blank is indexed under its second word, and one without a blank is kept whole |
| Roster.CleanedLastName | baseball/baseball.py:267-275 | the cleaned last name has no leading or trailing whitespace, since the " St. " substitution keeps the stripped ends |
| Roster.InitialKey | baseball/baseball.py:281 | the third key exists exactly when the first name is non-empty, and is the first name's initial followed by the indexed last name |
| Roster.AppendIndexed | baseball/baseball.py:266-281 | `append` files the player by id and full name, and by initial plus last name unless `first_name[0]` raises. The first two entries stay written when it raises, and a failing last-name clean-up writes nothing |
| Roster.Append | baseball/baseball.py:266-281 | after an `append` that does not raise, the player's initial key is on the roster |
| Roster.LookupKey | baseball/baseball.py:245-255 | the fallback key exists exactly when the cleaned name is not all whitespace. It is the cleaned name's first character followed by its last word |
| Roster.FindPlayer | baseball/baseball.py:235-264 | an id is looked up directly, and a name by full name first and then by its fallback key. A missing key gives None, and a fallback key that cannot be formed raises |
| Roster.Has | baseball/baseball.py:283-284 | `in` holds exactly when `find_player` finds someone |
| Roster.GetItem | baseball/baseball.py:286-291 | indexing returns the player found, and turns None into a "not found" error naming the key |
| Roster.AppendThenGetById | baseball/baseball.py:235-281 | after `append(p)`, `team[p.mlb_id]` is `p` and the team contains that id |
| Roster.AppendThenGetByFullName | baseball/baseball.py:235-281 | after `append(p)`, `team[p.full_name()]` is `p` |
| Roster.AppendKeepsOtherIds | baseball/baseball.py:279 | `append` leaves every other id's lookup unchanged |
| Roster.AppendThenGetByInitial | baseball/baseball.py:242-281 | a name not on the roster whose fallback key is `p`'s initial key finds `p` |
| Roster.PlainLastNameIndexed | baseball/baseball.py:266-277 | a one-word surname with no comma, period or suffix shape is indexed as it is |
| Roster.TwoWordsCleaned | baseball/baseball.py:245-251 | `find_player`'s clean-up leaves "w l", a word and a plain surname, unchanged |
| Roster.LookupKeyTwoWords | baseball/baseball.py:245-255 | the fallback key of "w l" is the first character of `w` followed by `l` |
| Roster.AppendThenGetByInitialName | baseball/baseball.py:235-281 | after `append(p)`, "J. Smith" or "J Smith" (any first word that starts with the first name's initial, before a plain surname) finds `p` unless it is itself a full name on the roster |
| Roster.AppendOverwrites | baseball/baseball.py:279-280 | a later append with the same id or the same full name replaces the earlier player |
| Roster.AppendAloneMisses | baseball/baseball.py:235-291 | on a team holding only `p`, a name that is not `p`'s full name and whose fallback key differs from `p`'s initial key is not found |
| Surnames.SuffixDropped | baseball/baseball.py:266-274 | a surname of plain words followed by " Jr", " Sr", " II", " III" or " IV" is cleaned to the words alone |
| Surnames.PlainSurnameCleaned | baseball/baseball.py:266-275 | a surname of plain words, one or more words without comma, period or suffix, comes through the clean-up unchanged |
| Surnames.SuffixedFiled | baseball/baseball.py:266-277 | such a surname is filed under its second word, or its only word, as if the suffix were absent |
| Surnames.SaintRewritten | baseball/baseball.py:275-277 | the clean-up rewrites "a St. b" to "a St b", which is then filed under "St" |
| Surnames.PlainSurnameFiled | baseball/baseball.py:266-277 | a surname of plain words is kept whole and filed under its second word, or its only word |
| Surnames.NameLookupKey | baseball/baseball.py:245-254 | "w" followed by a surname of plain words is looked up under the initial of `w` and the surname's last word |
| Surnames.SurnameKeysAgree | baseball/baseball.py:245-281 | the lookup key of "w surname" equals the key `append` files exactly when the surname's last word is its filed word, so always for one or two words |
| Surnames.AppendThenGetBySurname | baseball/baseball.py:235-291 | after `append(p)`, "J. De Jong" (a first word with the initial, then a surname of one or two plain words) finds `p`, unless that name is itself a full name on the roster |
| Surnames.LongSurnameMissed | baseball/baseball.py:235-291 | with three or more words whose second and last differ, "M. De La Cruz" is not found on a team that holds only that player, when it is not the player's full name |
| Roster.MissGivesNotFound | baseball/baseball.py:283-291 | with neither key present, the lookup gives None, `in` is false, and indexing raises |
| Defense.ChainRule | baseball/baseball.py:531-549 | the cascade of the chain rule: a stop phrase gives `[]`, then "catcher interference by" gives `["catcher"]`, then "fielded by" keeps the text after the first " fielded by ", then comma plus " to " splits the text after the first ", " at " to ", then " to " drops the part before the first " to ", and otherwise `[]`. It raises `IndexError` exactly when "fielded by" is reached and lacks a blank on either side |
| Defense.DefensePredicates | baseball/baseball.py:550-554 | "error by" in the text left by the cascade replaces the list with the one phrase after the first " error by ", and raises when there is no blank on either side. Without it the cascade's list stands |
| Defense.FielderWord | baseball/baseball.py:519-525 | `split()[0]` raises `IndexError` exactly when the phrase is blank after dropping "deep" and "shallow". Otherwise the fielder word is free of whitespace and of '-' |
| Defense.DepthWordOnly | baseball/baseball.py:519-525 | the phrase "deep" or "shallow" alone raises `IndexError` |
| Defense.FielderWordPlain | baseball/baseball.py:525 | a phrase that starts with a plain word, without "deep" or "shallow", yields that word |
| Defense.FielderWordDeep | baseball/baseball.py:519-525 | "deep" before a plain word is dropped: "deep left" yields "left" |
| Defense.FielderWordHyphen | baseball/baseball.py:525 | the first word is cut at its first '-': "left-center field" yields "left" |
| Defense.FielderWordsPlain | baseball/baseball.py:516-528 | a list of plain fielder words comes through `get_defense_player_order` unchanged |
| Defense.BeforeHyphen | baseball/baseball.py:525 | `split('-')[0]` is the prefix before the first '-', or the whole word when it holds none |
| Results.MapAll | baseball/baseball.py:516-528 | a loop appending one result per element fails exactly when one element does, with the first failing element's error. Otherwise it holds each element's result, in order |
| Defense.FielderWords | baseball/baseball.py:516-528 | `get_defense_player_order` maps each phrase to its fielder word, in order, and fails exactly when one phrase does |
| Defense.PositionNumberRange | baseball/baseball.py:15-24 | every position number is between 1 and 10 |
| Defense.PositionCode | baseball/baseball.py:503-506 | `str(POSITION_CODE_DICT[w])` is one of "1".."10" |
| Defense.Fielders | baseball/baseball.py:500-513 | the kept words are the known fielders, never more than the input |
| Defense.PositionCodes | baseball/baseball.py:500-513 | it succeeds exactly when every word is a fielder or a base name after stripping " .". The first other word raises naming it. The output is at most as long as the input, and every element is one of "1".."10" |
| Defense.PositionCodesAreFielderCodes | baseball/baseball.py:500-513 | on success the output is the codes of the fielder words, in input order |
| Defense.PositionCodesConcat | baseball/baseball.py:500-513 | processing a concatenation is the concatenation of the two results |
| Defense.BaseNameDropped | baseball/baseball.py:507-511 | a "1st", "2nd" or "3rd" token contributes nothing to the output |
| Defense.CodeOrder | baseball/baseball.py:556-568 | the code order has at most one code per phrase of the chain, each one of "1".."10". A chain error is passed on, and a blank fielder phrase raises `IndexError` |
| ChainLaws.CommaToChain | baseball/baseball.py:531-545 | a lead, ", " and phrases joined by " to " give back exactly those phrases, with the joined text as the text left |
| ChainLaws.QuietRest | baseball/baseball.py:550-554 | when the text left by the cascade holds no "error by", the cascade's list is the result |
| ChainLaws.CommaToPredicates | baseball/baseball.py:531-554 | the same round trip holds for `get_defense_predicate_list` when the phrases do not mention "error by" |
| ChainLaws.ToChain | baseball/baseball.py:546-547 | phrases joined by " to ", without ", ", give back every phrase after the first |
| ChainLaws.FieldersAll | baseball/baseball.py:500-513 | a list of known fielders is kept whole |
| ChainLaws.PlainCodes | baseball/baseball.py:500-528 | plain fielder words map to themselves and then to their position codes, in order |
| ChainLaws.WordsClear | baseball/baseball.py:543-544 | phrases that are single words split back at " to " |
| ChainLaws.CommaChainCodes | baseball/baseball.py:531-568 | "grounds out, shortstop to second to first" and every text of that shape give the code order of the named fielders |
| ChainLaws.SixFourThree | baseball/baseball.py:15-24 | shortstop, second and first are coded 6, 4, 3 |
| Defense.BaseClauseAt | baseball/baseball.py:576 | `[1-3,h][snro][tdm][e]?[\w\s]*, ` matches exactly when a base character, an "snro" character, a "tdm" character and a run of word or space characters are followed by ", ", and the match ends after that ", " |
| Defense.OutClauseFrom | baseball/baseball.py:573-576 | the out clause matches at a position exactly when one of the out phrases is followed there by the base clause |
| Defense.DefenseSuffix | baseball/baseball.py:570-587 | no match gives "". Otherwise the result is " (" + the code order of the text from the match on, joined by "-", + ")" |
| ChainLaws.OutAtSuffix | baseball/baseball.py:570-587 | "out at2nd, p1 to ... to pn" gives the suffix " (c1-...-cn)" of the fielders' position codes |
| Defense.SpacedPhrasesNoSuffix | baseball/baseball.py:572-577 | when every out phrase is followed by a blank, as in "out at 2nd", the pattern never matches and the suffix is "" |
| Runners.TokenAt | baseball/baseball.py:592-593 | a name token matches exactly when a lead character is followed by a character of `[\w'-]`, and it ends where that run ends |
| Runners.BlanksAt | baseball/baseball.py:592-593 | `\s+` matches exactly at whitespace and takes the whole run |
| Runners.NameAt | baseball/baseball.py:592-593 | a name group that matches starts with a capital, holds a blank, uses only name characters, commas and whitespace, and ends where a name token ends |
| Runners.BaseWordAt | baseball/baseball.py:597 | ` +(\w+)` matches exactly when blanks are followed by word characters, and captures the whole run of word characters |
| Runners.PhraseBaseFrom | baseball/baseball.py:594-597 | after the name, an out phrase matches exactly when one of the phrases is followed by a base word |
| Runners.RunnerAt | baseball/baseball.py:591-599 | the runner pattern matches at a position exactly when one of the four middle-name choices does, and the first choice that works gives the name and base spans |
| Runners.FindRunners | baseball/baseball.py:591-599 | `findall` yields non-overlapping runner matches in order, each one a match at its start |
| Runners.FindRunnersComplete | baseball/baseball.py:591-599 | every position where a runner match starts is covered by one of the matches found |
| Runners.RecordedBase | baseball/baseball.py:602-605 | a doubled-off runner's base is incremented, and raises when it is not 1st, 2nd or 3rd. Every other runner keeps the captured base |
| Runners.DoubledOffAdvances | baseball/baseball.py:603-605 | a runner doubled off 1st, 2nd or 3rd is recorded at 2nd, 3rd or home |
| Runners.OtherOutKeepsBase | baseball/baseball.py:603-607 | a runner out any other way is recorded at the captured base |
| Runners.ResolveRunner | baseball/baseball.py:602-608 | one match becomes the team's player named by the match and the recorded base. The base is decided before the name is looked up, so its error comes first |
| Runners.ResolveRunners | baseball/baseball.py:601-611 | one pair per match, in order, each the one `ResolveRunner` gives. The list exists exactly when every match resolves |
| RunnerLaws.DoubledOffFoundIn | baseball/baseball.py:591-599 | in "First Last doubled off b", `findall` finds exactly one match: the whole name and the base word |
| RunnerLaws.DoubledOffResolved | baseball/baseball.py:601-611 | that match resolves to the player filed under the name, recorded at the base after `b` |
| RunnerLaws.DoubledOffRunner | baseball/baseball.py:589-611 | `get_out_runners_list` of "n1 n2 doubled off b" is one out runner: the player named "n1 n2", at the base after `b` |
| Runners.OutRunners | baseball/baseball.py:589-611 | the out-runner list has one entry per runner match in the suffix-stripped description |
| Plays.Segment | baseball/baseball.py:614-627 | the suffix is everything after the first ". ", or "". The primary clause is the text before the first ". ", cut at the first ", deflected" and the first ", assist", then the segment after the first ": ". It is free of all three markers |
| Plays.SegmentShape | baseball/baseball.py:619-627 | "a: b, assist x" has primary clause `b` |
| Plays.CutAt | baseball/baseball.py:620-624 | `split(marker)[0]` is the text before the first occurrence of the marker, or the whole text when it is absent |
| Plays.AfterFirstColon | baseball/baseball.py:626-627 | `split(': ')[1]` is the text after the first ": " up to the next one. It adds neither ", deflected" nor ", assist", and the text is kept when it holds no ": " |
| Plays.ThrowsOfSegments | baseball/baseball.py:629-633 | the throws are the primary clause's code order joined by "-" and the defense suffix of the rest. The code order's error is raised before the suffix's |
| Plays.ThrowsOf | baseball/baseball.py:613-633 | the package's throws of a description without suffix markers are those of the stripped description, and there is no suffix when no ". " is left |
| Plays.ThrowsOfScript | baseball.py:490-511 | the script's throws equal the package's whenever no spaced initial is left for `fix_initials` to fix |
| Plays.ThrowsOfClean | baseball/baseball.py:613-633 | a description without ". " has no suffix. Its throws exist exactly when the primary clause's code order does |
| Plays.NoSentenceBreakNoSuffix | baseball/baseball.py:615-618 | a description without ". " has an empty suffix and an empty defense suffix |
| Plays.PlayClause | baseball/baseball.py:647-649 | the classified clause is the suffix-stripped description up to its first ". ", or all of it, and holds no ". " |
| Plays.KeywordFoldNone | baseball/baseball.py:651-654 | when no keyword is found, the loop keeps its starting value |
| Plays.KeywordFoldFound | baseball/baseball.py:651-654 | the last keyword found in table order decides the loop's value |
| Plays.KeywordFoldLast | baseball/baseball.py:651-654 | the keyword loop ends with the code of the last keyword found in table order, or with its starting value when none is found |
| Plays.KeywordCode | baseball/baseball.py:651-654 | the play keyword code is the last one found in table order, is non-empty, and is absent when no keyword occurs |
| Plays.KeywordCodesNonEmpty | baseball/baseball.py:34-60 | every code in the keyword table is non-empty, so `not code` means no keyword was found |
| Plays.SacrificeFlyWins | baseball/baseball.py:34-60 | "sacrifice fly" gives SF over "fly", unless a later keyword is present |
| Plays.IntentionalWalkWins | baseball/baseball.py:34-60 | "intentionally walks" gives IBB over "walks", unless a strikeout or "choice" is present |
| Plays.KeywordNonEmptyFold | baseball/baseball.py:651-659 | the loop only ever holds its start value or a keyword's code |
| Plays.PlayCode | baseball/baseball.py:646-676 | "Fan interference" gives FI. Otherwise the last keyword found in table order wins, and an error names the description as given |
| Plays.PlayCodeOfClause | baseball/baseball.py:646-676 | summary "Fan interference" forces FI, else the last keyword wins. Without a keyword, a disqualifying phrase gives "" and anything else raises naming the description |
| Plays.HitLocation | baseball/baseball.py:635-644 | the hit location is None exactly when the throws string is empty or the play is in NO_HIT_CODE_LIST. Otherwise it is the play code and the throws' first character |
| Plays.HitLocationFirstFielder | baseball/baseball.py:639-640 | for a hit play, the hit location is the play code followed by the first character of the chain's first code |
| Plays.ErroredFielder | baseball/baseball.py:681-683 | the word after " error by " is a blank-free word, and a description without " error by " raises `IndexError` |
| Plays.ErroredFielderAfterFirst | baseball/baseball.py:681-683 | the word standing right after the first " error by " is the one taken |
| Plays.ErrorStr | baseball/baseball.py:678-689 | "error" anywhere gives "E" + the position of the word after " error by ", and raises when that is missing or not a position. Otherwise "catcher interference" gives E2, and otherwise the result is None |
| Plays.ErrorChargedToFielder | baseball/baseball.py:678-689 | a fielder named right after the first " error by " is charged: "E" + its position code |
| Plays.OnBaseAndSummary | baseball/baseball.py:691-705 | on base exactly when the summary label is in ON_BASE_SUMMARY_DICT, scored as its notation + suffix. Otherwise it is play code + throws + suffix, and a failing play code is raised only then |
| PlateAppearances.Assemble | baseball/baseball.py:494-497 | the play code is computed before the throws, and both before the error code. The appearance exists exactly when all three do, and then holds the hit location, error code, on-base flag and summary defined by `Scored` |
| PlateAppearances.NewPlateAppearance | baseball/baseball.py:480-497 | the package's constructor resolves the out runners first, one per runner match, and then scores as `Scored` says with the package's throws |
| PlateAppearances.NewScriptPlateAppearance | baseball.py:374-398 | the script's constructor keeps a stripped description in which every period followed by whitespace is followed by exactly one blank. It keeps a stripped summary and scores as `Scored` says with the script's throws |
| PlateAppearances.ErrorChargedInAppearance | baseball/baseball.py:678-689 | a built appearance charges the fielder named right after the first " error by " |
| PlateAppearances.OnBaseSummaryIgnoresPlay | baseball/baseball.py:691-705 | a batter whose summary label is in the on-base table is on base and scored from the table and the suffix alone |

## Left out

- Floating-point statistics (on-base and slugging percentages, ERA), `hitting_stats`, `pitching_stats`, every `__repr__`, and `TextWrapper` are not modelled. They are presentation only.
- `Game`, `Inning`, the box-score and team-stats code, the SVG rendering, the stadium time zones, and `PlayerAppearance` are outside the translator. They call into modules that are not part of this model, or into `pytz`.
- The scoring-runner, runs-batted-in and event lists are passed through by both constructors unchanged, and are not kept.
- `find_player`'s `ValueError` for a key that is neither `int` nor `str` is not modelled. The key is a tagged `Id | Name` datatype, so that case cannot arise.
- Text.IsWordChar: the regex class `\w` is exact for code points up to U+00FF. Higher code points count as non-word, because Unicode's alphanumeric tables are not modelled.
- Exception messages are not modelled. An error carries only its kind and the offending token, description or key.
- The script's `constants` module is not part of this model. Its tables are taken to equal the ones declared in `baseball/baseball.py`.
- Scan.FindAllFrom: after an empty match, the next search starts one position later. None of the patterns modelled here can match empty, so Python's finer rule for empty matches is not modelled.
- Runners.OutRunners: its own contract states only the length of the list. The contents, player and recorded base per match, are stated by `Runners.ResolveRunners`.
- NameAt: states the first capital, the characters allowed, a blank inside and the token-final end of a name group. The exact count of two to four tokens is not stated.
- Names.StripSuffixes: its own contract states only that the string does not grow. What it does to a text without suffix markers is stated by `Names.StripSuffixesClean`.
- Names.StripThisSuffix: its own contract states only that the result is stripped and does not grow. Its two rewrites are stated by `Names.StripFinalSuffix` and `Names.StripSuffixBeforeCapital`, and `Names.SuffixCanReappear` shows what it leaves behind.
- Roster.CleanedLastName: its own contract states only that the result is stripped. The removal of " Jr", " Sr", " II", " III" and " IV" and the " St. " rewrite are stated for surnames of plain words by `Surnames.SuffixDropped`, `Surnames.PlainSurnameCleaned` and `Surnames.SaintRewritten`.

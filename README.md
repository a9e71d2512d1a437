# gym_web ingestion core, in Dafny

This project models the part of gym_web that turns a free-text workout log into
normalized records. It also models the logic that resolves exercise identities
and then merges, deduplicates and ranks them:

- **Dates** (`lib/date.ts`): cleaning a `"Mon D"` label and validating it
  against the month table. It resolves the label to a calendar year, either
  from today or from the previously resolved date with the 45-day tolerance.
  The result is printed as `YYYY-MM-DD`. Dates are (year, month, day) triples
  counted by a day number. `Date.UTC`'s roll-over of an overflowing day into
  the next month is kept.
- **GymText** (`lib/parse-gym-txt.ts`): the log segmenter. It is a method with
  the source's two nested `while` loops, proved equal to a recursive
  definition `Segment`. Lemmas about `Segment` state what the sessions are.
- **Normalize** (`lib/normalize.ts`): location-prefix stripping, the
  alias-key cleaning and the location-sensitive "back" rule. It also covers
  the `CANONICAL_BY_ALIAS` table, the title-case fallback, the slug rule and
  location inference. Every regular expression is written out as a function
  over ASCII text.
- **ImportMerge** (`scripts/import-gym.ts`, lines 12-50): the min-date filter,
  the same-day merge fold (exercises, `seen` set, note parts) and the final
  newest-first list.
- **SessionsRepo** (`lib/sessions-repo.ts`): the exercise table is a class
  `ExerciseTable` holding the records by id plus their scan order. Its methods
  are `createExercise`, `updateExercise`, `ensureExercise` and
  `listExercises`, each proved against a pure function of the table. The
  module also models `slugify`, `uniq`, `sessionSortValue`, the
  `batchGetByIds` chunking, `upsertSessionV2` and the `listRawSessionsV2`
  order.
- **Migrate**, **Rank**, **Review** (`scripts/migrate-v1-to-v2.ts`,
  `scripts/rank-exercises.ts`, `scripts/review-exercises.ts`): the loops of
  these scripts, as methods over the exercise table or over values.
- **SessionsRoute** (`app/api/sessions/route.ts`): `isIsoDate`,
  `parseAndValidate` and the POST/PUT handlers up to the stored session.

Time stamps, fresh session ids and collision suffixes are parameters (`now`,
`newId`, `stamp`). The DynamoDB tables are in-memory maps. `Text` and
`Sorting` hold the string primitives and the stable sort that stands for
`Array.prototype.sort`. `Wrappers` holds `Option` and `Result`; a thrown
error is an `Err`.

Three behaviours of the code worth noting:

- PUT passes no session id to `upsertSessionV2`, so it stores a new session
  exactly as POST does. Only the status code differs.
- The alias recorded by the migration is the line with its location prefix
  stripped, not the raw line.
- Location prefixes are stripped once each, in order. So normalization is
  idempotent only for keys without a prefix and without a set count.

## Model

| member | source | states |
|---|---|---|
| Dates.MonthsAreZeroBased | lib/date.ts:1-14 | every month key maps to a zero-based month 0..11 |
| Dates.UtcDate | lib/date.ts:68 | `Date.UTC(year, month, day)` for a day in 1..31 is a valid date. Years 0..99 become 1900 + year. Its day number is that of the 1st of the month plus day - 1, so an overflowing day rolls into the next month |
| Dates.DecimalRoundTrip | lib/date.ts:19-21 | the decimal digits of a number read back as that number |
| Dates.Pad2 | lib/date.ts:20-21 | `padStart(2, "0")` of 0..99 is two digits that read back as the number |
| Dates.IsoDateFields | lib/date.ts:18-23 | for a four-digit year, `toIsoDateUTC` is 10 characters with `-` at positions 4 and 7. Its three digit fields read back as the year, the month and the day |
| Dates.NormalizeDateLabelShape | lib/date.ts:25-31 | the cleaned label has only single spaces and does not start with a space |
| Dates.CleanMonthDayLabel | lib/date.ts:25-31 | cleaning leaves a `<letters> <digits>` label unchanged |
| Dates.ParseMonthDay | lib/date.ts:33-49 | on success the month is 0..11 and the day is 1..31 |
| Dates.SupportedLabelIff | lib/date.ts:33-58 | a label is supported iff, once cleaned, it is ≥3 letters, a space and 1-2 digits, the first three letters lowercased are a month key, and the day is 1..31 |
| Dates.CleanLabelIff | lib/date.ts:35-46 | the same iff, for the match on already cleaned text |
| Dates.ParseOfMonthDayLabel | lib/date.ts:40-46 | `<word> <digits>` parses to the month of the word's first three letters and the day value when both are valid. Otherwise it is the "Invalid date value" error |
| Dates.MonthFromFirstThreeLetters | lib/date.ts:40-41 | two month words with the same first three letters (ignoring case) parse alike |
| Dates.DeclineIsDecember | lib/date.ts:40-41 | "Decline 10" parses as December 10 |
| Dates.ResolveMonthDay | lib/date.ts:60-93 | succeeds iff the label is supported. It then gives the year resolution of the parsed month and day, and otherwise the parse error |
| Dates.ParseMonthDayToIso | lib/date.ts:60-93 | succeeds iff the label is supported |
| Dates.NoAnchorNeverAfterToday | lib/date.ts:67-79 | without an anchor the result is never after today. Its year is now's year, or one less exactly when the same-year candidate is after today. The result is the day-th day from the 1st of its month |
| Dates.AnchorWithinTolerance | lib/date.ts:81-92 | with an anchor the result is at most 45 days after it. Its year is the anchor's year, or one less exactly when the same-year candidate is more than 45 days after the anchor |
| GymText.SplitLines | lib/parse-gym-txt.ts:15 | at least one piece, and no piece holds a line feed |
| GymText.SplitLinesJoin | lib/parse-gym-txt.ts:15 | for text without a carriage return, joining the pieces with line feeds gives back the text |
| GymText.CleanLines | lib/parse-gym-txt.ts:14-17 | every kept line is non-empty and trimmed. Text without a line feed gives its trimmed self, or nothing when that is blank |
| GymText.CleanLinesAppendLine | lib/parse-gym-txt.ts:14-17 | appending a line to the text appends its trimmed form to the lines, unless it is blank. So every non-blank line is kept once, in order |
| GymText.DropTitle | lib/parse-gym-txt.ts:19 | drops the first line exactly when it is "gym" ignoring case, and nothing else |
| GymText.Classify | lib/parse-gym-txt.ts:9-11 | a line is a date header iff `isSupportedMonthDayLabel` accepts it, and then it carries the parsed month and day |
| GymText.ParseGymTxt | lib/parse-gym-txt.ts:13-53 | the loop's sessions are `Segment` of the classified, cleaned lines, starting with no anchor |
| GymText.SegmentLog | lib/parse-gym-txt.ts:21-52 | the outer loop over classified lines gives `Segment` from index 0 with no anchor |
| GymText.SessionAt | lib/parse-gym-txt.ts:33-49 | at a header, the date is resolved against the current anchor. The sessions from here are what this header emits, followed by the sessions from the next header onwards with this date as anchor |
| GymText.CollectEntries | lib/parse-gym-txt.ts:37-41 | the inner loop collects exactly the maximal run of non-date lines and stops at the next header |
| GymText.EntryStep | lib/parse-gym-txt.ts:28-31 | a non-date line met by the outer loop is skipped |
| GymText.HeaderStep | lib/parse-gym-txt.ts:33-49 | a header with an empty run emits nothing. Otherwise it emits one session: the ISO date, the run, and the header text as notes |
| GymText.EmptyHeaderStillAnchors | lib/parse-gym-txt.ts:33-34 | a header directly followed by a header emits nothing, but its date becomes the anchor |
| GymText.HeaderSession | lib/parse-gym-txt.ts:43-49 | a header followed by an exercise line emits a first session with its date, its run and its text |
| GymText.SegmentCoversEntries | lib/parse-gym-txt.ts:25-50 | the sessions' exercises, concatenated, are exactly the non-date lines after the first header, in text order. Lines before it belong to no session |
| GymText.SegmentAtMostHeaders | lib/parse-gym-txt.ts:25-50 | there are no more sessions than date lines |
| GymText.SessionsAreWellFormed | lib/parse-gym-txt.ts:37-49 | every session has at least one exercise. Each exercise is a non-date line and the notes are a header line |
| GymText.NoHeadersNoSessions | lib/parse-gym-txt.ts:25-52 | text without date lines gives no session |
| Normalize.StripPrefixesShape | lib/normalize.ts:109-111 | stripping leaves a suffix of the trimmed input, and that suffix is trimmed |
| Normalize.StripNoPrefix | lib/normalize.ts:109-111 | when no pattern matches, nothing is removed |
| Normalize.NoLocationPrefix | lib/normalize.ts:1 | a line whose first letter is not g, w, p or h keeps its prefix |
| Normalize.PrefixSurvivesOnePass | lib/normalize.ts:109-111 | each pattern is applied once, in order: "work work bench" becomes "work bench", and that becomes "bench" |
| Normalize.NormalizeAliasAfterStrip | lib/normalize.ts:171-177 | `stripLocationPrefix` is the prefix stripping of the trimmed line, and the alias key is cleaned from it |
| Normalize.DropDots | lib/normalize.ts:113 | no `.` is left, and the characters left are exactly the input's other characters |
| Normalize.DropDotsConcat | lib/normalize.ts:113 | the dots of `a + b` are dropped from `a` and from `b` separately. So the other characters keep their order and number, and nothing is added |
| Normalize.RemoveSetsWithoutMatch | lib/normalize.ts:115 | text without a set count is unchanged |
| Normalize.SetCountSurvivesOnePass | lib/normalize.ts:115 | "3 5 sets sets" becomes "3 sets", and that becomes "" |
| Normalize.NormalizeAliasShape | lib/normalize.ts:106-119 | the key is lower case, trimmed, single-spaced, and has no `.`, `(` or `)` |
| Normalize.NormalizeAliasFixedPoint | lib/normalize.ts:106-119 | a key without a location prefix and a set count normalizes to itself |
| Normalize.NormalizeAliasIdempotent | lib/normalize.ts:106-119 | normalizing twice equals normalizing once when the key has no prefix and no set count |
| Normalize.PlainAlias | lib/normalize.ts:106-119 | a trimmed line without punctuation and prefix letters normalizes to the lower-cased, collapsed line with set counts removed |
| Normalize.Lookup | lib/normalize.ts:136-137 | a hit is a pair of the table. A miss means no entry has the key |
| Normalize.LookupAt | lib/normalize.ts:136-137 | the first entry with the key decides |
| Normalize.LookupNonEmpty | lib/normalize.ts:4-97 | every key and every name the table gives is non-empty |
| Normalize.BackRuleBeforeTable | lib/normalize.ts:131-134 | every key holding the word "back" gives "Back Machine Row" at planet-fitness, and "One-Arm Dumbbell Row" at work and at an unknown location, whatever the table says |
| Normalize.BackRuleExamples | lib/normalize.ts:131-134 | "horizontal back" at work, "dumbbell back" at planet-fitness and "back" at an unknown location take the rule's names |
| Normalize.StreetBackFromTable | lib/normalize.ts:131-137 | on the street "back" falls through to the table and gives "Back" |
| Normalize.TableHit | lib/normalize.ts:24 | "triceps" gives "Triceps Machine" |
| Normalize.Capitalize | lib/normalize.ts:141 | same length, the first character upper-cased and the rest unchanged. So only the case differs |
| Normalize.JoinWords | lib/normalize.ts:139-143 | splitting single-spaced text on spaces and joining it back gives the text |
| Normalize.TitleCaseOnlyChangesCase | lib/normalize.ts:139-143 | same length. A character is upper-cased exactly when it starts a word (first, or after a space), and every other character is kept. Lower-casing it gives back the lower-cased input |
| Normalize.JoinCapitalizedChars | lib/normalize.ts:139-143 | joining the capitalized words with spaces is the joined words with each word's first character upper-cased, character by character |
| Normalize.FallbackNameIsKey | lib/normalize.ts:139-143 | with no back rule and no table hit, the name is the key with each word's first character upper-cased and the rest kept. It lower-cases back to the key |
| Normalize.EmptyKeyName | lib/normalize.ts:125-155 | a line that normalizes to "" has canonical name "" and id "exercise" |
| Normalize.ExerciseSlug | lib/normalize.ts:99-104 | a slug: non-empty, only `[a-z0-9-]`, no hyphen at either end, never two hyphens in a row |
| Normalize.CanonicalIdFor | lib/normalize.ts:150-155 | the id for a location is a slug |
| Normalize.CanonicalId | lib/normalize.ts:146-148 | the location-less id is a slug |
| Normalize.MismatchForcesUnknown | lib/normalize.ts:157-169 | one line that starts with none of the location prefixes makes the location unknown |
| Normalize.PrefixesExclusive | lib/normalize.ts:162-166 | "pf " excludes "work ", "gwork " and "run", and "run" excludes the work prefixes |
| Normalize.InferLocationOfConcat | lib/normalize.ts:157-169 | two lists with the same location keep it when concatenated |
| Normalize.GymLinesUnknown | lib/normalize.ts:157-169 | ["Bench Press", "Squats"] is at an unknown location |
| Normalize.RunLinesStreet | lib/normalize.ts:166 | ["Run 5k"] is on the street |
| Text.LowerIdempotent | lib/normalize.ts:118 | lower-casing twice equals lower-casing once, and leaves no upper-case letter |
| Text.TrimOffset | lib/parse-gym-txt.ts:16 | `trim` keeps one slice with no whitespace at either end, and drops only whitespace |
| Text.TrimIsEmptyIffBlank | lib/sessions-repo.ts:30 | the trimmed text is empty iff the text is all whitespace |
| Text.CollapseSpacesShape | lib/date.ts:30 | every whitespace run becomes one space, and the other characters are kept in order |
| Text.CollapseSingleSpaced | lib/date.ts:30 | the result has no whitespace but single spaces |
| Text.CollapseOfSingleSpaced | lib/date.ts:30 | collapsing single-spaced text changes nothing |
| Text.CleanName | lib/sessions-repo.ts:216-219 | the cleaned name is empty iff the trimmed name is |
| Text.CleanNameIsClean | lib/sessions-repo.ts:216 | the cleaned name is in normal form, so cleaning it again changes nothing |
| Text.StrLessIrreflexive | lib/sessions-repo.ts:404-409 | the JavaScript `<` on strings is irreflexive |
| Text.StrLessTransitive | lib/sessions-repo.ts:404-409 | it is transitive |
| Text.StrLessTotal | lib/sessions-repo.ts:404-409 | any two different strings are ordered one way |
| Text.Join | scripts/import-gym.ts:48 | joining no part gives "", and joining one part gives that part |
| Text.DropBlank | lib/parse-gym-txt.ts:17 | every kept line is a non-empty input line, and every non-empty input line is kept |
| Text.DropBlankConcat | lib/parse-gym-txt.ts:17 | filtering `a + b` filters `a`, then `b`. So kept lines come in input order, as often as they occur |
| Text.TrimmedNonBlank | app/api/sessions/route.ts:18 | the result is the trimmed strings that are non-empty, each trimmed |
| Text.TrimmedNonBlankConcat | app/api/sessions/route.ts:18 | filtering `a + b` filters `a`, then `b`. So the trimmed ids come in input order, as often as they occur |
| Text.TrimmedNonBlankOne | app/api/sessions/route.ts:18 | one string gives its trimmed form, or nothing when that is blank |
| Text.Uniq | lib/sessions-repo.ts:34-36 | no repeats, the same members, and no longer than the input |
| Text.UniqKeepsFirstOccurrenceOrder | lib/sessions-repo.ts:34-36 | elements come in the order of their first occurrence |
| Text.UniqOfDistinct | lib/sessions-repo.ts:34-36 | a list without repeats is unchanged |
| Text.UniqSnoc | lib/sessions-repo.ts:34-36 | appending an element appends it to the result exactly when it is new |
| Text.HyphenateRuns | lib/sessions-repo.ts:41 | only slug characters and never two hyphens in a row. Empty iff the input is. A leading hyphen exactly for a leading non-alphanumeric. The alphanumerics are those of the input, in order |
| Text.HyphenateRunsConcat | lib/sessions-repo.ts:41 | text that ends in a letter or digit is hyphenated on its own: `HyphenateRuns(a + b) == HyphenateRuns(a) + HyphenateRuns(b)`, so no run reaches across a letter or digit |
| Text.HyphenateRunsOfRun | lib/sessions-repo.ts:41 | a non-empty run of other characters before a letter, a digit or the end becomes exactly one hyphen |
| Text.HyphenateRunsOfSlugChars | lib/sessions-repo.ts:41 | text of letters, digits and single hyphens is unchanged, so a single letter or digit stays itself |
| Text.Slugify | lib/sessions-repo.ts:38-43 | the result is a slug. It falls back exactly when the lower-cased value has no ASCII letter or digit: then it is the fallback, and otherwise its letters and digits are those of the lower-cased value, in order |
| Text.SlugifyJoin | lib/sessions-repo.ts:38-43 | two slugs with a non-empty run of separators between them slugify to the two joined by one hyphen, so "bench press" gives "bench-press" and not "benchpress" |
| Text.SlugifyStripsEnds | lib/sessions-repo.ts:38-43 | separators before and after a slug are dropped |
| Text.SlugifyOfSlug | lib/normalize.ts:99-104 | a slug is its own slug |
| Text.SlugifyIdempotent | lib/normalize.ts:99-104 | slugifying twice equals slugifying once |
| Sorting.SortBy | scripts/rank-exercises.ts:25-30 | the sorted list is a permutation of the input, ordered by the comparator |
| Sorting.InsertStable | scripts/rank-exercises.ts:25-30 | inserting an element into a sorted list keeps, for every p, the elements tying with p in the order they have with the element in front |
| Sorting.SortByStable | scripts/rank-exercises.ts:25-30 | the sort is stable, as `Array.prototype.sort` is: for every p, the elements tying with p keep their input order |
| ImportMerge.FilterMinDate | scripts/import-gym.ts:12-14 | keeps exactly the sessions whose date is not before the minimum date |
| ImportMerge.FilterMinDateConcat | scripts/import-gym.ts:12-14 | filtering `a + b` filters `a`, then `b`. So kept sessions come in input order, as often as they occur |
| ImportMerge.FilterMinDateSnoc | scripts/import-gym.ts:12-14 | one more session is kept, at the end, exactly when its date is not before the minimum |
| ImportMerge.LowerSet | scripts/import-gym.ts:26 | the set of lower-cased exercises |
| ImportMerge.AbsorbSeen | scripts/import-gym.ts:31-37 | absorbing a session extends the exercises and leaves the notes alone. `seen` gains the lower-cased incoming lines |
| ImportMerge.AbsorbAppendsUnseen | scripts/import-gym.ts:31-37 | each appended exercise comes from the session, was unseen, and no two appended ones agree ignoring case |
| ImportMerge.AbsorbKeepsSeen | scripts/import-gym.ts:33-35 | `seen` stays the set of lower-cased merged exercises |
| ImportMerge.MergeByDate | scripts/import-gym.ts:20-42 | the loop over the `Map` computes the fold `Fold` |
| ImportMerge.FoldDates | scripts/import-gym.ts:15-42 | one entry per distinct date, each listed once. The dates are exactly those of the sessions |
| ImportMerge.FoldExercises | scripts/import-gym.ts:22-37 | the first session of a date is a prefix of its merged list, and `seen` is the lower-cased set of all that date's exercises |
| ImportMerge.FoldNotes | scripts/import-gym.ts:39-41 | a date's note parts are its sessions' non-empty notes, in order |
| ImportMerge.MergeExample | scripts/import-gym.ts:31-37 | [Bench, Squats] then [bench, Deadlift] on one date merge to [Bench, Squats, Deadlift] |
| ImportMerge.Emit | scripts/import-gym.ts:44-49 | one record per date, with the merged exercises and the note parts joined with " \| " |
| ImportMerge.NewerFirstIsTotalPreorder | scripts/import-gym.ts:50 | the comparator is a total preorder |
| ImportMerge.EmitDistinct | scripts/import-gym.ts:44-49 | the records have distinct dates |
| ImportMerge.ImportSessionsNewestFirst | scripts/import-gym.ts:44-50 | the output dates strictly decrease |
| ImportMerge.ImportSessionsDates | scripts/import-gym.ts:12-50 | a date is in the output iff some session has it and it is not before the minimum |
| ImportMerge.ImportSessionsRecords | scripts/import-gym.ts:20-49 | each record starts with its date's first exercise list and covers all its exercises ignoring case. Its notes are the joined note parts |
| ImportMerge.Run | scripts/import-gym.ts:12-50 | the script's sessions are `ImportSessions` of the parsed log |
| SessionsRepo.StartTimeKey | lib/sessions-repo.ts:30 | the trimmed start time, or "00:00" when it is absent or blank |
| SessionsRepo.SessionSortValueOrder | lib/sessions-repo.ts:29-32 | for dates of one length, sort values order by date, then by time |
| SessionsRepo.TrimmedOrNone | lib/sessions-repo.ts:351-352 | present exactly when the input is present and not blank, and then trimmed |
| SessionsRepo.UpsertSessionV2 | lib/sessions-repo.ts:333-368 | the stored session has the given user, date, location, items and notes. Its start and end times are trimmed, and absent when blank. It is live and carries `now` as both time stamps |
| SessionsRepo.UpsertSortKeyAgrees | lib/sessions-repo.ts:344-350 | the sort key is date + "T" + start time or "00:00". The id is the trimmed given id, or the fresh one when it is absent or blank |
| SessionsRepo.SessionBeforeIsTotalPreorder | lib/sessions-repo.ts:404-409 | the session comparator is a total preorder |
| SessionsRepo.ListRawSessionsV2 | lib/sessions-repo.ts:390-410 | a permutation of the live sessions, by sort key descending, then id descending |
| SessionsRepo.UniqueIds | lib/sessions-repo.ts:50 | the distinct non-empty ids |
| SessionsRepo.Chunk | lib/sessions-repo.ts:53-56 | the chunks concatenate to the ids. Each has 1..100 ids, and all but the last have exactly 100 |
| SessionsRepo.GetByIds | lib/sessions-repo.ts:45-75 | the records found are exactly those of the non-empty ids in the table |
| SessionsRepo.BatchGetByIds | lib/sessions-repo.ts:45-75 | the chunked loop finds the same records as `GetByIds` |
| SessionsRepo.GetOneById | lib/sessions-repo.ts:228-229 | a lookup of one id finds a record with that id iff the id is in the table |
| SessionsRepo.ScanMembers | lib/sessions-repo.ts:158-165 | a scan lists exactly the stored records |
| SessionsRepo.Put | lib/sessions-repo.ts:246-251 | a put keeps the table well formed and maps the id to the record |
| SessionsRepo.PutShape | lib/sessions-repo.ts:246-251 | a put keeps the scan order for a known id, and appends a new id |
| SessionsRepo.ListedBeforeIsTotalPreorder | lib/sessions-repo.ts:176-186 | the listing comparator is a total preorder |
| SessionsRepo.FilterQuery | lib/sessions-repo.ts:167-173 | keeps exactly the records whose `nameLower` or a lower-cased alias contains the query |
| SessionsRepo.FilterQueryConcat | lib/sessions-repo.ts:167-173 | filtering `a + b` filters `a`, then `b`. So matches come in scan order, as often as they occur |
| SessionsRepo.FilterQueryCons | lib/sessions-repo.ts:167-173 | a record in front is kept, in front, exactly when the query matches it |
| SessionsRepo.Matching | lib/sessions-repo.ts:164-173 | a blank query keeps all records. Otherwise the filter uses the trimmed, lower-cased query |
| SessionsRepo.MatchingConcat | lib/sessions-repo.ts:164-173 | for every query, the records kept from `a + b` are those kept from `a` followed by those kept from `b` |
| SessionsRepo.ListExercisesOf | lib/sessions-repo.ts:157-188 | at most `limit` records, each a match. Exactly `limit` when more match, and all the matches when they fit |
| SessionsRepo.ListExercisesOrdered | lib/sessions-repo.ts:175-186 | the list is ordered by `sortOrder` (missing last), then `usageCount` descending (missing is 0), then name |
| SessionsRepo.ListExercisesFirst | lib/sessions-repo.ts:175-187 | the list is drawn from the matches, and every match left out comes after every listed record. So the first `limit` in sort order are kept |
| SessionsRepo.BlankQueryListsAll | lib/sessions-repo.ts:167-187 | a blank query lists every record when they fit in the limit |
| SessionsRepo.ExactNameListed | lib/sessions-repo.ts:164-187 | a record whose `nameLower` is the query is listed when the matches fit |
| SessionsRepo.FindByNameLower | lib/sessions-repo.ts:222 | finds a record with that `nameLower`, or none exists |
| SessionsRepo.FindByNameLowerFirst | lib/sessions-repo.ts:222 | the record found is the first one in the list with that `nameLower` |
| SessionsRepo.FindExisting | lib/sessions-repo.ts:221-222 | a hit is a stored record with the name's `nameLower`. With no such record there is no hit |
| SessionsRepo.FindExistingFirst | lib/sessions-repo.ts:221-222 | there is a hit iff a record with that `nameLower` is among the 200 listed, and the hit is the first such |
| SessionsRepo.FindExistingWithinWindow | lib/sessions-repo.ts:221-223 | a stored exact match is found when the matches fit the 200-record window |
| SessionsRepo.ItemSlug | lib/sessions-repo.ts:38-43 | the slug with fallback "item" is a slug |
| SessionsRepo.CleanAliases | lib/sessions-repo.ts:233 | the trimmed, non-empty aliases, without repeats |
| SessionsRepo.CleanAliasesSnoc | lib/sessions-repo.ts:233 | alias by alias: a trimmed alias is appended at the end when it is non-empty and new. A blank or repeated alias is dropped |
| SessionsRepo.Create | lib/sessions-repo.ts:210-254 | the table stays well formed and keeps every id, and a returned record is the one stored under its id. Ids are kept, not records: a suffixed create can overwrite the record under its new id (see `CreateAddsOne`) |
| SessionsRepo.CreateRejectsBlankName | lib/sessions-repo.ts:216-219 | a blank name is the "Exercise name is required" error, and the table is unchanged |
| SessionsRepo.CreateReturnsExisting | lib/sessions-repo.ts:221-223 | an existing record with that `nameLower` is returned and the table is unchanged |
| SessionsRepo.CreateAddsOne | lib/sessions-repo.ts:221-252 | when `listExercises(name, 200)` finds no record of that name, one record is put. It has the cleaned name, its lower case and the cleaned aliases. Its id is the preferred id or the slug when that id is free, and otherwise that id with "-" and the stamp. The suffixed id is not checked again, so a record already stored under it is overwritten. Only a new id is appended to the scan order. A record of the same name that sorts past the 200 listed is not found, so a second record with that `nameLower` is created. |
| SessionsRepo.CreateIdempotent | lib/sessions-repo.ts:210-254 | creating the same name again changes nothing and returns a record with the same `nameLower` |
| SessionsRepo.Update | lib/sessions-repo.ts:256-297 | the table stays well formed |
| SessionsRepo.UpdateNeverCreates | lib/sessions-repo.ts:262-296 | ids and order are unchanged. An unknown id is "Exercise not found" with the table unchanged. On success only the name, `nameLower`, aliases, `updatedAt` and a non-blank `iconKey` change |
| SessionsRepo.UpdateOutcomes | lib/sessions-repo.ts:262-287 | a blank id is the "exerciseId is required" error and an unknown id "Exercise not found". A blank name is "Exercise name is required". Otherwise the update succeeds with the id and the cleaned name, and a non-blank icon is taken trimmed. Every error leaves the table unchanged |
| SessionsRepo.Ensure | lib/sessions-repo.ts:299-331 | the table stays well formed and keeps every id, and a returned record is the one stored under its id. Ids are kept, not records, as for `Create` |
| SessionsRepo.AddAlias | lib/sessions-repo.ts:308-323 | on a match, the result is the same record id, stored as returned, and the ids of the table are unchanged |
| SessionsRepo.EnsureOnMatch | lib/sessions-repo.ts:304-323 | on a name match a new alias is appended and nothing else changes. A present or absent alias returns the record unchanged |
| SessionsRepo.EnsureCreates | lib/sessions-repo.ts:303-330 | when the trimmed name is not found among the 200 listed, `createExercise` takes over. A blank name is refused. A record of the cleaned name (inner whitespace runs collapsed) within its window is returned with the table unchanged. Otherwise a record is created with the cleaned name and the trimmed alias as its only alias |
| SessionsRepo.ExerciseTable.PutExercise | lib/sessions-repo.ts:246-251 | the new table state is `Put` of the old |
| SessionsRepo.ExerciseTable.ListExercises | lib/sessions-repo.ts:157-188 | at most `limit` stored records, each matching a non-blank query, in listing order. The list is `ListExercisesOf` the scanned records |
| SessionsRepo.ExerciseTable.FindNamed | lib/sessions-repo.ts:221-222 | the name lookup is `FindExisting` of the table |
| SessionsRepo.ExerciseTable.CreateExercise | lib/sessions-repo.ts:210-254 | result and new state are `Create` of the old state, and every id is kept |
| SessionsRepo.ExerciseTable.UpdateExercise | lib/sessions-repo.ts:256-297 | result and new state are `Update` of the old state, and the ids are unchanged |
| SessionsRepo.ExerciseTable.EnsureExercise | lib/sessions-repo.ts:299-331 | result and new state are `Ensure` of the old state, and the returned record is stored |
| SessionsRepo.ExerciseTable.AddAliasTo | lib/sessions-repo.ts:308-323 | result and new state are `AddAlias` of the old state |
| SessionsRepo.Items | scripts/migrate-v1-to-v2.ts:43 | one item per id, in order, with no notes |
| SessionsRepo.ItemIdsOfItems | scripts/migrate-v1-to-v2.ts:43 | the items' ids are the ids |
| Migrate.CallsFor | scripts/migrate-v1-to-v2.ts:25-31 | one `ensureExercise` call per raw line, in order, each built from that line at the session's location |
| Migrate.EnsureStepKeepsTable | lib/sessions-repo.ts:299-331 | one `ensureExercise` call keeps the table well formed, removes no record, and stores the record it returns |
| Migrate.ResolveOf | scripts/migrate-v1-to-v2.ts:25-37 | resolving a session's lines returns one id per line when no call fails, and fewer when one does. The table stays well formed, keeps every id, and stores every returned id |
| Migrate.ResolvedAt | scripts/migrate-v1-to-v2.ts:25-36 | the k-th returned id is the id of the record that `ensureExercise` returns for line k, on the table the first k lines left. Those k lines all succeeded |
| Migrate.ResolveFailure | scripts/migrate-v1-to-v2.ts:25-31 | a failure is the error of the first call that fails, after every earlier line resolved. The table is the one that call leaves |
| Migrate.TracedResolves | scripts/migrate-v1-to-v2.ts:25-37 | the loop's trace, call by call, is `ResolveOf`: complete when every line returned an id, and stopped by the first error otherwise |
| Migrate.ResolveCalls | scripts/migrate-v1-to-v2.ts:22-37 | the inner loop calls `ensureExercise` line by line, each on the table the previous call left, and stops at the first error. The ids are the returned ids without repeats, in first-seen order, all stored |
| Migrate.ResolveExercises | scripts/migrate-v1-to-v2.ts:20-37 | the new table, the returned ids and the failure are `ResolveOf` the session's calls at its inferred location. The ids are the returned ids without repeats, in first-seen order, all stored |
| Migrate.UpsertMigrated | scripts/migrate-v1-to-v2.ts:39-45 | the session written for distinct stored ids keeps user, date and notes, takes the inferred location and the date at "T00:00" as sort key, and has exactly those ids as items |
| Migrate.MigrateOne | scripts/migrate-v1-to-v2.ts:19-47 | on success, the session written keeps date and notes, takes the inferred location, and its items are the distinct ids its lines resolve to, in first-seen order, from the table before. On failure, the error and the table are those of the resolution |
| Migrate.Run | scripts/migrate-v1-to-v2.ts:15-51 | one session is written per legacy session, in order, and `migrated` counts them. Session k is resolved on the table session k - 1 left, and is written as `MigrateOne` states. A failure stops the loop at the session whose resolution failed |
| Migrate.TablesGrow | scripts/migrate-v1-to-v2.ts:19-51 | no migrated session removes a record: each table of the run is contained in the last |
| Migrate.MigratedIdsKept | scripts/migrate-v1-to-v2.ts:19-51 | every item id of every written session is still stored at the end of the run |
| Rank.CountStep | scripts/rank-exercises.ts:14 | one increment keeps `usage` equal to the counts of the ids seen so far |
| Rank.CountUsage | scripts/rank-exercises.ts:10-16 | `usage[id]` is the number of items with that id over all sessions, and only such ids have an entry |
| Rank.RankedBeforeIsTotalPreorder | scripts/rank-exercises.ts:25-30 | the ranking comparator is a total preorder |
| Rank.Ranked | scripts/rank-exercises.ts:25-30 | a permutation of the exercises, by usage descending, then name |
| Rank.Reranked | scripts/rank-exercises.ts:34-39 | the record at rank i gets its usage (0 when unused) and `sortOrder` i + 1, and `now` as update time. It keeps id, names, aliases, icon and creation time |
| Rank.RerankedOrders | scripts/rank-exercises.ts:32-37 | the `sortOrder`s the rewritten records carry are exactly 1..n, and no two records share one. A never-used exercise gets usage 0 |
| Rank.RankedIdsDistinct | scripts/rank-exercises.ts:24-30 | the ranked records are the stored ones, each id once, and every stored id is ranked |
| Rank.WriteStep | scripts/rank-exercises.ts:32-47 | one write keeps ids and order, and extends the rewritten prefix by one |
| Rank.WriteRanking | scripts/rank-exercises.ts:32-47 | after the loop every ranked record is rewritten with its usage and `sortOrder`, and the ids are unchanged |
| Rank.Run | scripts/rank-exercises.ts:8-47 | usage is counted over the live sessions. The ranking is of the table as scanned, and every record is rewritten with its rank |
| Review.SessionEntries | scripts/review-exercises.ts:20-26 | one entry per raw line, in order: the entry of line i is `EntryOf` that line at the session's location |
| Review.EntriesOf | scripts/review-exercises.ts:20-26 | one value per line, in order, each the given function of its line |
| Review.AddLine | scripts/review-exercises.ts:21-26 | one line's update of `counts` and `grouped` |
| Review.AddSession | scripts/review-exercises.ts:20-27 | the inner loop adds the session's entries at its inferred location |
| Review.Accumulate | scripts/review-exercises.ts:17-28 | the nested loops compute the tally of all entries |
| Review.TallyCounts | scripts/review-exercises.ts:17-22 | `counts[k]` is the number of lines whose trimmed text is `k`. Keys are listed once each and are exactly the trimmed lines |
| Review.TallyGroups | scripts/review-exercises.ts:18-26 | groups are exactly the canonical names of the lines. A group holds each trimmed line resolving to it once, first the first one met |
| Review.RawBeforeIsTotalPreorder | scripts/review-exercises.ts:31 | the raw row comparator is a total preorder |
| Review.NameOrderIsTotalPreorder | scripts/review-exercises.ts:37 | the alias comparator is a total preorder |
| Review.GroupBeforeIsTotalPreorder | scripts/review-exercises.ts:40 | the group comparator is a total preorder |
| Review.RawRowsOf | scripts/review-exercises.ts:30-32 | one row per key in map order, with its count |
| Review.GroupRowsOf | scripts/review-exercises.ts:34-39 | one row per group in map order, with sorted aliases and the sample |
| Review.SortedNames | scripts/review-exercises.ts:37 | the aliases, permuted into ascending order |
| Review.RawRows | scripts/review-exercises.ts:30-32 | a permutation of the raw rows, by count descending, then name |
| Review.GroupRows | scripts/review-exercises.ts:34-40 | a permutation of the group rows, by canonical name |
| Review.Run | scripts/review-exercises.ts:12-50 | the script's report is `ReportOf` the sessions |
| Review.ReportUniqueCounts | scripts/review-exercises.ts:46-47 | `uniqueRawExercises` is the number of distinct trimmed lines, and `uniqueCanonicalExercises` the number of distinct canonical names |
| Review.ReportRawRows | scripts/review-exercises.ts:17-32 | every row's count is its key's number of lines, and every trimmed line has a row |
| Review.ReportGroupRow | scripts/review-exercises.ts:34-40 | a group lists, sorted, exactly the trimmed lines resolving to it. Its sample normalizes the first such line in encounter order, or the canonical name when that line is empty |
| SessionsRoute.MatchesIff | app/api/sessions/route.ts:7 | a string matches a pattern of character classes iff it has the same length and matches at every position |
| SessionsRoute.IsIsoDateShape | app/api/sessions/route.ts:6-8 | `isIsoDate` holds iff there are 10 characters, `-` at 4 and 7, and digits elsewhere |
| SessionsRoute.ToIsoDateAccepted | app/api/sessions/route.ts:6-8 | every date the resolver prints with a four-digit year passes |
| SessionsRoute.NoCalendarCheck | app/api/sessions/route.ts:6-8 | "2024-13-45" passes, since there is no range check |
| SessionsRoute.ShortFieldsRejected | app/api/sessions/route.ts:6-8 | "24-01-01" and "2024-1-01" fail |
| SessionsRoute.ParseAndValidate | app/api/sessions/route.ts:10-29 | a bad trimmed date is the date error whatever the exercises. Otherwise no non-blank id is the exercises error. Otherwise it is the trimmed date and location, the trimmed non-blank ids in order, and the notes unchanged |
| SessionsRoute.ParsedFields | app/api/sessions/route.ts:16-18 | the location is "unknown" only when absent or empty, and a blank location becomes "". Ids are trimmed and non-empty |
| SessionsRoute.Write | app/api/sessions/route.ts:68-88 | errors answer 400, and an unlisted location is "Invalid locationId". Success answers the handler's status, exactly when the body is valid and its location listed |
| SessionsRoute.Post | app/api/sessions/route.ts:59-93 | answers 201 or 400 |
| SessionsRoute.Put | app/api/sessions/route.ts:95-129 | answers 200 or 400 |
| SessionsRoute.WriteStores | app/api/sessions/route.ts:80-86 | a stored session belongs to "me" and has a fresh id. It has the validated date, the parsed location (which is listed), one item `{ exerciseId }` without notes per parsed id in order, the notes, and the date at "T00:00" as sort key |
| SessionsRoute.PostPutAgree | app/api/sessions/route.ts:95-129 | POST and PUT give the same payload for the same body, and succeed together |

## Left out

- DynamoDB traffic (Query, Scan, Put, BatchGet, Delete) is left out; the tables are in-memory values. A scan returns records in insertion order, and a put replaces a record in place. The order a real scan or `BatchGet` returns is not modelled.
- `nowIso`, `newSessionId`, the `Date.now()` collision suffix and the `new Date()` defaults are parameters (`now`, `newId`/`sessionIds`, `stamp`), since they are clocks and randomness.
- `localeCompare` is modelled as the code-unit order of JavaScript `<`, because the locale's collation is not part of the program.
- Case mapping, `\s`, `\d`, `\w` and `\b` are restricted to ASCII.
- `Date.UTC` maps years 0..99 to 1900..1999. The year lemmas therefore require years ≥ 101, so that the year before is still read as itself.
- The previous anchor is carried as a date rather than as the ISO string re-parsed with `T00:00:00Z`. The two agree while every resolved year is 1000..9999. Outside that range the source's re-parse of the printed date is not guaranteed by ECMAScript's date-time string format (it needs a four-digit or signed six-digit year), and the model does not capture what the engine then does.
- The time of day of `now` is dropped: only its UTC date enters the comparison.
- A `CANONICAL_BY_ALIAS` lookup of a key such as "constructor", which hits `Object.prototype`, is treated as a miss.
- `clearSessionsV2`, `listSessions`, `getSession*`, `listLocations`, the backup functions and the legacy upsert are left out: they are store I/O. `listLocations` enters only as the set of valid location ids.
- The import script's final `upsertSession` loop and its file reading are left out: the called function is not defined in the repository, and file reading is I/O.
- Console output and the report file written by the review script are left out. So are its `generatedAt` and `userId` fields, which are a clock reading and a constant.
- The GET handler and the 500 answers to thrown exceptions in `app/api/sessions/route.ts` are left out: they are HTTP plumbing.
- SessionsRepo.Create: promises that every id is kept, not every record. The source does not re-check the suffixed id, so a create can overwrite the record stored under it, and `CreateAddsOne` states that case.
- SessionsRepo.Ensure: keeps ids, not records, for the same reason as `Create`.
- SessionsRepo.ExerciseTable.CreateExercise: keeps ids, not records, for the same reason as `Create`.
- Migrate.ResolveOf: keeps ids, not records, because each call is an `ensureExercise` that may create.
- Migrate.Run: a thrown error ends the real script. Here it ends the loop and is returned, with the sessions written so far.
- Migrate.Run: one `now` and one `stamp` serve every `ensureExercise` call and every write of a run. The source reads `nowIso()` and `Date.now()` afresh for each, so two collisions in one run get one suffix here.
- Rank.Run: the source takes a new time stamp for every record; the model gives all records the same `now`.
- Dates.ParseMonthDayToIso: its own contract states only when it succeeds. The printed value is `ToIsoDate` of the resolved date, and its shape is stated by `Dates.IsoDateFields` and the year lemmas.
- Text.Join: its contract covers only the empty and one-part cases. The merged notes are stated through `ImportMerge.Emit` in terms of `Join`.

# North Carolina demographic turnout buckets, modelled in Dafny

The scripts `build_demographic_turnout.py` (one election) and
`build_demographic_turnout_all.py` (every election with a
`voter_stats_YYYYMMDD.txt` file) compute turnout per demographic bucket.
A bucket is the key (election date, county, party, race, ethnicity, sex,
age group). The scripts work in four steps:

- They add up the registered voters of every bucket from the voter
  statistics file. This total is the denominator.
- They pick the voters who voted in the election from the voter history,
  keeping one row per NCID (the voter's id).
- They attach each voter's registration attributes and an age band.
- They count the voters per bucket and LEFT JOIN those counts onto the
  denominator. The turnout rate is NULL exactly when nobody is registered.

The model keeps the scripts' own structure:

- The SQL rules become pure functions over sequences of rows. SQL NULL is
  `Option`.
- The two date converters and the file-name test are pure string
  functions.
- The loop of the all-elections script over its sorted file list is a
  method with loop invariants. It appends one QA row and one election's
  buckets per accepted file, so it builds `qa_rows` and `turnout_all`.

Modules:

- `Common`: option and result types, the failures the scripts raise, and
  the WHERE filter.
- `TextOrder`: the string order and the NULLS LAST order.
- `Decimal`: ASCII digits.
- `PyStrings`: Python `split`, `zfill`, slices, `replace` and `Path.name`.
- `SqlStrings`: DuckDB `trim`, `lower`, `upper`, quote removal and
  `TRY_CAST`.
- `DateLabels`: the date converters.
- `AgeBands`: the age CASE.
- `History`: the voter-history filters and the NCID dedupe.
- `Tally`: GROUP BY with SUM or COUNT.
- `VoterStats`: the denominator.
- `Voters`: the registration join, the QA counts and the vote count.
- `Buckets`: the bucket join and one election's whole pipeline.
- `SingleBuild`: `main` of the single-election script.
- `ElectionFiles`: the all-elections loop.

## Model

| member | source | states |
|---|---|---|
| DateLabels.MmddyyyyToIso | scripts/build_demographic_turnout.py:9-12 | the conversion succeeds exactly when the label has two `/`; any other count of parts is an unpacking error |
| DateLabels.IsoOfFields | scripts/build_demographic_turnout_all.py:16-18 | `m/d/y` with slash-free fields converts to `y-zfill(m,2)-zfill(d,2)` |
| DateLabels.IsoPadsShortFields | scripts/build_demographic_turnout.py:10-12 | `1/4/2025` becomes `2025-01-04` |
| DateLabels.IsoKeepsFullFields | scripts/build_demographic_turnout.py:10-12 | `11/04/2025` becomes `2025-11-04` |
| DateLabels.ZFillKeepsValue | scripts/build_demographic_turnout.py:12 | zero-padding a digit field keeps it all digits and keeps its value |
| DateLabels.YearOf | scripts/build_demographic_turnout.py:28 | reading the year fails only with a value error |
| DateLabels.YearIsYearField | scripts/build_demographic_turnout.py:27-28 | for a year field that holds no `-`, the text before the first `-` of the ISO date is the label's year field; the year read back is that field's integer value, or a value error when the field is not an integer |
| DateLabels.YyyymmddToMmddyyyy | scripts/build_demographic_turnout_all.py:9-14 | for 8 characters the result is `s[4:6]/s[6:8]/s[0:4]`; for slash-free input it splits back into those three slices |
| DateLabels.SlicesSplitBack | scripts/build_demographic_turnout_all.py:9-14 | the three slices joined by `/` split back into the three slices |
| DateLabels.FileDateToIso | scripts/build_demographic_turnout_all.py:149-151 | round trip: for 8 digits the label converts to `s[0:4]-s[4:6]-s[6:8]`, whose year is the value of the first four digits |
| PyStrings.Split | scripts/build_demographic_turnout.py:11 | `split` gives one more piece than there are separators, and no piece contains a separator |
| PyStrings.JoinSplit | scripts/build_demographic_turnout.py:11 | joining the pieces of a split gives back the string |
| PyStrings.SplitJoin | scripts/build_demographic_turnout.py:11 | splitting a join of separator-free pieces gives back the pieces |
| PyStrings.SplitFirst | scripts/build_demographic_turnout.py:11 | a split at the first separator yields the separator-free head, then the split of the rest |
| PyStrings.SplitNoSeparator | scripts/build_demographic_turnout.py:11 | a string without the separator splits into itself |
| PyStrings.ZFill | scripts/build_demographic_turnout.py:12 | strings at least as wide are unchanged; shorter ones get leading zeros, after the sign if any, up to the width |
| PyStrings.Slice | scripts/build_demographic_turnout_all.py:11-13 | a Python slice is the substring, cut short at the end of the string |
| PyStrings.RemoveAll | scripts/build_demographic_turnout_all.py:144 | `replace(pat, "")` never lengthens the string |
| PyStrings.RemoveAllKeeps | scripts/build_demographic_turnout_all.py:144 | text that cannot start the pattern survives the removal unchanged |
| PyStrings.RemoveAllLeading | scripts/build_demographic_turnout_all.py:144 | a leading occurrence of the pattern is removed |
| PyStrings.RemoveAllPieces | scripts/build_demographic_turnout_all.py:144 | every occurrence is removed: text made of copies of the pattern and pieces in which it cannot start loses exactly the copies |
| PyStrings.Without | scripts/build_demographic_turnout_all.py:144 | the pieces kept are exactly those other than the pattern |
| PyStrings.ConcatLacks | scripts/build_demographic_turnout_all.py:144 | a character in none of the pieces is not in the joined text |
| PyStrings.ConcatCons | scripts/build_demographic_turnout_all.py:144 | joining a piece in front of others |
| PyStrings.WithoutCons | scripts/build_demographic_turnout_all.py:144 | filtering a piece in front of others keeps it exactly when it is not the pattern |
| PyStrings.ConcatFour | scripts/build_demographic_turnout_all.py:144 | joining four pieces is their concatenation |
| PyStrings.WithoutFour | scripts/build_demographic_turnout_all.py:144 | filtering four pieces keeps, in order, those that are not the pattern |
| PyStrings.SplitLast | scripts/build_demographic_turnout_all.py:143 | splitting `a/b`, with `b` free of `/`, gives the parts of `a` followed by `b` |
| PyStrings.LastPart | scripts/build_demographic_turnout_all.py:143 | the part chosen is empty or is one of the parts, and is never `.` |
| PyStrings.PathName | scripts/build_demographic_turnout_all.py:143 | `Path(p).name` holds no `/` and is never `.` |
| PyStrings.PathNameIsLastPart | scripts/build_demographic_turnout_all.py:143 | the name is the last part of the path that is neither empty nor `.`, or empty when every part is |
| PyStrings.LastPartSpec | scripts/build_demographic_turnout_all.py:143 | the part chosen is the last non-blank part, or empty when every part is blank |
| PyStrings.PathNameOfJoin | scripts/build_demographic_turnout_all.py:143 | the name of `dir/name` is `name` when `name` is a real part (not empty, not `.`) |
| PyStrings.PathNameTrailingBlank | scripts/build_demographic_turnout_all.py:143 | a trailing `/` or `/.` does not change the name |
| ElectionFiles.DateDigits | scripts/build_demographic_turnout_all.py:143-144 | what is left of the name after removing `voter_stats_` and `.txt` is no longer than the name |
| ElectionFiles.Accepted | scripts/build_demographic_turnout_all.py:145-147 | a processed file has a name of at least eight characters |
| ElectionFiles.CanonicalNameAccepted | scripts/build_demographic_turnout_all.py:142-147 | `voter_stats_YYYYMMDD.txt` in any directory yields exactly its eight digits and is accepted |
| ElectionFiles.DotNeedsExtension | scripts/build_demographic_turnout_all.py:144 | a `.` in a name made of prefixes, extensions and digit runs comes from an extension |
| ElectionFiles.DigitRunNotPattern | scripts/build_demographic_turnout_all.py:144 | a digit run is neither `voter_stats_` nor `.txt` |
| ElectionFiles.DateDigitsOfPieces | scripts/build_demographic_turnout_all.py:143-144 | both `replace` calls remove every occurrence: a name made of prefixes, extensions and digit runs in any order yields its digit runs joined in order |
| ElectionFiles.StrayPieces | scripts/build_demographic_turnout_all.py:144 | the pieces of `voter_stats_<a>.txt<b>` leave `a` and `b` after both removals |
| ElectionFiles.DoublePieces | scripts/build_demographic_turnout_all.py:144 | the pieces of `voter_stats_<a>.txt.txt` leave `a` after both removals |
| ElectionFiles.DateDigitsStrayExtension | scripts/build_demographic_turnout_all.py:143-147 | `voter_stats_2025.txt1104` yields `20251104` and is accepted, like any name with an extension between digit runs of eight digits in all |
| ElectionFiles.DateDigitsDoubleExtension | scripts/build_demographic_turnout_all.py:143-147 | `voter_stats_20251104.txt.txt` yields `20251104` and is accepted: every extension is removed |
| ElectionFiles.StripPrefix | scripts/build_demographic_turnout_all.py:144 | removing `voter_stats_` from a canonical name leaves `YYYYMMDD.txt` |
| ElectionFiles.StripSuffix | scripts/build_demographic_turnout_all.py:144 | removing `.txt` from `YYYYMMDD.txt` leaves the digits |
| ElectionFiles.FileLabel | scripts/build_demographic_turnout_all.py:149-150 | the label of an accepted file always converts to an ISO date |
| ElectionFiles.FileIso | scripts/build_demographic_turnout_all.py:149-151 | the ISO date of an accepted file is `d[0:4]-d[4:6]-d[6:8]` of its digits, and its year reads back |
| ElectionFiles.FileYear | scripts/build_demographic_turnout_all.py:151 | the election year is the value of the first four digits |
| ElectionFiles.InsertByPathPermutes | scripts/build_demographic_turnout_all.py:30 | inserting a file adds exactly that file |
| ElectionFiles.InsertByPathSorted | scripts/build_demographic_turnout_all.py:30 | inserting into a sorted list keeps it sorted by path |
| ElectionFiles.SortByPathSorted | scripts/build_demographic_turnout_all.py:30 | `sorted` orders the files by path |
| ElectionFiles.SortByPathPermutes | scripts/build_demographic_turnout_all.py:30 | `sorted` is a permutation of the file list |
| ElectionFiles.FileOutput | scripts/build_demographic_turnout_all.py:142-366 | a file produces output exactly when its name is accepted; its QA row carries its ISO date and label, and so does every bucket row |
| ElectionFiles.Outputs | scripts/build_demographic_turnout_all.py:140 | one outcome per file, in order |
| ElectionFiles.OneMoreOutput | scripts/build_demographic_turnout_all.py:271-366 | an iteration appends its QA row and its buckets when its file is accepted, and nothing otherwise |
| ElectionFiles.ElectionOfFile | scripts/build_demographic_turnout_all.py:143-366 | the loop body computes the file's outcome: none for a rejected name, otherwise the election's QA row and buckets |
| ElectionFiles.BuildAll | scripts/build_demographic_turnout_all.py:30-366 | an empty file list stops with the no-files error; otherwise `qa_rows` and `turnout_all` are the QA rows and bucket rows of the accepted files, in sorted path order |
| ElectionFiles.WalkFiles | scripts/build_demographic_turnout_all.py:140-366 | the loop over the sorted files, proved with loop invariants: `qa_rows` and `turnout_all` end as the QA rows and the buckets of the accepted files, in loop order |
| ElectionFiles.AcceptedFiles | scripts/build_demographic_turnout_all.py:145-147 | the files the loop does not skip, all of them accepted |
| ElectionFiles.AcceptedFilesIsWhere | scripts/build_demographic_turnout_all.py:140-147 | the files the loop keeps are exactly a WHERE on the name test over the sorted list |
| ElectionFiles.AcceptedFilesCounts | scripts/build_demographic_turnout_all.py:140-147 | the loop keeps as many files as pass the name test, each accepted file as often as it occurs and no rejected file |
| ElectionFiles.OutputsDated | scripts/build_demographic_turnout_all.py:140-366 | every file's outcome is present exactly when its name is accepted, and is dated by that file |
| ElectionFiles.QaRowsDated | scripts/build_demographic_turnout_all.py:271 | the QA rows number the accepted files, and row k carries the ISO date and label of accepted file k |
| ElectionFiles.TurnoutDated | scripts/build_demographic_turnout_all.py:366 | every row of `turnout_all` carries the ISO date of an accepted file |
| ElectionFiles.QaRowPerAcceptedFile | scripts/build_demographic_turnout_all.py:140-271 | one QA row per accepted file, in order, with that file's ISO date and label |
| ElectionFiles.TurnoutRowsFromAcceptedFiles | scripts/build_demographic_turnout_all.py:366 | every appended bucket row carries the date of the accepted file it came from |
| TextOrder.LexLeReflexive | scripts/build_demographic_turnout.py:179 | the string order is reflexive |
| TextOrder.LexLeTotal | scripts/build_demographic_turnout.py:179 | any two strings are ordered |
| TextOrder.LexLeAntisymmetric | scripts/build_demographic_turnout.py:179 | strings ordered both ways are equal |
| TextOrder.LexLeTransitive | scripts/build_demographic_turnout.py:179 | the string order is transitive |
| TextOrder.NullsLastReflexive | scripts/build_demographic_turnout.py:179 | the NULLS LAST order is reflexive |
| TextOrder.NullsLastTotal | scripts/build_demographic_turnout.py:179 | any two possibly NULL counties are ordered |
| TextOrder.NullsLastTransitive | scripts/build_demographic_turnout_all.py:225 | the NULLS LAST order is transitive |
| TextOrder.NullsLastMin | scripts/build_demographic_turnout_all.py:225 | the minimum of two counties is one of them and precedes both |
| SqlStrings.TrimLeft | scripts/build_demographic_turnout.py:51 | the result starts with no space and is a suffix of the input; everything removed is spaces |
| SqlStrings.TrimRight | scripts/build_demographic_turnout.py:51 | the result ends with no space and is a prefix of the input; everything removed is spaces |
| SqlStrings.Trim | scripts/build_demographic_turnout.py:51 | the result neither starts nor ends with a space, and the input is the result with only spaces added on either side |
| SqlStrings.TrimUnique | scripts/build_demographic_turnout.py:51 | any unpadded string that the input pads with spaces only is the trimmed string, so `Trim` is determined by its contract |
| SqlStrings.TrimFixed | scripts/build_demographic_turnout.py:51 | an already trimmed string is unchanged |
| SqlStrings.TrimIdempotent | scripts/build_demographic_turnout.py:51 | trimming twice is trimming once |
| SqlStrings.LowerIsMeansLower | scripts/build_demographic_turnout.py:91 | the case-insensitive comparison is `lower(s) = word` |
| SqlStrings.RemoveQuotes | scripts/build_demographic_turnout.py:51-62 | `replace(s, '"', '')` leaves no quote, adds no character, and keeps quote-free strings |
| SqlStrings.RemoveQuotesChar | scripts/build_demographic_turnout.py:51-62 | a quote disappears and any other character stays |
| SqlStrings.RemoveQuotesAppend | scripts/build_demographic_turnout.py:51-62 | quote removal distributes over concatenation, so the other characters are kept in order |
| SqlStrings.Lower | scripts/build_demographic_turnout.py:91 | `lower` keeps the length, maps each ASCII letter `A`-`Z` to its lower-case letter, and keeps every other character |
| SqlStrings.Upper | scripts/build_demographic_turnout.py:51 | `upper` keeps the length, maps each ASCII letter `a`-`z` to its upper-case letter, and keeps every other character |
| SqlStrings.TryCastInteger | scripts/build_demographic_turnout.py:61-71 | the cast succeeds exactly when the text is an optionally signed decimal literal whose value lies in the 32-bit range, and then gives that value |
| SqlStrings.TryCastBigint | scripts/build_demographic_turnout_all.py:169-178 | the cast succeeds exactly when the text is an optionally signed decimal literal whose value lies in the 64-bit range, and then gives that value |
| SqlStrings.TryCastShow | scripts/build_demographic_turnout_all.py:169-178 | round trip: the decimal text of any integer casts back to that integer when it is in the type's range, and to NULL otherwise |
| SqlStrings.IntegerIsBigint | scripts/build_demographic_turnout_all.py:169 | what casts to INTEGER casts to the same BIGINT |
| SqlStrings.CleanOpt | scripts/build_demographic_turnout.py:52-62 | cleaning a column is NULL exactly when the column is |
| SqlStrings.CleanUpperOpt | scripts/build_demographic_turnout.py:51 | cleaning and upper-casing is NULL exactly when the column is |
| Decimal.DigitsValueBound | scripts/build_demographic_turnout.py:61 | n digits have a value below 10^n |
| Decimal.Pow10Monotone | scripts/build_demographic_turnout.py:61 | a longer digit count has a larger power of ten |
| SqlStrings.ShortDigitsCast | scripts/build_demographic_turnout.py:357 | a string of at most nine ASCII digits always casts to INTEGER, to its value |
| Decimal.LeadingZero | scripts/build_demographic_turnout.py:12 | a leading zero does not change a digit string's value |
| Decimal.ParseSigned | scripts/build_demographic_turnout.py:28 | parsing succeeds exactly on an optionally signed digit string, and gives the digits' value with the sign applied |
| Decimal.Digits | scripts/build_demographic_turnout.py:28 | the decimal digits of a natural number are a digit string |
| Decimal.DigitsRoundTrip | scripts/build_demographic_turnout.py:28 | round trip: the digits of `n` read back as `n` |
| Decimal.Show | scripts/build_demographic_turnout.py:28 | the decimal text of an integer is a signed literal |
| Decimal.ParseShow | scripts/build_demographic_turnout.py:28 | round trip: parsing the decimal text of any integer gives that integer |
| AgeBands.BandOfAge | scripts/build_demographic_turnout.py:359-365 | the youngest band is taken exactly below 18, the oldest exactly from 66 |
| AgeBands.BirthYearBand | scripts/build_demographic_turnout.py:355-366 | a missing, blank or non-integer birth year gives the invalid band; any other band means a birth year at least 18 years before the election |
| AgeBands.BandsPartitionAges | scripts/build_demographic_turnout.py:355-366 | each of the five bands holds exactly its age range (<18, 18-25, 26-40, 41-65, 66 and over), so every age has exactly one band |
| AgeBands.BandMonotone | scripts/build_demographic_turnout.py:359-365 | an older age never lands in an earlier band |
| AgeBands.LabelsDistinct | scripts/build_demographic_turnout_all.py:300-311 | the five labels are distinct |
| AgeBands.BirthYearValue | scripts/build_demographic_turnout.py:356-357 | a NULL or blank birth year has no value; a value comes from a trimmed signed literal and is a 32-bit integer; a trimmed digit string within range gives its value |
| AgeBands.BirthYearOfText | scripts/build_demographic_turnout.py:355-366 | a year within the 32-bit INTEGER range, written in decimal with spaces around it, is read back as that year, and its band is the band of the age it gives |
| AgeBands.BirthYearBandCases | scripts/build_demographic_turnout_all.py:300-311 | the invalid band is taken exactly by a missing or non-integer birth year or an age below 18; any other birth year gets the band of its age |
| History.SingleRaw | scripts/build_demographic_turnout.py:101-122 | lines with a missing or blank label are dropped |
| History.SingleRawSound | scripts/build_demographic_turnout.py:101-122 | every row comes from a line of the file that passes the filter |
| History.SingleRawComplete | scripts/build_demographic_turnout.py:101-122 | every line that passes the filter gives a row |
| History.SingleKept | scripts/build_demographic_turnout.py:154-160 | every row kept passes the election filter |
| History.SingleElection | scripts/build_demographic_turnout.py:146-163 | every kept vote has the target label, which is not `election_lbl`, and an NCID that is non-blank and not `ncid` in any case |
| History.SingleElectionExact | scripts/build_demographic_turnout.py:146-163 | a vote is kept exactly when some history row passes the filter and projects to it |
| History.SingleElectionSound | scripts/build_demographic_turnout.py:146-163 | every kept vote comes from a row that passes the filter |
| History.SingleElectionComplete | scripts/build_demographic_turnout.py:146-163 | every row that passes the filter gives a kept vote |
| History.SingleHeaderTestRedundant | scripts/build_demographic_turnout.py:156-157 | for a target that is not `election_lbl`, the header test adds nothing to the label test |
| History.AllCleaned | scripts/build_demographic_turnout_all.py:52-55 | each history line becomes its cleaned row, one for one |
| History.AllRaw | scripts/build_demographic_turnout_all.py:48-74 | every loaded row has a non-blank label that is not `election_lbl` and a usable NCID |
| History.AllRawSound | scripts/build_demographic_turnout_all.py:66-71 | every loaded row is the cleaned form of a line that passes the filter |
| History.AllRawComplete | scripts/build_demographic_turnout_all.py:66-71 | every line that passes the filter is loaded |
| History.LabelKept | scripts/build_demographic_turnout_all.py:211 | the rows kept carry the target label |
| History.AllElection | scripts/build_demographic_turnout_all.py:205-214 | every vote kept carries the target label |
| History.AllElectionExact | scripts/build_demographic_turnout_all.py:205-214 | a vote is kept exactly when some history line passes the load filter, has the target label, and projects to it |
| History.AllElectionSound | scripts/build_demographic_turnout_all.py:205-214 | every kept vote comes from a loaded row with the target label |
| History.AllElectionComplete | scripts/build_demographic_turnout_all.py:205-214 | every loaded row with the target label gives a kept vote |
| History.AllElectionClean | scripts/build_demographic_turnout_all.py:66-71 | every kept vote has the target label, which is non-blank and not `election_lbl`, and an NCID that is non-blank and not `ncid` |
| History.NcidUsable | scripts/build_demographic_turnout.py:158-160 | the NCID test: present, not blank after trimming, and not `ncid` in any letter case; a predicate used by the filters |
| History.FirstCounty | scripts/build_demographic_turnout.py:176-182 | the county of the first row of ROW_NUMBER over one NCID, a fold taking the NULLS LAST minimum; NoVotesNoCounty and FirstCountyIsMinimum state what it is |
| History.NoVotesNoCounty | scripts/build_demographic_turnout.py:167-184 | an NCID without votes has no county |
| History.FirstCountyIsMinimum | scripts/build_demographic_turnout.py:179 | the county chosen for an NCID is one of its counties and the smallest of them, NULLs last |
| History.Dedupe | scripts/build_demographic_turnout.py:167-184 | `voted_ncids` holds each NCID that voted, once, and no other NCID |
| History.DedupeKeepsFirstCounty | scripts/build_demographic_turnout_all.py:216-230 | each deduplicated voter's county is one of that NCID's counties and the smallest of them, NULLs last |
| Tally.Insert | scripts/build_demographic_turnout.py:88-92 | adding a row changes only its key's group, or opens a new group at the end; keys stay distinct |
| Tally.InsertTotal | scripts/build_demographic_turnout.py:88 | adding a row raises the grand total by its weight |
| Tally.GroupSum | scripts/build_demographic_turnout.py:88-92 | GROUP BY with SUM gives one group per distinct key, and each total is the sum of the weights of that key's rows |
| Tally.GroupSumConserves | scripts/build_demographic_turnout.py:88 | the group totals add up to the sum of all rows |
| Tally.SumForAbsent | scripts/build_demographic_turnout.py:88 | a key no row carries sums to 0 |
| Tally.GroupCount | scripts/build_demographic_turnout.py:384-386 | GROUP BY with COUNT gives one group per distinct key, counting that key's rows |
| Tally.GroupCountConserves | scripts/build_demographic_turnout.py:384 | the counts add up to the number of rows |
| Tally.CountAbsent | scripts/build_demographic_turnout.py:384 | a key no row carries has count 0 |
| VoterStats.TotalVoters | scripts/build_demographic_turnout.py:61 | a loaded total is an INTEGER in the single-election script and a BIGINT in the all-elections one |
| VoterStats.StatsLoaded | scripts/build_demographic_turnout_all.py:178 | every line kept has a total that casts and comes from the input; every such input line is kept |
| VoterStats.StatsLoadedCounts | scripts/build_demographic_turnout_all.py:178 | each line whose total casts is kept as often as it occurs, and no other line |
| VoterStats.StatsRaw | scripts/build_demographic_turnout.py:46-74 | `voter_stats_raw` has at most one row per line, and its dates hold no quotes |
| VoterStats.RemoveQuotesOpt | scripts/build_demographic_turnout.py:90 | removing quotes keeps NULL and leaves quote-free dates unchanged |
| VoterStats.DateFiltersAgree | scripts/build_demographic_turnout.py:90 | the extra quote removal of the single-election script selects the same rows as the all-elections filter at scripts/build_demographic_turnout_all.py:197 |
| VoterStats.CountsForElection | scripts/build_demographic_turnout.py:90-91 | the WHERE of the denominator: the row's date is the label, compared by SQL `=` so NULL never matches, and its type is `voter` in any case; DateFiltersAgree relates the two scripts' versions |
| VoterStats.ElectionRows | scripts/build_demographic_turnout.py:89-91 | every row kept is one of this election's `voter` rows, and every such row is kept |
| VoterStats.ElectionRowsCounts | scripts/build_demographic_turnout.py:89-91 | each of this election's `voter` rows is summed as often as it occurs, and no other row |
| VoterStats.Denominator | scripts/build_demographic_turnout.py:76-95 | every bucket carries the ISO date, and no key appears twice |
| VoterStats.DenominatorKeySound | scripts/build_demographic_turnout_all.py:183-202 | every bucket key is the key of some selected row |
| VoterStats.DenominatorKeyComplete | scripts/build_demographic_turnout_all.py:183-202 | every selected row's key is a bucket |
| VoterStats.DenominatorSums | scripts/build_demographic_turnout.py:88 | each bucket's registered count is the sum of `total_voters` over its rows, and the buckets add up to the total of all selected rows |
| Voters.AttrsLoaded | scripts/build_demographic_turnout_all.py:111 | the registration lines loaded are exactly the lines of the file that pass the NCID filter |
| Voters.Attrs | scripts/build_demographic_turnout.py:189-232 | `ncvoter_attrs` has at most one row per line, and its NCIDs hold no quotes |
| Voters.AttrsFor | scripts/build_demographic_turnout.py:253 | every join partner of an NCID has that NCID, and every registration row with it is a partner |
| Voters.AttrsForCounts | scripts/build_demographic_turnout.py:253 | each registration row with the NCID is a partner as often as it occurs, and no other row |
| Voters.JoinOne | scripts/build_demographic_turnout.py:251-253 | the LEFT JOIN gives each voter at least one row, carrying its NCID and voted county |
| Voters.JoinOneMatches | scripts/build_demographic_turnout.py:238-255 | a voter without registration gets one row of NULL attributes; otherwise one row per registration row, carrying that row's attributes |
| Voters.JoinAttrs | scripts/build_demographic_turnout_all.py:232-249 | `voted_joined` has at least one row per voter |
| Voters.JoinRowsBelong | scripts/build_demographic_turnout_all.py:232-249 | every joined row is a voter's NCID and voted county |
| Voters.JoinOneSingle | scripts/build_demographic_turnout.py:251-253 | with unique registration NCIDs each voter joins to exactly one row |
| Voters.JoinOneToOne | scripts/build_demographic_turnout.py:238-255 | with unique registration NCIDs, row i of `voted_joined` is voter i |
| Voters.GuardedRatio | scripts/build_demographic_turnout.py:270-271 | a zero denominator gives 0; otherwise the rate times the denominator is the numerator, and a part of a whole gives a rate between 0 and 1 |
| Voters.Qa | scripts/build_demographic_turnout_all.py:251-265 | the QA row carries the dates, the number of joined rows, the number of rows with NULL registration county, and the number of other rows whose counties differ; the join rate is over all rows and the county rate over the matched rows, each 0 for a zero denominator, and both lie between 0 and 1 |
| Voters.Matched | scripts/build_demographic_turnout.py:329-343 | `voted_clean` keeps only joined rows with a registration county |
| Voters.WhereComplement | scripts/build_demographic_turnout.py:341 | the rows kept and the join mismatches partition `voted_joined` |
| Voters.VotedWithAge | scripts/build_demographic_turnout.py:329-370 | exactly the join mismatches are dropped, one row per matched voter, each with the registration county, party, race, ethnicity and sex and the age band of its birth year |
| Voters.AgedKeys | scripts/build_demographic_turnout_all.py:322-328 | each aged row gives the bucket key of its columns |
| Voters.VoteCount | scripts/build_demographic_turnout.py:372-389 | `voted_aggregated` holds one row per key present among the voters, counts that key's voters, is dated by the election, and adds up to the number of voters |
| Buckets.KeyMatchesMeans | scripts/build_demographic_turnout.py:430-437 | the ON clause holds exactly for equal keys with no NULL column |
| Buckets.MatchesFor | scripts/build_demographic_turnout.py:430-437 | every match of a bucket satisfies the ON clause and comes from the counts; every such count row is a match |
| Buckets.MatchesForCounts | scripts/build_demographic_turnout.py:430-437 | each count row satisfying the ON clause matches as often as it occurs, and no other row |
| Buckets.MatchesAtMostOne | scripts/build_demographic_turnout_all.py:355-362 | distinct count keys give a bucket at most one match |
| Buckets.Rate | scripts/build_demographic_turnout.py:425-428 | the rate is NULL exactly when nobody is registered, and otherwise is voted over registered |
| Buckets.Bucket | scripts/build_demographic_turnout_all.py:342-353 | a bucket row keeps the denominator key and count, and its rate is NULL exactly for a zero count |
| Buckets.JoinBucket | scripts/build_demographic_turnout.py:424-437 | one row per matching count, or one row with voted count 0 when nothing matches |
| Buckets.BucketJoin | scripts/build_demographic_turnout.py:411-439 | the LEFT JOIN never has fewer rows than the denominator |
| Buckets.RowBuckets | scripts/build_demographic_turnout.py:411-439 | the bucket key and registered count of each joined row, in order |
| Buckets.BucketJoinKeepsBuckets | scripts/build_demographic_turnout.py:411-439 | the LEFT JOIN keeps every denominator bucket with its registered count |
| Buckets.BucketRowsBelong | scripts/build_demographic_turnout_all.py:337-364 | every bucket row comes from a denominator bucket, and its rate is NULL exactly when its count is 0 |
| Buckets.JoinBucketSingle | scripts/build_demographic_turnout.py:424-437 | with distinct count keys a bucket joins to exactly one row |
| Buckets.BucketJoinOnePerBucket | scripts/build_demographic_turnout.py:411-439 | when the count keys are distinct, as `VoteCount` guarantees, exactly one row per denominator bucket, in its order, with the matching count or 0 |
| Buckets.VotedForIsCount | scripts/build_demographic_turnout.py:424 | when the count keys are distinct, as `VoteCount` guarantees, a bucket whose complete key has a count row gets that count |
| Buckets.VotedForMissing | scripts/build_demographic_turnout.py:424 | a bucket with a NULL key column, or with no count of its key, gets 0 |
| Buckets.BucketVotedIsVoterCount | scripts/build_demographic_turnout_all.py:317-364 | a complete bucket's voted count is the number of matched voters with its key |
| Buckets.ElectionBuckets | scripts/build_demographic_turnout_all.py:183-364 | one election gives its QA row, dated by it, and one bucket row per denominator bucket, each carrying its ISO date |
| Buckets.ElectionBucketRow | scripts/build_demographic_turnout.py:411-439 | row i of an election's buckets carries bucket i's key, the SUM of `total_voters` over the statistics rows with that key as its registered count, a NULL rate exactly when that sum is 0, and, for a key with no NULL column, the number of matched voters with that key as its voted count |
| SingleBuild.BuildSingle | scripts/build_demographic_turnout.py:26-28 | a label that is not `m/d/y` stops with an unpacking error and a non-integer year with a value error; otherwise the build succeeds, and every bucket row carries the ISO date, one per denominator bucket (a label holding `'` is not covered, see "## Left out") |
| SingleBuild.DefaultLabelBuilds | scripts/build_demographic_turnout.py:20 | the default label `11/04/2025` builds the buckets of `2025-11-04` |
| SingleBuild.DefaultLabelYear | scripts/build_demographic_turnout.py:20-28 | the default label converts to `2025-11-04`, whose year reads back |
| Common.Map | scripts/build_demographic_turnout.py:172-174 | a SELECT of one column yields one value per row, in row order, each that row's value |
| Common.Where | scripts/build_demographic_turnout.py:341 | a WHERE selects only rows that satisfy its condition, and selects every such row |
| Common.WhereOne | scripts/build_demographic_turnout.py:341 | WHERE on a single row keeps it exactly when it satisfies the condition |
| Common.WhereAppend | scripts/build_demographic_turnout.py:341 | WHERE keeps the order of the rows: it distributes over concatenation |
| Common.WhereCounts | scripts/build_demographic_turnout.py:341 | WHERE keeps duplicates: a row satisfying the condition is selected as often as it occurs, any other row never |
| Common.WhereCountIf | scripts/build_demographic_turnout.py:261 | WHERE selects exactly as many rows as satisfy its condition, counted position by position |
| Common.WhereDisjoint | scripts/build_demographic_turnout.py:261-263 | two filters that no row satisfies together select at most all rows between them |
| Common.WhereAtMostOne | scripts/build_demographic_turnout.py:253 | a condition that at most one row satisfies selects at most one row |

## Left out

- File reading is left out: the `read_csv` options, the tab-separated parsing, and DuckDB's skipping of malformed lines (`ignore_errors`). Each input is a sequence of already split lines, one optional string per column used.
- The model leaves out the DuckDB connection, the PRAGMAs, argparse, `mkdir`, every `print`, the `COPY ... TO` exports, the mismatch CSVs, and the QA summary tables (`qa_summary_tmp`, `qa_all_tmp`).
- The debug queries at scripts/build_demographic_turnout.py:123-144 only print, so they are left out.
- The check queries at scripts/build_demographic_turnout.py:390-406 and 460-488 only print, so they are left out.
- The final ORDER BY of the combined export (scripts/build_demographic_turnout_all.py:371-390) is left out. `turnout_all` is modelled in insertion order.
- SingleBuild.BuildSingle: the single-election script pastes the ISO date and the label into the SQL text of `qa_summary_tmp` inside quotes (scripts/build_demographic_turnout.py:305-317). A label with a `'` in its month or day field, such as `11'/04/2025`, converts without error, but then that statement no longer parses, and the script stops with the DuckDB error before `turnout_buckets` is built. Other labels with quotes can make the statement read as different SQL. The model does not parse SQL text, so it returns the buckets for such a label; its result is the script's only for labels without `'`. The all-elections script does not have this failure, because its labels are made of eight digits.
- PyStrings.PathName: models `Path(p).name` for POSIX paths only. On Windows `Path` also splits at `\`, and that is not modelled.
- `glob` matching is left out. The file list is a parameter, and the model proves only the sort and what follows it.
- Floating point is left out. Turnout and mismatch rates are exact `real` quotients, so DOUBLE rounding is not modelled.
- DuckDB integer overflow in the age subtraction and in `SUM` is not modelled. Sums are unbounded integers.
- The precinct, VTD and update-date columns of the voter statistics are read but never used, so they are left out.
- `trim` removes spaces only. `lower` and `upper` change only ASCII letters.
- `isdigit` and `int` are taken over ASCII digits, so the model accepts a file name only when what is left of it is eight ASCII digits. Python's `isdigit` is wider than `int`. It also accepts characters such as `²` that `int` rejects. A name that leaves such a character passes the test at scripts/build_demographic_turnout_all.py:145, and the model rejects it instead. If the character falls in the four year digits, `int` then raises a ValueError at line 151 and the script stops; the model does not have that failure. If it falls in the month or day, as in `voter_stats_2025110².txt`, the script processes the file as an election labelled `11/0²/2025` and appends its QA row (line 271) and its buckets (line 366); the model skips that file and drops both. `int` also accepts other Unicode decimal digits, underscores and surrounding whitespace, which are not modelled either.
- `TRY_CAST` is modelled as an optional sign followed by ASCII digits within the range of its type. DuckDB also accepts surrounding spaces and other forms.
- Voters.Attrs: states only the row count bound and that NCIDs hold no quotes. The exact rows are its body, `AttrRowOf` over the lines that pass `AttrLoads`.
- VoterStats.StatsRaw: states only the row count bound and that dates hold no quotes. The exact rows are `StatsRowOf` over the lines whose total casts.
- Voters.JoinAttrs: states only the length bound. Its row contents are stated by JoinOneMatches, JoinRowsBelong and JoinOneToOne.
- PyStrings.RemoveAll: states only the length bound. Its behaviour on file names is stated by RemoveAllKeeps, RemoveAllLeading, RemoveAllPieces, StripPrefix and StripSuffix.
- DateLabels.YearOf: states only the kind of its failure. What it reads is stated by YearIsYearField and FileDateToIso.

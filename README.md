# Academy Awards winners, scraped and enriched — a Dafny model

This project models the core of a small data pipeline. The pipeline reads the list
of Academy Awards ceremonies from Wikipedia and keeps the 40 most recent ones. It
scrapes each ceremony's "Winners and nominees" table into one record per winner and
per nominee. It derives each nomination's eligibility year (Release) from the
ceremony date. It looks up every distinct (Movie, Release) pair once in the OMDb API,
spreading the requests round-robin over several API keys. Finally it left-joins the
answers back onto the nominations.

Modules:

- `Wrappers`: `Option` and `Result`. Every Python exception the core can raise is an
  `Error`: `HttpStatusError` (`raise_for_status`), `IndexError`, `AttributeError`
  (`.strip()` on a missing `.text`), `ValueError` (`strptime`) and `KeyError`
  (pandas column lookup).
- `Text`: `str.strip()` with Python's `isspace` set, `str.split` / `str.join` on one
  character, and `str.replace(c, "")`.
- `Digits`: decimal digit strings, their values, and canonical and zero-padded
  rendering.
- `Dates`: `datetime.strptime(x, "%B %d, %Y")`, with validation against the calendar.
- `Wikipedia`: `WikipediaExtractor.get_ceremonies` (the detail-page URL) and
  `get_movies_all` (the cell-by-cell scrape with its two-pattern fallbacks), covering
  both its specification functions and the imperative methods proved against them.
- `Omdb`: the `OmdbExtractor` class, with its key cursor, `_get_api_key`,
  `search_movie_metadata` (BoxOffice normalisation and record construction) and
  `execute` (cursor reset and the filter that drops failed lookups).
- `Pipeline`: the script. It splits the keys on `;`, takes `tail(40)`, computes
  Release as the year less one, drops duplicate pairs, and does the left merge. `Run`
  is the script as a method, proved equal to the specification function
  `PipelineResult`.

Pages and the OMDb service are parameters:
- a function from URL to parsed listing page;
- a function from URL to parsed detail page, which holds the link texts each XPath
  query selects, in document order;
- a function from request to response.

Behaviour of the code worth knowing:

- The detail-page URL hard-codes `https://en.wikipedia.org` instead of using the
  extractor's domain. `Wikipedia.CeremoniesIgnoreDomain` proves that the result does
  not depend on the domain.
- Any status-200 answer becomes a record, even a "movie not found" answer whose
  fields are all missing. Only a non-200 status drops a lookup.
- A BoxOffice of `$0` gives a cost of 0. Nothing rejects zero.
- Lookups run concurrently in the code, and their results come back in completion
  order. The model runs them one after another in input order. With distinct keys,
  `Pipeline.LeftJoinOrderFree` shows that the merged table does not depend on that
  order.

## Model

| member | source | states |
|---|---|---|
| Text.Strip | extractor/wikipedia/wikipedia_extractor.py:61-62 | `strip()` never lengthens a string and leaves neither end whitespace |
| Text.StripInfix | extractor/wikipedia/wikipedia_extractor.py:61-62 | the stripped text is a slice of the input, with only whitespace removed, and only from the two ends |
| Text.StripExact | extractor/wikipedia/wikipedia_extractor.py:61-62 | stripping whitespace around a trimmed string gives exactly that string, so strip is determined by its contract |
| Text.StripIdempotent | extractor/wikipedia/wikipedia_extractor.py:61-62 | stripping twice is stripping once |
| Text.Split | oscardata/__main__.py:12 | `split(";")` gives at least one piece, no piece holds a `;`, and joining the pieces with `;` gives back the string |
| Text.SplitNoSeparator | oscardata/__main__.py:12 | a string without `;` splits into itself alone |
| Text.SplitJoin | oscardata/__main__.py:12 | splitting undoes joining for any non-empty list of `;`-free pieces |
| Text.RemoveAll | oscardata/omdb.py:48 | `replace(c, "")` leaves no `c` and never lengthens the string |
| Text.RemoveAllKeeps | oscardata/omdb.py:48 | every other character occurs after the removal exactly when it occurred before |
| Text.RemoveAllConcat | oscardata/omdb.py:48 | removing a character distributes over concatenation |
| Text.RemoveAllAbsent | oscardata/omdb.py:48 | removing a character that does not occur changes nothing |
| Digits.Value | oscardata/omdb.py:50 | a digit string of length k has a value below 10^k |
| Digits.ShowNat | oscardata/omdb.py:50 | the decimal rendering of n is a non-empty digit string, and it is one digit exactly when n < 10 |
| Digits.ValueOfShowNat | oscardata/omdb.py:50 | reading back the rendering of n gives n |
| Digits.ShowPadded | oscardata/__main__.py:37 | the zero-padded rendering has exactly the requested width and only digits |
| Digits.ValueOfShowPadded | oscardata/__main__.py:37 | reading back a zero-padded rendering of n gives n, when n fits the width |
| Digits.ParseNat | oscardata/omdb.py:50 | a number comes out exactly when the string is non-empty and all digits |
| Digits.ParseShowNat | oscardata/omdb.py:50 | parsing the rendering of n gives n |
| Dates.DaysInMonth | oscardata/__main__.py:37 | every month has 28 to 31 days |
| Dates.MatchMonth | oscardata/__main__.py:37 | `%B` selects the first month, ignoring case, whose name starts the string, and fails only when none does |
| Dates.MatchMonthFinds | oscardata/__main__.py:37 | a string starting with a month's name, in any case, selects that month |
| Dates.LeadingSpaces | oscardata/__main__.py:37 | the whitespace run that starts the string is all whitespace and is maximal |
| Dates.ParseDay | oscardata/__main__.py:37 | `%d` reads a day 1-31 from one or two leading digits, and the day is the value of exactly the digits it consumed |
| Dates.ParseYear | oscardata/__main__.py:37 | `%Y` at the end succeeds exactly when the rest is four digits denoting a year from 1 on whose month has the day; the date is that year with the month and day read before it; otherwise ValueError |
| Dates.ParseAfterDay | oscardata/__main__.py:37 | after the day, `,\s+%Y` gives a valid date with that month and day, and otherwise ValueError |
| Dates.ParseAfterMonth | oscardata/__main__.py:37 | the rest after the month name parses to a valid date in that month, and otherwise ValueError |
| Dates.ParseLongDate | oscardata/__main__.py:37 | `strptime(x, "%B %d, %Y")` yields only real calendar dates in years 1-9999, and every failure is ValueError |
| Dates.LeadingSpacesOf | oscardata/__main__.py:37 | `\s+` consumes exactly the run of whitespace before the next non-whitespace character |
| Dates.ParseDayOf | oscardata/__main__.py:37 | one or two digits before a comma read as the day they denote |
| Dates.ParseAfterDayComplete | oscardata/__main__.py:37 | a comma, whitespace and the four digits of a valid date's year read back as that date |
| Dates.ParseAfterDaySound | oscardata/__main__.py:37 | whatever parses after the day is a comma, a non-empty run of whitespace and four digits denoting the year |
| Dates.ParseAfterMonthComplete | oscardata/__main__.py:37 | whitespace, the day's digits, a comma, whitespace and the year's four digits parse to the date |
| Dates.ParseAfterMonthSound | oscardata/__main__.py:37 | whatever parses after the month name has exactly that shape, with the digits denoting the date's day and year |
| Dates.ParseLongForm | oscardata/__main__.py:37 | any valid date written as its month's name in any case, whitespace, the day in one or two digits, a comma, whitespace and four year digits parses to that date |
| Dates.ParseLongDateSound | oscardata/__main__.py:37 | every string that parses is written in that long form for the date it gives |
| Dates.ParseLongDateIff | oscardata/__main__.py:37 | `strptime` gives `d` exactly when `d` is a valid date and the string writes `d` in the long form |
| Dates.ParseFormatLongDate | oscardata/__main__.py:37 | every valid date written as "March 27, 2022" reads back as itself |
| Wikipedia.GetCeremonies | extractor/wikipedia/wikipedia_extractor.py:19-37 | a non-2xx listing fails with HttpStatusError; fewer than two tables fail with IndexError; the result is Ok exactly when neither happens, and then it has one ceremony per row of the second table, with its number, date and cells kept and its url `https://en.wikipedia.org/wiki/<#>_Academy_Awards` |
| Wikipedia.EditionOfCeremonyUrl | extractor/wikipedia/wikipedia_extractor.py:35-37 | the edition number can be read back from the derived url, so distinct ceremonies get distinct urls |
| Wikipedia.CeremoniesIgnoreDomain | extractor/wikipedia/wikipedia_extractor.py:35-37 | two extractors that see the same listing page give the same ceremonies, urls included, whatever their configured domain |
| Wikipedia.StrippedText | extractor/wikipedia/wikipedia_extractor.py:61-62 | `.text.strip()` succeeds exactly when the element has text, gives the stripped text, and otherwise raises AttributeError |
| Wikipedia.StrippedTexts | extractor/wikipedia/wikipedia_extractor.py:73-75 | the nominee texts succeed exactly when every link has text, and are their stripped texts in order |
| Wikipedia.CategoryBlock | extractor/wikipedia/wikipedia_extractor.py:63-86 | a category yields the winner's record first, then one non-winner record per nominee, in order |
| Wikipedia.CellRecords | extractor/wikipedia/wikipedia_extractor.py:52-86 | a cell yields no records exactly when neither winner pattern matches, and it can fail only with IndexError or AttributeError |
| Wikipedia.CellRecordsErrors | extractor/wikipedia/wikipedia_extractor.py:53-62 | IndexError exactly when a winner exists but neither category pattern matches; AttributeError exactly when the category label, the winner or a nominee link has no text |
| Wikipedia.CellRecordsIsBlock | extractor/wikipedia/wikipedia_extractor.py:53-86 | when the category, winner and nominee texts are read, the cell yields exactly their block |
| Wikipedia.CellRecordsParts | extractor/wikipedia/wikipedia_extractor.py:53-86 | a cell that yields records has a winner and a category, and its records are the block of their texts |
| Wikipedia.CellRecordsWinnerFirst | extractor/wikipedia/wikipedia_extractor.py:63-86 | one winner record and then one record per nominee link, each holding that link's stripped text |
| Wikipedia.CellRecordsFallbacks | extractor/wikipedia/wikipedia_extractor.py:53-61 | the winner is the first bold-italic link, else the first italic-bold link; the category is the last linked bold label, else the last bold label |
| Wikipedia.CellRecordsCopyRow | extractor/wikipedia/wikipedia_extractor.py:63-86 | every record of a cell has the cell's category and the ceremony's number, date and url |
| Wikipedia.CeremonyRecords | extractor/wikipedia/wikipedia_extractor.py:52-86 | scraping a table fails only with IndexError or AttributeError |
| Wikipedia.CeremonyRecordsCells | extractor/wikipedia/wikipedia_extractor.py:52-86 | a table reads exactly when each of its cells reads, and a failing table raises one of its cells' exceptions |
| Wikipedia.PageRecords | extractor/wikipedia/wikipedia_extractor.py:44-86 | a ceremony page fails with HttpStatusError exactly when its status is not 2xx; it fails otherwise only with IndexError or AttributeError; a page that reads has a winners table |
| Wikipedia.AllRecords | extractor/wikipedia/wikipedia_extractor.py:41-87 | the scrape of all ceremonies fails only with HttpStatusError, IndexError or AttributeError |
| Wikipedia.AllRecordsPages | extractor/wikipedia/wikipedia_extractor.py:41-87 | the scrape reads exactly when every ceremony's page reads, and a failing scrape raises one of the pages' exceptions |
| Wikipedia.CeremonyRecordsFailEarly | extractor/wikipedia/wikipedia_extractor.py:52-86 | the first failing cell ends the table scrape with its error |
| Wikipedia.AllRecordsFailEarly | extractor/wikipedia/wikipedia_extractor.py:43-51 | the first failing ceremony ends the whole scrape with its error |
| Wikipedia.CeremonyRecordsAppend | extractor/wikipedia/wikipedia_extractor.py:52 | scraping two runs of cells is scraping the first and then the second |
| Wikipedia.SkippedCell | extractor/wikipedia/wikipedia_extractor.py:54-57 | a cell where neither winner pattern matches is skipped without trace |
| Wikipedia.CeremonyRecordsCount | extractor/wikipedia/wikipedia_extractor.py:52-86 | a table yields one record per winner and one per nominee of every cell with a winner |
| Wikipedia.CeremonyRecordsCopyRow | extractor/wikipedia/wikipedia_extractor.py:63-86 | every record of a table carries its ceremony's number, date and url |
| Wikipedia.AllRecordsFromRows | extractor/wikipedia/wikipedia_extractor.py:41-87 | every scraped record's number, date and url come from one of the given ceremonies |
| Wikipedia.AppendBlock | extractor/wikipedia/wikipedia_extractor.py:63-86 | appending a winner and its nominees one at a time appends exactly their block |
| Wikipedia.AppendCellRecords | extractor/wikipedia/wikipedia_extractor.py:53-86 | the cell loop body appends the cell's records, or stops with the cell's error |
| Wikipedia.AppendTableRecords | extractor/wikipedia/wikipedia_extractor.py:52-86 | the loop over cells appends the table's records, or stops with the first error |
| Wikipedia.AppendPageRecords | extractor/wikipedia/wikipedia_extractor.py:44-86 | one ceremony: HttpStatusError on a non-2xx page, IndexError without a winners table, and otherwise the table's records appended |
| Wikipedia.GetMoviesAll | extractor/wikipedia/wikipedia_extractor.py:41-87 | the loop over ceremonies returns exactly the specified scrape of all of them, or its first error |
| Omdb.Field | oscardata/omdb.py:54-56 | `data.get(key)` is present exactly when the key is, with its value |
| Omdb.BoxOfficeCost | oscardata/omdb.py:45-47 | a missing or "N/A" BoxOffice gives no cost |
| Omdb.BoxOfficeCostDigits | oscardata/omdb.py:48-52 | any other BoxOffice gives a cost exactly when the string left once `$` and `,` are removed is non-empty and all digits, and the cost is the value of those digits |
| Omdb.BoxOfficeRejectsOtherCharacters | oscardata/omdb.py:48-52 | any character besides digits, `$` and `,` gives no cost |
| Omdb.UngroupGrouped | oscardata/omdb.py:48 | removing the commas of a thousands-grouped number gives back its digits |
| Omdb.BoxOfficeDollars | oscardata/omdb.py:45-52 | every amount written as `$1,234,567` reads back as that amount |
| Omdb.BoxOfficeExample | oscardata/omdb.py:45-52 | "$45,678" gives 45678 |
| Omdb.MetadataOf | oscardata/omdb.py:41-64 | no record exactly when the status is not 200; otherwise Movie and Release echo the query, Cost is the BoxOffice cost, and Director, Duration and IMDB are the Director, Runtime and imdbID fields |
| Omdb.Lookup | oscardata/omdb.py:37-43 | a lookup gives no record exactly when the service answers its request with a status other than 200; a record echoes the pair asked for |
| Omdb.KeySchedule | oscardata/omdb.py:17-21 | the i-th lookup after a reset uses key i mod the number of keys |
| Omdb.KeyScheduleRepeats | oscardata/omdb.py:17-21 | k times n lookups use the n keys k times over, in order |
| Omdb.Lookups | oscardata/omdb.py:77-81 | one answer per pair |
| Omdb.LookupsAt | oscardata/omdb.py:77-81 | the i-th answer is the lookup of the i-th pair with key i mod the number of keys |
| Omdb.LookupsFollowSchedule | oscardata/omdb.py:77-81 | the i-th lookup uses the i-th key of the schedule |
| Omdb.Successful | oscardata/omdb.py:82-86 | the `is not None` filter never adds records |
| Omdb.SuccessfulMembers | oscardata/omdb.py:82-86 | the filter keeps exactly the records of the lookups that answered |
| Omdb.SuccessfulCount | oscardata/omdb.py:82-86 | the filter never adds records, and drops none exactly when every lookup answered |
| Omdb.SuccessfulKeysDistinct | oscardata/omdb.py:82-86 | answers to lookups with pairwise different keys have pairwise different keys |
| Omdb.EnrichedStep | oscardata/omdb.py:82-86 | looking up one more pair appends its record when it answered, and nothing otherwise |
| Omdb.Enriched | oscardata/omdb.py:66-87 | at most as many records as pairs looked up |
| Omdb.EnrichedNoAnswers | oscardata/omdb.py:41-43 | when no answer has status 200, no record is left |
| Omdb.EnrichedMembers | oscardata/omdb.py:66-87 | a record is in the result exactly when it is the answer to one of the pairs |
| Omdb.EnrichedFromPairs | oscardata/omdb.py:66-87 | every record's (Movie, Release) is one of the requested pairs |
| Omdb.EnrichedCount | oscardata/omdb.py:66-87 | exactly one record for each pair whose lookup, with the key the schedule gives it, answered with 200, so one for every pair exactly when every lookup answered with 200 |
| Omdb.SuccessfulCountsAnswers | oscardata/omdb.py:66-87 | the filter keeps as many records as lookups that answered |
| Omdb.EnrichedKeysDistinct | oscardata/omdb.py:66-87 | distinct pairs give records with distinct (Movie, Release) |
| Omdb.OmdbExtractor.constructor | oscardata/omdb.py:13-15 | the extractor keeps the keys and starts at key 0 |
| Omdb.OmdbExtractor.GetApiKey | oscardata/omdb.py:17-21 | returns the key under the cursor and advances the cursor by one, wrapping; IndexError with no keys |
| Omdb.OmdbExtractor.SearchMovieMetadata | oscardata/omdb.py:23-64 | claims the next key, asks the service, and returns its record or none; IndexError with no keys |
| Omdb.OmdbExtractor.Execute | oscardata/omdb.py:66-87 | resets the cursor, looks up every pair, and returns exactly the answered records, leaving the cursor at the number of pairs mod the number of keys; with no keys, the cursor is left at 0 and the result is IndexError unless there is nothing to look up |
| Pipeline.ApiKeys | oscardata/__main__.py:12 | at least one key, none containing `;`, and joining them with `;` gives back the setting (empty when unset) |
| Pipeline.ApiKeysUnset | oscardata/__main__.py:12 | an unset setting gives the one key "" |
| Pipeline.ApiKeysRoundTrip | oscardata/__main__.py:12 | any non-empty list of `;`-free keys survives being written as the setting |
| Pipeline.LastN | oscardata/__main__.py:22 | `tail(n)` is the suffix of length min(n, size) |
| Pipeline.ReleaseOf | oscardata/__main__.py:36-38 | Release is the ceremony year less one, in 0-9998; a date that does not parse raises ValueError |
| Pipeline.ReleaseOfFormatted | oscardata/__main__.py:36-38 | a ceremony on any valid date gets the year before as Release |
| Pipeline.ReleaseOfExample | oscardata/__main__.py:36-38 | "March 27, 2022" gives Release 2021 |
| Pipeline.ApplyToDates | oscardata/__main__.py:36-38 | `apply` over the Date column gives one row per nomination, or fails with the failure of some nomination's date |
| Pipeline.ApplyToDatesRows | oscardata/__main__.py:36-38 | `apply` succeeds exactly when every date succeeds, and then keeps every nomination in order with its value |
| Pipeline.WithRelease | oscardata/__main__.py:36-38 | KeyError exactly when there are no nominations (no Date column); any other failure is a date's ValueError |
| Pipeline.WithReleaseRows | oscardata/__main__.py:36-38 | with nominations, the Release column exists exactly when every date parses, and then every nomination is kept in order with the year before its ceremony |
| Pipeline.PairsOf | oscardata/__main__.py:40 | the (Movie, Release) of every row, in order |
| Pipeline.Dedup | oscardata/__main__.py:40 | `drop_duplicates()` keeps every pair that occurs, each once |
| Pipeline.DedupFirstOccurrenceOrder | oscardata/__main__.py:40 | the kept pairs are in the order of their first occurrences |
| Pipeline.Matches | oscardata/__main__.py:46-48 | the records a nomination joins with are exactly those with its (Movie, Release) |
| Pipeline.MatchesAtMostOne | oscardata/__main__.py:46-48 | with distinct keys on the right, a nomination matches at most one record |
| Pipeline.JoinRow | oscardata/__main__.py:46-48 | a nomination yields at least one merged row, and every one of them carries that nomination |
| Pipeline.JoinRowContents | oscardata/__main__.py:46-48 | a nomination's merged rows carry only records with its (Movie, Release), every such record appears, and an empty-columns row is the only row and means no record matched |
| Pipeline.JoinRowSingle | oscardata/__main__.py:46-48 | with distinct keys on the right, a nomination yields one row, carrying its record or nothing |
| Pipeline.LeftJoin | oscardata/__main__.py:46-48 | a left join has at least as many rows as nominations |
| Pipeline.LeftJoinKeepsEveryNomination | oscardata/__main__.py:46-48 | every nomination has a merged row, and every merged row carries one of the nominations |
| Pipeline.LeftJoinSingles | oscardata/__main__.py:46-48 | with distinct keys on the right, the merge has one row per nomination, the i-th being the i-th nomination's single row |
| Pipeline.LeftJoinOneToOne | oscardata/__main__.py:46-48 | with distinct keys on the right, the i-th merged row is the i-th nomination, carrying the one record with its key, or nothing exactly when no record has it |
| Pipeline.LeftJoinCarriesNominations | oscardata/__main__.py:46-48 | with distinct keys on the right, the merged rows carry back exactly the nominations, in order |
| Pipeline.LeftJoinOrderFree | oscardata/__main__.py:43-48 | with distinct keys, the merge does not depend on the order of the records |
| Pipeline.MergeAsWritten | oscardata/__main__.py:43-48 | the merge raises KeyError when no lookup answered, and is the left join otherwise |
| Pipeline.MergeWithoutAnswers | oscardata/__main__.py:43-48 | with no answers, the merge as written raises KeyError, while the left join keeps every nomination with empty enrichment columns |
| Pipeline.NoAnswersAsWritten | oscardata/__main__.py:43-48 | when no OMDb answer has status 200, the merge as written raises KeyError, while the left join keeps every nomination with empty enrichment columns |
| Pipeline.MergeFitsAnswers | oscardata/__main__.py:40-48 | merging the nominations with the answers for their distinct pairs gives each nomination its own answer or nothing, and loses no nomination |
| Pipeline.PipelineResult | oscardata/__main__.py:12-48 | a finished run keeps at most 40 ceremonies, has at least one nomination and at least as many merged rows as nominations (one per nomination, in order, by `Pipeline.PipelineKeepsEveryNomination`); with the corrected merge, KeyError means the scrape found no nominations |
| Pipeline.PipelineKeepsEveryNomination | oscardata/__main__.py:12-48 | a finished run keeps at most 40 ceremonies and one merged row per nomination, in order, each with the year before its ceremony as Release |
| Pipeline.PipelineRowsFitAnswers | oscardata/__main__.py:40-48 | in a finished run, every merged row holds either nothing or the one answer the lookups of the distinct (Movie, Release) pairs gave for its own pair |
| Pipeline.Run | oscardata/__main__.py:12-48 | the script's steps, the OMDb client included, compute exactly `PipelineResult` |

## Left out

- HTTP transport, HTML parsing, XPath and CSS selection, and `pd.read_html`. Pages are
  given as their parsed tables and selected link texts. Network failures other than
  an HTTP status, and invalid JSON from OMDb, are not modelled.
- The `ceremony_table_xpath` setting is stored by the constructor and never read. The
  model keeps the field but nothing uses it.
- `Wikipedia.GetCeremonies`: the columns other than `#` and `Date` are carried as
  opaque cell text. `pd.read_html`'s type inference is not modelled, so `#` is the
  cell's text as displayed.
- `Omdb.BoxOfficeCost`: costs are exact naturals, not Python floats. Other strings
  that `float()` accepts give no cost here: a decimal point, a sign, an exponent,
  surrounding whitespace, underscores, "inf" and "nan", and non-ASCII decimal digits
  such as the fullwidth "$４５,６７８".
- `Omdb.OmdbExtractor.Execute`: lookups run one after another in submission order.
  The thread pool, the completion order and the unsynchronised cursor are not
  modelled. Under races the code may hand the same key to two lookups, and the model
  never does. Result order does not affect the merge, as `Pipeline.LeftJoinOrderFree`
  shows.
- Logging, reading the configuration file (the setting is a parameter), and the CSV
  files the script writes (`Run` returns the three tables instead).
- `Pipeline.PipelineResult`, `Pipeline.PipelineKeepsEveryNomination`,
  `Pipeline.PipelineRowsFitAnswers`: the run is specified with the corrected left
  join. When the scrape finds nominations but no lookup answers with status 200, the
  script itself raises KeyError at the merge, while `PipelineResult` is Ok with every
  nomination kept. The script's KeyError is `Pipeline.MergeAsWritten`, and
  `Pipeline.NoAnswersAsWritten` shows the input that triggers it (see Findings).
- `Pipeline.Run`: the merge used is the corrected left join. The code's KeyError on
  an empty enrichment table is `Pipeline.MergeAsWritten` (see Findings).
- `Dates.ParseLongDate`: locale-dependent month names are not modelled. The C locale's
  English names are used, matched ignoring ASCII case.
- `Dates.ParseDay`, `Dates.ParseYear`: only ASCII digits are read. Python's `\d` in
  `strptime` also accepts the other Unicode decimal digits, so "March 27, ２０２２"
  (fullwidth digits) parses in Python and gives ValueError here.
- The Streamlit dashboard (`app.py`) is not part of this model.

## Findings

| source | as written | input that shows it | evidently intended | confidence | as-written member | corrected member |
|---|---|---|---|---|---|---|
| oscardata/__main__.py:43-48 | the enrichment table is built from the answered records; when there are none it has no columns, and `pd.merge(..., on=["Movie", "Release"], how="left")` raises KeyError | every OMDb lookup answers with a status other than 200, for example when all keys are rejected | a left join that keeps every nomination with empty enrichment columns | not executed; high (pandas looks up the `on` columns in both frames) | Pipeline.MergeAsWritten | Pipeline.LeftJoinOneToOne |

# repo-birthday in Dafny

repo-birthday finds the first commit of each of a GitHub user's repositories.
It works out the next yearly anniversary of each commit and lists the
repositories by how soon that anniversary comes. This project models the
sequential rules under that service and proves properties of them:

- the anniversary arithmetic on proleptic Gregorian dates (`models.dfy`);
- finding a repository's first commit with one or two GraphQL queries, and
  the seek cursor of the second query (`commits.dfy`);
- the paginated listing of a user's repositories, without forks
  (`repositories.dfy`);
- the GraphQL client's retry loop on HTTP 403, and how long it waits
  (`graphql.dfy`);
- collecting the first commits and sorting them by days to the next
  anniversary (`web.dfy`, with the stable sort in `sorting.dfy`);
- the cache's keys and Cloudflare KV URLs (`cache.dfy`).

Supporting modules:

- `wrappers.dfy` holds `Option` and `Result`.
- `errors.dfy` lists the errors the operations return.
- `numerals.dfy` covers Rust's decimal `Display` of integers and `u64::from_str`.
- `text.dfy` covers `str::split` at a character and `join`.

The world outside the program becomes inputs:

- The clock becomes a `today` parameter.
- The GraphQL client becomes a function from a query to the reply body.
- JSON decoding becomes a function from a body to a decoded response.
- The paginated server becomes the sequence of pages it answers.
- The rate-limited server becomes the sequence of replies it gives.
- The spawned tasks become the sequence of results in arrival order.

Sleeping becomes a recorded number of seconds.

`SortByKey` sorts an array in place and is proved to produce
`InsertionSorted` of its old contents. `StableSortIsInsertionSort` shows
that every stable sort by key gives this same sequence. So the model pins
down what `sort_by_key` returns, whatever algorithm the standard library
uses.

## Model

| member | source | states |
|---|---|---|
| Models.ChangeYear | src/models.rs:22-41 | The result has the requested year. The same year gives the date back unchanged. February 29 moved to a common year (Gregorian rule) becomes March 1. Every other date keeps its month and day. The result is always a valid date, so the panic branch cannot be reached. |
| Models.FromYmd | src/models.rs:37-40 | `from_ymd_opt` gives a date exactly when the year, month and day form a valid date, and then that date. |
| Models.NextAnniversary | src/models.rs:44-57 | The result is never before today. Its year is today's year or the next. It is the commit date moved to that year. It is today when the commit date is today. It is next year's exactly when this year's anniversary is before today. |
| Models.NextAnniversaryIsEarliest | src/models.rs:51-54 | No earlier year's anniversary is still ahead: this year's anniversary is chosen whenever it is not before today. |
| Models.NextAnniversaryIsToday | src/models.rs:47-54 | The anniversary is today exactly when this year's anniversary is today. This is weaker than "exactly when the commit date is today", which does not hold. |
| Models.DayNumberOrder | src/models.rs:52 | Day numbers order dates the way `NaiveDate` comparison does, and equal day numbers mean equal dates. |
| Models.ConsecutiveAnniversaries | src/models.rs:51-53 | Anniversaries in consecutive years are 365 or 366 days apart. |
| Models.DayNumberEpochs | src/models.rs:60 | 0001-01-01 is day 0 and 1970-01-01 is day 719162. |
| Models.DaysToNextAnniversaryBounds | src/models.rs:59-61 | The day difference between the next anniversary and today is between 0 and 365, and it is 0 exactly when the anniversary is today. |
| Models.DaysToNextAnniversary | src/models.rs:59-61 | Days to the next anniversary: at least 0, at most 365, and 0 exactly on the anniversary. |
| Models.Age | src/models.rs:63-65 | The age is today's year minus the commit's year, plus one exactly when this year's anniversary has passed. It is never negative when the commit's year is not after today's. |
| Models.LeapDayAnniversaries | src/models.rs:22-57 | For a 2020-02-29 commit: from 2023-01-10 the next anniversary is 2023-03-01. From 2023-03-15 it is 2024-02-29, 351 days away, with age 4. From 2024-01-01 it is 2024-02-29. |
| Models.DaysToNextAnniversaryAsWritten | src/models.rs:59-61 | With the clock read twice, the result agrees with `DaysToNextAnniversary` whenever both readings give the same day. |
| Models.NextDayIsPlusOne | src/models.rs:60 | The day after any date has a day number one greater, so day-number differences count days as `NaiveDate` subtraction does. |
| Models.MidnightBetweenReadings | src/models.rs:59-61 | For every commit and every anniversary of it: when the first reading is the anniversary and the second is the next day, the day count is -1. |
| Commits.Cursor | src/commits.rs:16-22 | The cursor never fails. Its hash is a prefix of the end cursor with no space in it, followed in the end cursor by a space or by nothing. So the hash is the text before the first space, or the whole end cursor. |
| Commits.SeekOffset | src/commits.rs:118-121 | The offset is `total_count - 2` when that is not negative, and 0 otherwise. |
| Commits.LastCommitCursor | src/commits.rs:117-128 | The seek cursor never fails. Split at spaces, it gives exactly the end cursor's hash and the decimal offset. |
| Commits.SeekCursorRoundTrip | src/commits.rs:117-128 | Taking the cursor of the seek cursor gives the original hash back, and its second piece parses back to the offset. |
| Commits.BranchLastCommit | src/commits.rs:130-135 | The result is the last node, and `None` exactly when there are no nodes. |
| Commits.AsFirstCommit | src/commits.rs:33-41 | The first commit copies the message and date, the repository's name and the owner's login. |
| Commits.LastCommitFromCursor | src/commits.rs:44-60 | One `last_commit` query with the given cursor. Client errors pass through. A body that does not decode gives the parse error. Otherwise the result is the last node of the default branch, or `None` when the branch or its nodes are missing, and any commit it returns is a node of that reply. |
| Commits.LastCommit | src/commits.rs:62-93 | One or two queries. The first is `cursor_or_last_commit`, and its client or parse errors are returned. No default branch, or a count of 0, gives `None` after one query. A count of 1 with a node present gives that node after one query. In every other case there is exactly one seek query carrying `last_commit_cursor`: its errors pass through and its last node becomes the first commit. A returned commit carries the repository's name and owner. |
| Repositories.Clone | src/repositories.rs:19-28 | The copy equals the original. |
| Repositories.Display | src/repositories.rs:31-35 | The rendering is the owner's login, '/', then the name. |
| Repositories.DisplayIdentifies | src/repositories.rs:31-35 | When logins have no '/', equal renderings mean the same owner and name. |
| Repositories.WithoutForks | src/repositories.rs:45-52 | The filter keeps no fork and never lengthens the list. |
| Repositories.WithoutForksMembers | src/repositories.rs:51 | A repository is kept exactly when it is in the page and is not a fork. |
| Repositories.WithoutForksAppend | src/repositories.rs:45-52 | Filtering keeps the order: filtering a concatenation concatenates the filtered parts. |
| Repositories.WithoutForksKeepsSources | src/repositories.rs:51 | A page without forks is kept whole. |
| Repositories.ListedMembers | src/repositories.rs:45-52 | The listing holds exactly the non-fork repositories of the pages read. |
| Repositories.ListedHasNoForks | src/repositories.rs:45-52 | The listing contains no fork. |
| Repositories.ReposFor | src/repositories.rs:37-58 | One request per page read, up to and including the first page without a next page. The first request has the empty cursor, and each later one the end cursor of the page before. An error is returned at once, with no partial list. Otherwise the result is the pages' non-fork repositories, page after page. |
| GraphQL.HeaderTextReadsBytes | src/graphql.rs:57 | `to_str` succeeds exactly when every byte is a tab or visible ASCII, and then the text has those characters. |
| GraphQL.RetryWait | src/graphql.rs:53-59 | The wait fits in a `u64`, and it is `DEFAULT_WAIT` (3) when there is no `retry-after` header. |
| GraphQL.RetryWaitReadsHeader | src/graphql.rs:53-59 | A header holding the decimal digits of n gives a wait of exactly n seconds, for every `u64` n. |
| GraphQL.RetryWaitFallsBack | src/graphql.rs:52-59 | A header that is not visible ASCII, or does not parse as a `u64`, gives `DEFAULT_WAIT`. |
| GraphQL.WaitsFollowReplies | src/graphql.rs:51-62 | There is one recorded wait per 403, and each is the wait its own reply asked for. |
| GraphQL.Request | src/graphql.rs:37-73 | After k leading 403 replies there are k + 1 sends of the identical query and k waits, each read from its own 403. The first reply that is not a 403 decides the result. A success status gives the response. Any other status gives an error with that status and body. A transport failure gives its error without retry. A result that is not an error has a success status. |
| GraphQL.OneRetryThenSuccess | src/graphql.rs:50-62 | A 403 followed by a success settles on the second reply and returns it. |
| Numerals.ParseU64 | src/graphql.rs:58 | `u64::from_str` accepts only values that fit in 64 bits, and only text that starts with a digit or '+'. It rejects "" and "+". |
| Numerals.ParseDecimal | src/graphql.rs:58 | Reading back the decimal rendering of any `u64` gives the same number. |
| Numerals.ParseDecimalOverflow | src/graphql.rs:58 | The decimal rendering of a number beyond `u64` is rejected. |
| Numerals.ParsePlusDecimal | src/graphql.rs:58 | One leading '+' is accepted and ignored. |
| Numerals.Decimal | src/commits.rs:123-127 | `Display` of a non-negative integer gives ASCII digits with no leading zero except for "0". |
| Numerals.IntToString | src/cache.rs:36 | `Display` of an integer: the digits of its magnitude, after a '-' when it is negative. |
| Text.Split | src/commits.rs:18 | `split` gives at least one piece, and no piece contains the separator. The first piece is the text up to the first separator, or all of it. |
| Text.SplitJoin | src/commits.rs:123-127 | Splitting the join of separator-free parts gives the parts back. |
| Text.JoinSplit | src/cache.rs:93 | Joining the pieces of a split with the same separator gives the text back. |
| Web.GatherStopsAtError | src/web.rs:49 | After the first error, later arrivals are never examined. |
| Web.GatherErrors | src/web.rs:41-51 | The collection fails exactly when some arrival is an error. It then fails with the first one, wrapped, and every arrival before it is a success. |
| Web.GatherMembers | src/web.rs:44-47 | A successful collection holds exactly the commits that arrived as `Ok(Some)`, and no more commits than arrivals. |
| Web.DataForOrdered | src/web.rs:53 | The final list is ordered by days to the next anniversary and is a permutation of the collected commits. Commits the same number of days away keep their arrival order. |
| Web.CollectFirstCommits | src/web.rs:40-53 | Given one result per spawned task, the collector loop and the in-place sort give the collected commits stably sorted by days to the next anniversary, or the first error. The result is ordered by that key and is a permutation of the collected commits. |
| Sorting.InsertionSortedIsSorted | src/web.rs:53 | The sort's specification is ordered by key. |
| Sorting.InsertionSortedPermutes | src/web.rs:53 | The sort's specification has the same elements with the same multiplicities. |
| Sorting.InsertionSortedIsStable | src/web.rs:53 | For every key, the elements with that key appear in their original order. |
| Sorting.StableSortIsInsertionSort | src/web.rs:53 | Any sequence ordered by key that keeps each key's elements in their original order equals the specification. |
| Sorting.SortedByKeysIsDetermined | src/web.rs:53 | Two sequences ordered by key with the same elements, in the same order, for every key are equal. |
| Sorting.InsertAt | src/web.rs:53 | One insertion step: the array's first i + 1 elements become the old element i inserted into the old first i, and the rest is untouched. |
| Sorting.SortByKey | src/web.rs:53 | `sort_by_key` in place: the array ends up holding exactly the specification applied to its old contents. |
| Cache.ToKey | src/cache.rs:88-94 | A key joins its parts with "%3A". |
| Cache.TokenKey | src/cache.rs:96-109 | The token key is the user, then "%3A", then "token". |
| Cache.CalendarKey | src/cache.rs:111-122 | The calendar key is the user, then "%3A", then "calendar". |
| Cache.KeysNeverCollide | src/cache.rs:96-117 | No token key equals any calendar key, for any two users. |
| Cache.KeyNamesUser | src/cache.rs:92-94 | For a user without '%', the key's text before the first '%' is the user. |
| Cache.KeysIdentifyUsers | src/cache.rs:92-117 | Different users without '%' have different token keys and different calendar keys. |
| Cache.Url | src/cache.rs:30-39 | The URL starts with the value's address. It has no query when there is no TTL. With a TTL it continues with "?expiration_ttl=" and the TTL in decimal seconds. |
| Cache.FormatHasNoQuery | src/cache.rs:32 | The fixed text of the address contains no '?'. |
| Cache.UrlQuery | src/cache.rs:30-39 | When the ids and the key have no '?', splitting the URL at '?' gives the address alone when there is no TTL. With a TTL it gives the address and "expiration_ttl=" followed by the seconds. |
| Cache.TtlReadsBack | src/cache.rs:36 | The TTL in the query parses back to the number of seconds it was built from. |
| Cache.SaveToken | src/cache.rs:96-103 | A token is written encrypted, under the user's token key, with no TTL. |
| Cache.Token | src/cache.rs:105-109 | A token is read from the user's token key. |
| Cache.SaveCalendar | src/cache.rs:111-117 | A calendar is written unchanged, under the user's calendar key, with a TTL of one day. |
| Cache.Calendar | src/cache.rs:119-122 | A calendar is read from the user's calendar key. |
| Cache.TokenReadWhereSaved | src/cache.rs:96-109 | A token is read from exactly the URL it was written to, and that URL has no query, so tokens never expire. |
| Cache.DayInDecimal | src/cache.rs:30-39 | The calendar TTL is written as "86400". |
| Cache.CalendarReadWhereSaved | src/cache.rs:111-122 | A calendar is written to the URL it is read from, followed by "?expiration_ttl=86400". |

## Left out

- Network I/O is not modelled. This covers the HTTP sends in `request` and in `KVStorage::save`/`get`, status checks on cache replies, and reading a reply body (`resp.text()`, whose failure is not modelled). The GraphQL client, the pages and the replies are inputs.
- The GraphQL query templates (Liquid rendering) are not modelled. A query is the datatype of its parameters.
- JSON decoding is a parameter or a pre-decoded input. Its error message text is not modelled, only which error it is.
- Encryption and decryption of tokens (`magic_crypt`) are not modelled. The encryption is a function parameter, and `token` is modelled only up to the read request.
- Concurrency is not modelled: `tokio::spawn` and the channel in `data_for` are replaced by the sequence of results in arrival order. A failed `send` needs no modelling: it happens only after the receiver is dropped, when `data_for` has already returned.
- Web.CollectFirstCommits: requires exactly one result per spawned task. A task that never sends (one that panics) leaves the source waiting forever in `recv`, because `data_for` keeps its own sender alive; the model does not cover that case.
- `std::thread::sleep` is recorded as a number of seconds, not as elapsed time.
- The clock is a `today` parameter. `DaysToNextAnniversary` uses one reading; the two-reading behaviour of the source is under Findings. `sort_by_key` reads the clock on every key evaluation; the model sorts with one `today`.
- Models.ChangeYear: years are unbounded integers. The model omits chrono's year range (about ±262,000) and the `i32` overflow of `today.year() + 1`, because neither can occur for real commit dates.
- Commits.SeekOffset: `total_count - 2` is computed on unbounded integers, not on `i32`. The overflow for a count within 2 of `i32::MIN` is not modelled; GitHub never returns a negative count.
- `FirstCommit`'s `Display`, the calendar file (src/calendar.rs), date parsing (src/date_time_serializer.rs), the environment variables (src/envvar.rs), OAuth (src/auth.rs), the web handlers and the server start-up are not part of this model.
- The commit timestamp is a date plus a second of the day. Only the date takes part in the anniversary rules.
- GraphQL.Request and Repositories.ReposFor require that the scripted server eventually stops answering 403, and eventually stops announcing a next page. The source loops forever otherwise, and the model does not cover that case.
- Naming: the source spells `next_aniversary` and `days_to_next_aniversary` in src/models.rs, while src/web.rs calls `days_to_next_anniversary`. The model follows src/models.rs.
- Behaviour of the code worth knowing:
  - A 2020-02-29 commit seen from 2023-03-15 has its next anniversary on 2024-02-29, not 2023-03-01.
  - `PageInfo::cursor` returns the empty string for an empty end cursor, not an error.
  - `next_aniversary` returns today whenever this year's anniversary is today, not only when the commit date is today.

## Findings

| source | as written | input that shows it | evidently intended | confidence | as-written member | corrected member |
|---|---|---|---|---|---|---|
| src/models.rs:59-61 | `days_to_next_aniversary` reads the clock once inside `next_aniversary` and again for the subtraction | Any anniversary read first on the day itself and then, after midnight, on the next day; for example a commit on 2020-06-01 read on 2023-06-01 and 2023-06-02. The result is -1. | One reading of today: always between 0 and 365, and 0 exactly on the anniversary | medium, not executed; it needs midnight to pass between the two readings | Models.MidnightBetweenReadings | Models.DaysToNextAnniversary |

# News read path of the Observatory API, in Dafny

The Observatory service keeps football, basketball, American-football and
baseball articles in a document store, and keeps their embeddings in a
vector index. Its `/news` router (`app/news.py`) answers three kinds of read
request. This project models those handlers and proves what they return.

- `GET /news/randnews/{n}` samples up to `10 n` articles from each of the
  four categories. It drops legacy records whose timestamp is text
  containing a `-`, and turns each `_id` into a string. It merges the four
  samples, sorts them newest first, renders each timestamp as `DD-MM-YYYY`
  (UTC) and keeps the first `4 n`.
- `GET /news/recents/{n}` and `GET /news/recents/{category}/{n}` take the
  first `n` records of the store's newest-first cursor, stringify `_id` and
  render each timestamp. The category variant answers `{}` for a category
  outside the four.
- `POST /news/search/` turns each vector-index point id into a document id
  by dropping the text up to the first `-` and the remaining dashes. It
  fetches each document and then runs the same corruption filter, sort and
  rendering.

The store, the vector index and the embedding endpoint are replaced by what
they return. The handlers take as inputs the per-category samples, the
cursor's records, the matches' point ids and the `find_one` result for each
id. A handler's answer is a `Reply`: a listing, the empty object `{}`, or
one of the exceptions the code raises (`InvalidObjectId`, `MissingRecord`,
`UnusableTimestamp`).

Modules:

- `UtcDate` is the epoch-seconds to `DD-MM-YYYY` rendering of
  `utcfromtimestamp(t).strftime('%d-%m-%Y')`. A closed-form day count
  (`DaysFromCivil`) is proved to be inverted by a year-then-month walk
  (`CivilFromDays`). The rendered text is proved to read back as the day
  of the timestamp.
- `TokenCodec` is the point-id decoder, Python's `split('-')` and its
  partner encoder (UUID grouping of a 24-hex-digit id).
- `Records` holds the stored record, the corruption filter, `_id`
  stringification and per-record rendering.
- `TimestampSort` is `sort(key=timestamp, reverse=True)`: a stable
  descending insertion sort, proved to be a permutation, non-increasing
  and stable.
- `News` holds the three handlers as imperative methods over their loops,
  each proved equal to a reply function. Lemmas on those functions state
  when each handler raises, what a listing holds and in which order.

Three behaviours of the code are worth stating plainly:

- The recents handlers have no corruption filter. A text timestamp among
  the first `n` records makes the request raise (`RecentsFailsIff`).
  Because BSON ranks strings above numbers, a descending cursor lists such
  records first (`RecentsFailOnAnyText`).
- The sampling and search filters drop only text timestamps that contain a
  `-`. Any other text timestamp survives the filter and makes the request
  raise (`RandNewsFailsIff`, `SearchFailures`).
- A match whose document is missing is not skipped: the code indexes
  `None` and raises (`SearchFailures`, `MissingRecord`).

## Model

| member | source | states |
|---|---|---|
| TokenCodec.DecodeToken | app/news.py:126 | `qdrant_id_2_mongo_id`; its contract is carried by DecodeTokenDropsFirstSegment, DecodeTokenWithoutDash and DecodeTokenDashFree: text before the first dash is dropped, the remaining dashes are deleted, and a dash-free token gives the empty id |
| TokenCodec.Split | app/news.py:126 | `split('-')` yields at least one segment, no segment holds a dash, and joining the segments with dashes gives back the input |
| TokenCodec.DecodeTokenDropsFirstSegment | app/news.py:126 | a token `prefix-rest` with a dash-free prefix decodes to `rest` with every dash removed |
| TokenCodec.DecodeTokenWithoutDash | app/news.py:126 | a token with no dash decodes to the empty id |
| TokenCodec.DecodeTokenDashFree | app/news.py:126 | a decoded id never contains a dash |
| TokenCodec.ConcatSplit | app/news.py:126 | `''.join(s.split('-'))` is `s` with its dashes deleted |
| TokenCodec.DecodeUuidToken | app/news.py:126-130 | a UUID-shaped point id decodes to its last four groups concatenated, which is a 24-hex-digit id that `bson.ObjectId` accepts |
| TokenCodec.EncodeToken | app/news.py:126 | grouping an 8-hex prefix and a 24-hex id as 8-4-4-4-12 gives a UUID-shaped token whose groups are the prefix and the id's slices |
| TokenCodec.DecodeEncodeToken | app/news.py:126 | decoding inverts encoding: the id comes back whatever the first group was |
| Records.IsCorrupt | app/news.py:60 | the corruption test, text timestamp containing a dash; KeepValidSingle and KeepValidIsSurvivors state that exactly these records are dropped |
| Records.Stringify | app/news.py:62 | `str(_id)` in place; StringifyAll and StringifyAllTimestamps state that only `_id` changes |
| Records.WithDate | app/news.py:67 | one record's timestamp rendered; WithDateRenders states that only the timestamp changes, into the `DD-MM-YYYY` text of its UTC day |
| Records.FormatAll | app/news.py:66-67 | the formatting loop as a function; FormatAllPointwise and FormatAllAppend state that it renders each record in place, in order |
| Records.WithDateRenders | app/news.py:67 | rendering changes only the timestamp, into `DD-MM-YYYY` text naming the UTC day the seconds fall on |
| Records.StringifyAll | app/news.py:83 | stringifying every `_id` keeps the length and changes each record only by its `_id` |
| Records.StringifyAllTimestamps | app/news.py:83 | stringifying `_id`s leaves every timestamp as it was |
| Records.FormatAllPointwise | app/news.py:66-67 | the formatting loop keeps the length and renders each record in place |
| Records.FormatAllAppend | app/news.py:66-67 | rendering works record by record: appending a record appends its rendering |
| Records.KeepValid | app/news.py:59-63 | the filter never lengthens the list and keeps timestamps in range |
| Records.KeepValidAppend | app/news.py:59-63 | the filter distributes over concatenation |
| Records.KeepValidSingle | app/news.py:60-63 | one record survives iff it is not corrupt, with only its `_id` stringified |
| Records.SurvivorIndicesSpec | app/news.py:60-61 | the surviving positions are all the non-corrupt positions, each once, in increasing order |
| Records.KeepValidIsSurvivors | app/news.py:59-63 | the filter's output is exactly the non-corrupt records in input order, each with `_id` stringified |
| Records.KeepValidMembers | app/news.py:134-138 | a record is in the filtered list iff it is the stringification of a non-corrupt input record |
| TimestampSort.SortDesc | app/news.py:65 | the sort keeps the length, is a permutation and is non-increasing by timestamp |
| TimestampSort.SortDescStable | app/news.py:65 | records with equal timestamps keep their relative order |
| TimestampSort.SortDescIsStableSortDesc | app/news.py:140 | the sort meets the full contract of Python's stable `sort(reverse=True)` |
| TimestampSort.InsertNonIncreasing | app/news.py:65 | inserting into a non-increasing list keeps it non-increasing |
| UtcDate.FormatTimestamp | app/news.py:67 | `utcfromtimestamp(t).strftime('%d-%m-%Y')`; FormatTimestampDenotes states that it yields `DD-MM-YYYY` text of a valid date whose day count is `t / 86400` |
| UtcDate.CivilFromDays | app/news.py:67 | the UTC calendar date of a day count; CivilFromDaysDenotes and CivilFromDaysOfDaysFromCivil state that it inverts the day count in both directions |
| UtcDate.SplitYearDenotes | app/news.py:67 | the year walk stops in the year whose span holds the day, losing no day |
| UtcDate.SplitMonthDenotes | app/news.py:67 | the month walk stops in the month whose span holds the day, losing no day |
| UtcDate.CivilFromDaysDenotes | app/news.py:67 | the walk lands on a real date whose day count is the input |
| UtcDate.CivilFromDaysOfDaysFromCivil | app/news.py:67 | every date on or after 1970 is reached by walking its own day count |
| UtcDate.DaysFromCivilStrictlyIncreasing | app/news.py:67 | day counting is strictly increasing in calendar order |
| UtcDate.DaysFromCivilInjective | app/news.py:67 | distinct dates have distinct day counts |
| UtcDate.CivilFromDaysYearBound | app/news.py:67 | every timestamp below the first second of year 10000 falls in a four-digit year |
| UtcDate.FormatDateParses | app/news.py:67 | `%d-%m-%Y` output has the `DD-MM-YYYY` shape and reads back as the same date |
| UtcDate.FormatTimestampDenotes | app/news.py:67 | rendering a timestamp gives `DD-MM-YYYY` text of a real date whose day count is `t / 86400` |
| UtcDate.FormatTimestampMonotone | app/news.py:67 | a later timestamp never renders an earlier date |
| UtcDate.FormatTimestampSameDayIff | app/news.py:84 | two timestamps render the same text iff they fall on the same UTC day |
| UtcDate.FormatTimestampExample | app/news.py:106 | 1700000000 renders as `14-11-2023` |
| News.Take | app/news.py:69 | `s[:k]` has length `min(k, len(s))` and agrees with `s` on it |
| News.SortAndFormat | app/news.py:65-67 | the sort followed by the formatting loop yields the rendering of the sorted list |
| News.FormatAllNewestFirst | app/news.py:65-67 | rendering a newest-first list gives text dates that never increase |
| News.SortFormatTakeIsSortedRendering | app/news.py:65-69 | sort, render and cut yield a prefix of a stable newest-first rendering, newest first, of length `min(k, len)` |
| News.SortFormatIsSortedRendering | app/news.py:140-144 | without a cut, the rendering holds every record, stably sorted newest first |
| News.SortFormatTakeFromInput | app/news.py:65-69 | each record of the answer renders some record of the input |
| News.MergeSamples | app/news.py:53-63 | the filtered samples concatenated in category order; MergeSamplesMembers and MergeSamplesAppend state what it holds and in which order |
| News.RandNewsReply | app/news.py:48-69 | the sampling answer; RandNewsFailsIff, RandNewsListing and RandNewsItemsFromSamples state when it raises and what a listing holds |
| News.MergeSamplesInRange | app/news.py:53-63 | merging keeps every timestamp in range |
| News.KeepValidRecords | app/news.py:59-63 | the inner loop over one category's sample computes the filtered list |
| News.RandNewsFromEachCategory | app/news.py:48-69 | the handler's loops produce the sampling reply |
| News.MergeSamplesMembers | app/news.py:53-63 | a record is merged iff some category's sample holds it uncorrupted, with `_id` stringified |
| News.MergeSamplesAppend | app/news.py:53-63 | merging works category by category, in category order |
| News.RandNewsFailsIff | app/news.py:59-67 | sampling raises iff a sampled record passes the filter with a text timestamp, and it never answers `{}` |
| News.RandNewsListing | app/news.py:65-69 | a sampling answer is a stable newest-first rendering of the merged survivors, newest first, of length `min(4 n, merged)` |
| News.RandNewsItemsFromSamples | app/news.py:53-69 | every answered record is a surviving sampled record, stringified and rendered |
| News.RandNewsCategories | app/news.py:51-56 | when each sample holds only records of its category, every answered record is listed under one of the four categories |
| News.PageReply | app/news.py:82-87 | the answer of the loop over one page; PageReplyFails states that a text timestamp anywhere on the page makes it raise |
| News.RecentsReply | app/news.py:78-87 | the recents answer for the first `n` records; RecentsFailsIff, RecentsListing and RecentsNewestFirst state when it raises and what it lists |
| News.RecentsByCategoryReply | app/news.py:95-109 | the category answer; RecentsByCategoryEmptyIff and RecentsByCategoryKeepsCategory state when it is `{}` and that it keeps the category |
| News.FormatPage | app/news.py:82-85 | the loop over `result[:n]` computes the page reply, raising on the first text timestamp |
| News.MostRecentNews | app/news.py:72-87 | the handler answers the recents reply for the first `n` records |
| News.MostRecentByCategory | app/news.py:89-109 | the handler answers `{}` for a category outside the four and the recents reply otherwise |
| News.RecentsFailsIff | app/news.py:82-84 | recents raises iff one of the first `n` records has a text timestamp, and it never answers `{}` |
| News.RecentsFailOnAnyText | app/news.py:78-84 | under BSON's descending order, one text timestamp anywhere under the cursor makes every request with `n >= 1` raise |
| News.RecentsListing | app/news.py:82-87 | a recents listing holds the first `min(n, len)` records in cursor order, each stringified and rendered |
| News.RecentsNewestFirst | app/news.py:78-87 | when the cursor is newest first, the rendered dates never increase |
| News.RecentsByCategoryEmptyIff | app/news.py:95-96 | the category handler answers `{}` exactly for a category outside the four |
| News.RecentsByCategoryKeepsCategory | app/news.py:98-107 | when the store returns only records of the category, so does the listing |
| News.SearchReply | app/news.py:128-144 | the search answer; SearchFailures, SearchListing and SearchMembers state each way it raises and exactly which records it lists, in which order |
| News.SearchQuery | app/news.py:126-144 | the handler's decoding, lookups and loops produce the search reply |
| News.SearchUuidTokens | app/news.py:126-130 | UUID-shaped point ids never make the search raise `InvalidObjectId` |
| News.SearchFailures | app/news.py:128-142 | search raises `InvalidObjectId` iff some id does not decode, then `MissingRecord` iff some lookup found nothing, then `UnusableTimestamp` iff a found record passes the filter with a text timestamp; it never answers `{}` |
| News.SearchListing | app/news.py:134-144 | a search answer holds every filtered record, stably sorted newest first and rendered |
| News.SearchItemIsMatch | app/news.py:134-144 | every answered record renders a found, uncorrupted match |
| News.SearchMatchIsItem | app/news.py:134-144 | every found, uncorrupted match is rendered in the answer |
| News.SearchMembers | app/news.py:134-144 | a record is in the search answer iff it renders a found, uncorrupted match |

## Left out

- The create, read and delete handlers (`app/news.py:26-46`) only call the store and validate with pydantic; they hold no logic of their own.
- FastAPI routing, pydantic models and the request object are not modelled; handlers take their inputs as parameters.
- The embedding HTTP call and the vector-index search are inputs: the point ids of the matches.
- MongoDB's `$match`/`$sample` and the sample size `n * 10` are inputs. Each category's sample is a parameter, and its randomness is not modelled.
- The cursor's `find().sort("timestamp", -1)` order is an input. `RecentsNewestFirst` and `RecentsFailOnAnyText` take the order as a precondition.
- Timestamps are whole seconds. Float timestamps, fractional seconds and their rounding by `utcfromtimestamp` are not modelled.
- `n` is a natural number. A negative `n` makes the store reject the sample size or the cursor slice, and that path is not modelled.
- News.RandNewsFromEachCategory: numeric timestamps are required to lie in `[0, 253402300800)`, from 1970 to the end of year 9999. `utcfromtimestamp` fails outside that range on some platforms, and that failure is not modelled.
- News.SearchQuery: the same timestamp range is required of every fetched record.
- News.FormatPage: the same timestamp range is required of every record under the cursor, and so of News.MostRecentNews and News.MostRecentByCategory.
- TokenCodec.DecodeUuidToken: `bson.ObjectId` is modelled as accepting exactly 24 hex digits. Integer point ids, which have no `split`, are not modelled.
- The store's mixed-type comparison is not modelled beyond `TextFirst`, which says text timestamps sort above numeric ones in a descending cursor.
- Only `_id` and `timestamp` are inspected. The other fields are carried unchanged and are not validated.

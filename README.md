# forum.ykt.ru crawler core, modelled in Dafny

This project models the core of a Scrapy crawler that collects the
forum.ykt.ru message boards from Wayback Machine snapshots, plus the text
metadata records of the companion corpus package. It covers:

- **Forum pages.** The `forums` spider plans one Wayback availability query
  per query date, forum, listing style and page. It records the snapshot
  dates the API answers with and skips a query whose answer is already known.
- **Topics.** The `topics` spider turns each listing snapshot into topic
  records: title, original URL, author, reply count and last update date. The
  forum's descriptor is merged under `forum_`-prefixed keys.
- **Replies.** The `replies` spider turns a topic page into the head record
  followed by every reply of the nested reply tree, flattened in document
  order. Each reply is linked to its parent and flagged as the topic owner's
  when its IP is the starter's.
- **Shared helpers** (`forum_ykt/utils.py`): safe strip and int, the Wayback
  timestamp formats, the Russian month table, the "customary" forum date
  formats (`вчера, 12:00`, `15 мая 2020`, `12:00`, …), the snapshot date of a
  URL, and query-string parsing.
- **Pipelines.** The pass-through item pipeline and the Russian date
  pipeline.
- **Corpus metadata** (`par_bible/models.py`): `DateRange` with its `ONGOING`
  end, membership and intersection tests, `filter_empty`, and the export of
  `TextMeta` to the Tsakorpus JSON form.

## How the model is organised

Python exceptions are values. Every operation that can raise returns
`Result<T>`, and the error kind (`ValueError`, `KeyError`, `TypeError`,
`AttributeError`, `IndexError`) follows the source's evaluation order.
Python dicts are sequences of key/value pairs; their insertion order is the
order `dict` keeps. The modules are:

| file | module | models |
|---|---|---|
| `py_base.dfy` | `PyBase` | `Option`, `Result`, Python errors, dynamic `Value`s |
| `strings.dfy` | `Strings` | `str.strip`, `split`, `lower`, `int()`, `isdigit` |
| `py_dicts.dfy` | `PyDicts` | ordered dicts: `get`, `pop`, `__setitem__`, `update` |
| `calendar.dfy` | `Calendar` | `datetime` fields, the constructor's validity check, ordinals, day subtraction |
| `forum_utils.dfy` | `ForumUtils` | `forum_ykt/utils.py` |
| `pipelines.dfy` | `Pipelines` | `forum_ykt/pipelines.py` |
| `forums.dfy` | `Forums` | `spiders/forums.py` |
| `topics.dfy` | `Topics` | `spiders/topics.py` |
| `replies.dfy` | `Replies` | `spiders/replies.py` |
| `bible_models.dfy` | `BibleModels` | `par_bible/models.py` |

Where the source loops over something it updates, the model keeps the loop:

- `Forums.Planner` holds the observation map that `start_requests` and
  `parse` share.
- `Topics.TopicsSpider` holds the forum page counters.
- `Topics.MetaDict.AddPrefToKeys` renames keys in place.
- `Replies.ParseReply` recurses over the reply tree.

Each such method is proved equal to a function over the input, and the
properties are proved as lemmas about that function.

A web page is modelled as what its CSS/XPath selectors return:

- an attribute or text that may be missing (`Option<string>`);
- a list of matched elements;
- for a reply, the list of its child `<li>`s.

The time the program reads from outside is a parameter:

- `today` for `date.today()`;
- `archive` for the Wayback API's answers;
- `encode` for `urllib.parse.quote`;
- `join` for `response.urljoin`.

### Behaviour of the code worth noting

- A reply `<li>` without an `id` attribute raises KeyError. The `-1` default
  is used only when the id is present but has no positive digits.
- The head's `data-id` is not stripped (`Replies.HeadIdOf`). A reply's `id`
  is stripped of the characters of `"comment-"` (`Replies.ReplyIdOf`).
- `"15 мая 2020, 12:00:00"` is not accepted. It contains `", "`, so the text
  is split on it, and `"15 мая 2020"` is not "вчера".
  - It then has three space-separated tokens, so the year token is
    `"2020,"`, which `int` rejects with ValueError.
  - `"HH:MM:SS"` is also refused by `convert_time_str`
    (`ForumUtils.TimeStrRejectsSeconds`).
- In the four-token form `D месяц YYYY HH:MM`, the code parses the day, month
  and year, and then builds the date from today's year, month and day. The
  model does the same (`ForumUtils.CustomaryFourTokens`).
- `"вчера, HH:MM"` subtracts one from the day number without moving to the
  previous month, so on the first of a month it raises ValueError
  (`ForumUtils.CustomaryYesterday`).
- `parse` of the replies spider yields the topic's meta with the replies
  added. It is modelled as `RepliesItem(meta, replies)`. The head's
  `author_ip` is popped off the head record and kept in `TopicHead.authorIp`.
- `ONGOING` compares as `date.today()` in `<`, `<=`, `>` and `>=`. Its `year`
  is `None`.

## Model

| member | source | states |
|---|---|---|
| `ForumUtils.SafeStrip` | forum_ykt/forum_ykt/utils.py:23-24 | `None` gives `""`; otherwise the text with the whitespace at both ends removed, so the result neither starts nor ends with whitespace |
| `ForumUtils.SafeInt` | forum_ykt/forum_ykt/utils.py:26-29 | a number exactly for an all-digit text, and then the same number `int()` reads |
| `ForumUtils.OrDefault` | forum_ykt/forum_ykt/spiders/replies.py:196-197 | `x or default`: the value when present and non-zero, otherwise the default |
| `ForumUtils.ConvertSnapshotTimestamp` | forum_ykt/forum_ykt/utils.py:36-37 | reads fourteen ASCII digits as the fixed-width fields `%Y%m%d%H%M%S` and accepts them exactly when they give a valid date and time (whole seconds); the model answers every other text with ValueError |
| `ForumUtils.SnapshotRoundTrip` | forum_ykt/forum_ykt/utils.py:16-37 | decoding the `%Y%m%d%H%M%S` form of any valid time with whole seconds gives that time back |
| `ForumUtils.SnapshotCanonical` | forum_ykt/forum_ykt/utils.py:36-37 | every accepted timestamp is the formatting of the time it decodes to: the encoding is a bijection on its domain |
| `ForumUtils.WebarchiveDateRoundTrip` | forum_ykt/forum_ykt/utils.py:15-37 | the query day `to_webarchive_date` writes for a four-digit year, padded to midnight, decodes to the date at midnight |
| `ForumUtils.ConvertHeadTimestamp` | forum_ykt/forum_ykt/utils.py:40-42 | the result is a valid time, or ValueError |
| `ForumUtils.ParseHeadFormat` | forum_ykt/forum_ykt/utils.py:18 | `%Y-%m-%d %H:%M:%S.%f` read: a valid time or ValueError |
| `ForumUtils.HeadTimestampMillis` | forum_ykt/forum_ykt/utils.py:40-42 | the three appended zeros make every accepted head timestamp a whole number of milliseconds |
| `ForumUtils.HeadRoundTrip` | forum_ykt/forum_ykt/utils.py:40-42 | a millisecond-precision time written as the forum writes it decodes back to itself |
| `ForumUtils.MonthsTable` | forum_ykt/forum_ykt/utils.py:45-58 | twelve distinct three-letter keys mapped to 1 to 12 in order |
| `ForumUtils.RuMonthToInt` | forum_ykt/forum_ykt/utils.py:61-62 | succeeds exactly when the first three letters are a table key, the number being that key's month; otherwise KeyError |
| `ForumUtils.MonthOfName` | forum_ykt/forum_ykt/utils.py:45-62 | any word that starts with a month's key (a genitive month name) maps to that month |
| `ForumUtils.MonthCaseSensitive` | forum_ykt/forum_ykt/utils.py:61-62 | a word starting with a capital Cyrillic letter is a KeyError: the lookup does not fold case |
| `ForumUtils.ConvertTimeStr` | forum_ykt/forum_ykt/utils.py:65-73 | every failure is ValueError |
| `ForumUtils.ConvertTimeStrSpec` | forum_ykt/forum_ykt/utils.py:65-73 | accepted exactly when the text is two integers around a single `:`, giving `(hour, minute, 0)` |
| `ForumUtils.TimeStrOfClock` | forum_ykt/forum_ykt/utils.py:65-71 | `HH:MM` reads as `(HH, MM, 0)` |
| `ForumUtils.TimeStrRejectsSeconds` | forum_ykt/forum_ykt/utils.py:65-73 | `HH:MM:SS` fails |
| `ForumUtils.Attr` | forum_ykt/forum_ykt/utils.py:76-84 | reading a field of a missing `today` is AttributeError, otherwise the date itself |
| `ForumUtils.Yesterday` | forum_ykt/forum_ykt/utils.py:81-84 | a result is always a valid time |
| `ForumUtils.YesterdayAt` | forum_ykt/forum_ykt/utils.py:82-84 | for a valid today, the same year and month with the day number less one at `h:m` when the day is not the first and the clock time lies within the day; ValueError on the first of a month or for a clock time outside the day |
| `ForumUtils.CommaForm` | forum_ykt/forum_ykt/utils.py:77-84 | `вчера, rest` (in any case) is `rest` read as a time on the day before today |
| `ForumUtils.CustomaryYesterday` | forum_ykt/forum_ykt/utils.py:77-84 | `вчера, HH:MM` is that time on the previous day number, and ValueError on the first of a month |
| `ForumUtils.DateTokens` | forum_ykt/forum_ykt/utils.py:86-118 | a result is always a valid time |
| `ForumUtils.SpacedTwo` | forum_ykt/forum_ykt/utils.py:109-118 | two tokens joined by a space take the day-month path |
| `ForumUtils.SpacedThree` | forum_ykt/forum_ykt/utils.py:98-108 | three tokens joined by spaces take the day-month-year-or-time path |
| `ForumUtils.SpacedFour` | forum_ykt/forum_ykt/utils.py:90-97 | four tokens joined by spaces take the four-token path |
| `ForumUtils.FourTokens` | forum_ykt/forum_ykt/utils.py:90-97 | four well-formed tokens give today's date at the given time |
| `ForumUtils.CustomaryFourTokens` | forum_ykt/forum_ykt/utils.py:90-97 | `D месяц YYYY HH:MM` gives today's year, month and day at that time: the parsed date is discarded |
| `ForumUtils.ThreeTokensYear` | forum_ykt/forum_ykt/utils.py:106-108 | three tokens ending in a number give that year, month and day at midnight |
| `ForumUtils.CustomaryFullDate` | forum_ykt/forum_ykt/utils.py:98-108 | `D месяц YYYY` is that date at midnight, whatever today is |
| `ForumUtils.ThreeTokensTime` | forum_ykt/forum_ykt/utils.py:103-105 | three tokens ending in a time give that day and month this year at that time |
| `ForumUtils.CustomaryDateTime` | forum_ykt/forum_ykt/utils.py:98-105 | `D месяц HH:MM` is that day and month of today's year at that time |
| `ForumUtils.CustomaryDayMonth` | forum_ykt/forum_ykt/utils.py:109-118 | `D месяц` is that day and month of today's year at midnight |
| `ForumUtils.CustomaryWordsNotDate` | forum_ykt/forum_ykt/utils.py:109-113 | two space-separated words whose first has no digit raise ValueError |
| `ForumUtils.CustomaryTooManyTokens` | forum_ykt/forum_ykt/utils.py:115-116 | more than four space-separated tokens raise ValueError |
| `ForumUtils.CustomaryJustNow` | forum_ykt/forum_ykt/utils.py:86-116 | the text "just now" raises ValueError |
| `ForumUtils.TimeToday` | forum_ykt/forum_ykt/utils.py:120-122 | a result is always a valid time |
| `ForumUtils.TimeTodayAt` | forum_ykt/forum_ykt/utils.py:120-122 | for a valid today, today's date at `h:m` when the clock time lies within the day, and ValueError otherwise |
| `ForumUtils.CustomaryClock` | forum_ykt/forum_ykt/utils.py:120-122 | `HH:MM` is today at that time |
| `ForumUtils.CustomaryUnparsed` | forum_ykt/forum_ykt/utils.py:124 | text with neither a space nor a colon is returned in angle brackets, not raised |
| `ForumUtils.ConvertCustomary` | forum_ykt/forum_ykt/utils.py:76-124 | a time result is valid, and a text result is the input in angle brackets |
| `ForumUtils.AsParsed` | forum_ykt/forum_ykt/utils.py:76-124 | a time result stays that time, and an error stays the same error |
| `ForumUtils.FindDigitRun` | forum_ykt/forum_ykt/utils.py:128-130 | the leftmost position where the digit run starts, or `None` when there is none |
| `ForumUtils.NoEarlierRun` | forum_ykt/forum_ykt/utils.py:128-130 | a fourteen-digit run with none before it is the one the search finds |
| `ForumUtils.ExtractWebarchiveDate` | forum_ykt/forum_ykt/utils.py:127-134 | `None` exactly when the URL has no fourteen-digit run; otherwise a valid time or ValueError |
| `ForumUtils.ExtractFromSnapshotUrl` | forum_ykt/forum_ykt/utils.py:127-134 | a snapshot URL whose prefix has no digit yields the snapshot's time |
| `ForumUtils.PairOf` | forum_ykt/forum_ykt/utils.py:143 | a malformed part is ValueError |
| `ForumUtils.PairOfSpec` | forum_ykt/forum_ykt/utils.py:143 | accepted exactly when the part has one `=`; the key and value, joined by `=`, give the part back |
| `ForumUtils.Pairs` | forum_ykt/forum_ykt/utils.py:142-143 | one pair per part, or ValueError |
| `ForumUtils.PairsSpec` | forum_ykt/forum_ykt/utils.py:142-143 | all parts succeed exactly when each is a pair, and then pair `i` is part `i`'s |
| `ForumUtils.PairsSnoc` | forum_ykt/forum_ykt/utils.py:142-143 | a well-formed part extends the pairs by its own pair |
| `ForumUtils.PairsStop` | forum_ykt/forum_ykt/utils.py:142-143 | a malformed part makes every longer prefix fail |
| `ForumUtils.QueryOfPairsSnoc` | forum_ykt/forum_ykt/utils.py:144 | one more pair appends its value under its key |
| `ForumUtils.QueryOfPairsSpec` | forum_ykt/forum_ykt/utils.py:141-146 | keys are distinct; each key holds the values given to it in order of appearance; a key is present exactly when some pair names it |
| `ForumUtils.ExtractQuery` | forum_ykt/forum_ykt/utils.py:137-146 | the loop builds the dict the query-string function defines |
| `ForumUtils.ExtractQuerySpec` | forum_ykt/forum_ykt/utils.py:137-146 | succeeds exactly when every `&`-part has one `=`, and then every key holds its values in order |
| `ForumUtils.ExtractQueryEmpty` | forum_ykt/forum_ykt/utils.py:142-143 | the empty query is ValueError |
| `Pipelines.ProcessItem` | forum_ykt/forum_ykt/pipelines.py:13-14 | the item passes unchanged |
| `Pipelines.ConvertMonth` | forum_ykt/forum_ykt/pipelines.py:34-35 | a month number 1 to 12 whose key is the lower-cased first three letters, or KeyError |
| `Pipelines.ConvertMonthFolds` | forum_ykt/forum_ykt/pipelines.py:18-35 | the pipeline's lookup is the spiders' lookup on the lower-cased word |
| `Pipelines.ConvertMonthIgnoresCase` | forum_ykt/forum_ykt/pipelines.py:34-35 | a word and its lower-case form name the same month |
| `Pipelines.ConvertMonthAgrees` | forum_ykt/forum_ykt/pipelines.py:34-35 | on lower-case text the pipeline and `ru_month_to_int` agree |
| `Pipelines.ConvertMonthOfName` | forum_ykt/forum_ykt/pipelines.py:18-35 | any word whose first three letters fold to a month's key names that month |
| `Pipelines.ParseDate` | forum_ykt/forum_ykt/pipelines.py:38-42 | a result is a valid date at midnight |
| `Pipelines.DateOfFields` | forum_ykt/forum_ykt/pipelines.py:40-42 | a valid midnight or KeyError/ValueError |
| `Pipelines.DateOfFieldsSpec` | forum_ykt/forum_ykt/pipelines.py:40-42 | an unknown month is KeyError before the numbers are read; then bad numbers are ValueError; otherwise the constructed date |
| `Pipelines.DateOfFieldsOk` | forum_ykt/forum_ykt/pipelines.py:40-42 | readable fields give `datetime(year, month, day)` |
| `Pipelines.ParseDateEmptySeparator` | forum_ykt/forum_ykt/pipelines.py:38-39 | an empty separator is ValueError |
| `Pipelines.ParseDateFieldCount` | forum_ykt/forum_ykt/pipelines.py:39 | anything but three fields is ValueError |
| `Pipelines.ParseDateOfFields` | forum_ykt/forum_ykt/pipelines.py:38-42 | with three fields, parsing is reading those fields |
| `Pipelines.ParseDateMonthFirst` | forum_ykt/forum_ykt/pipelines.py:39-42 | an unknown month is KeyError whatever the other fields hold |
| `Pipelines.DateOfWrittenFields` | forum_ykt/forum_ykt/pipelines.py:40-42 | the day, a month word and the year of a date read back to the date at midnight |
| `Pipelines.ParseDateRoundTrip` | forum_ykt/forum_ykt/pipelines.py:38-42 | `D месяц YYYY` written from any valid date parses back to that date at midnight |
| `Forums.Step` | forum_ykt/forum_ykt/spiders/forums.py:24 | subtracting `DATE_DELTA` (30 days) gives a valid, strictly earlier date with the same time of day |
| `Forums.DatesFrom` | forum_ykt/forum_ykt/spiders/forums.py:129-134 | empty exactly when the start is not after `MIN_DATE`; otherwise it starts with the start |
| `Forums.GenerateDates` | forum_ykt/forum_ykt/spiders/forums.py:129-134 | the generator yields the valid dates `DatesFrom(LATEST_DATE)` |
| `Forums.DatesBackFrom` | forum_ykt/forum_ykt/spiders/forums.py:130-134 | the loop yields exactly the dates of `DatesFrom(start)` |
| `Forums.DatesFromLast` | forum_ykt/forum_ykt/spiders/forums.py:131-134 | the last date is after `MIN_DATE` and one more step is not: the loop stops at the first such date |
| `Forums.DatesFromSteps` | forum_ykt/forum_ykt/spiders/forums.py:131-134 | each date is the previous one less 30 days, so the dates strictly decrease |
| `Forums.DatesFromTimeOfDay` | forum_ykt/forum_ykt/spiders/forums.py:130-134 | every query date keeps the starting date's hour and minute |
| `Forums.GenerateDatesStart` | forum_ykt/forum_ykt/spiders/forums.py:19-20 | the first query date is `LATEST_DATE` |
| `Forums.PageLinks` | forum_ykt/forum_ykt/spiders/forums.py:62 | one query per page of `range(1, 500)` |
| `Forums.PageLinksAt` | forum_ykt/forum_ykt/spiders/forums.py:140-160 | query `k` asks about page `1 + k` |
| `Forums.StyleBlocks` | forum_ykt/forum_ykt/spiders/forums.py:139 | one block per listing style |
| `Forums.ForumBlocks` | forum_ykt/forum_ykt/spiders/forums.py:138 | one block per forum |
| `Forums.DateBlocks` | forum_ykt/forum_ykt/spiders/forums.py:137 | one block per query date |
| `Forums.StyleLinksAt` | forum_ykt/forum_ykt/spiders/forums.py:139-160 | the queries of one forum on one date are the two styles' pages in turn |
| `Forums.ForumLinksAt` | forum_ykt/forum_ykt/spiders/forums.py:138-160 | the queries of one date are the seventeen forums' queries in turn |
| `Forums.LinksAt` | forum_ykt/forum_ykt/spiders/forums.py:136-160 | date `a`, forum `b`, style `c`, page `1 + k` is query `a·16966 + b·998 + c·499 + k`: date outermost, page innermost |
| `Forums.MakeLinks` | forum_ykt/forum_ykt/spiders/forums.py:136-160 | `make_links` yields the full product for the generated dates |
| `Forums.LinksFor` | forum_ykt/forum_ykt/spiders/forums.py:137-160 | the two outer loops build the date- and forum-ordered product |
| `Forums.ForumLinksFor` | forum_ykt/forum_ykt/spiders/forums.py:139-160 | the two inner loops build the style- and page-ordered queries |
| `Forums.PageLinksFor` | forum_ykt/forum_ykt/spiders/forums.py:140-160 | the innermost loop builds one query per page |
| `Forums.MakeKeyOfPage` | forum_ykt/forum_ykt/spiders/forums.py:162-164 | two descriptors share a key exactly when forum id, style and page agree |
| `Forums.SkipRuleCases` | forum_ykt/forum_ykt/spiders/forums.py:178-199 | no history: not skipped; last answer "no snapshot": skipped; last snapshot date: skipped exactly when it is not after the query date |
| `Forums.RecordSpec` | forum_ykt/forum_ykt/spiders/forums.py:235-239 | `setdefault(key, []).append(x)` appends `x` to that key's list only, keys staying distinct |
| `Forums.ParseNoSnapshot` | forum_ykt/forum_ykt/spiders/forums.py:237-242 | no snapshot: `None` is recorded and the item is the descriptor with `available` false |
| `Forums.ParseSnapshot` | forum_ykt/forum_ykt/spiders/forums.py:229-236 | a closest snapshot: its converted timestamp is recorded and is `real_date` of the item; descriptor keys the snapshot lacks keep their values |
| `Forums.MetaItemsKeys` | forum_ykt/forum_ykt/spiders/forums.py:148-157 | the descriptor's keys are distinct and `forum_id` holds the forum's id |
| `Forums.RunGrows` | forum_ykt/forum_ykt/spiders/forums.py:173-201 | over a crawl, keys stay distinct, every key's list only grows, and requests and items are only appended |
| `Forums.NoneIsFinal` | forum_ykt/forum_ykt/spiders/forums.py:185-191 | when no answer's snapshot carries `forum_id`, `forum_style` or `page`: once a key's last answer is "no snapshot", its list never changes and no later request has that key |
| `Forums.KeptKey` | forum_ykt/forum_ykt/spiders/forums.py:228-239 | with no snapshot, or one without the key's fields, the entry is recorded under the descriptor's own key |
| `Forums.ParseMergedPage` | forum_ykt/forum_ykt/spiders/forums.py:229-235 | a snapshot carrying a `page` of its own moves the recorded entry to that page, because the key is read after `meta.update(snapshot)` |
| `Forums.KeyLessOrder` | forum_ykt/forum_ykt/spiders/forums.py:116-117 | the `(forum_style, page)` sort key is a strict weak order |
| `Forums.InsertPermutes` | forum_ykt/forum_ykt/spiders/forums.py:117 | inserting one entry adds exactly that entry |
| `Forums.InsertSorted` | forum_ykt/forum_ykt/spiders/forums.py:117 | inserting into a sorted sequence keeps it sorted |
| `Forums.InsertStable` | forum_ykt/forum_ykt/spiders/forums.py:117 | insertion keeps the relative order of entries with equal sort keys |
| `Forums.SortItemsPermutes` | forum_ykt/forum_ykt/spiders/forums.py:117 | sorting is a permutation |
| `Forums.SortItemsSpec` | forum_ykt/forum_ykt/spiders/forums.py:116-117 | `sorted` with the key gives a sorted permutation, stable among equal keys |
| `Forums.InsertKeepsKeysDistinct` | forum_ykt/forum_ykt/spiders/forums.py:117 | inserting a new key keeps the keys distinct |
| `Forums.SortItemsKeysDistinct` | forum_ykt/forum_ykt/spiders/forums.py:117 | sorting keeps the keys distinct |
| `Forums.SortDictIsSorted` | forum_ykt/forum_ykt/spiders/forums.py:116-117 | `sort_dict` of a dict is exactly its sorted items |
| `Forums.Planner.constructor` | forum_ykt/forum_ykt/spiders/forums.py:169-171 | the observation map starts empty |
| `Forums.Planner.Parse` | forum_ykt/forum_ykt/spiders/forums.py:221-242 | records the answer's entry under the key of the item it yields, which is the descriptor merged with the snapshot, or raises leaving the map unchanged |
| `Forums.Planner.StartRequests` | forum_ykt/forum_ykt/spiders/forums.py:167-201 | requests, items and observations are those of running every query of `make_links` through the skip rules and `parse` in turn |
| `Topics.EscapeResult` | forum_ykt/forum_ykt/spiders/topics.py:69-73 | a missing or empty link gives `None`; otherwise the joined URL when non-empty |
| `Topics.FirstMatchSpec` | forum_ykt/forum_ykt/spiders/topics.py:87-94 | the first detector result that found a page, and `None` exactly when none did |
| `Topics.ParsePagination` | forum_ykt/forum_ykt/spiders/topics.py:87-94 | the loop returns the first successful detector's result |
| `Topics.PaginationOrder` | forum_ykt/forum_ykt/spiders/topics.py:75-94 | the 2021 layout wins; the 2014 layout is used only when the 2021 one finds nothing; otherwise `None` |
| `Topics.TitleAnchor` | forum_ykt/forum_ykt/spiders/topics.py:197-204 | the anchor in `div.f-topic_title` when there is such a div, else `a.f-topic_title` |
| `Topics.GetTitleSpec` | forum_ykt/forum_ykt/spiders/topics.py:195-212 | a missing `href` is KeyError; a link without a `/` after `/web/` is ValueError; otherwise the stripped title, the link and the text after the timestamp |
| `Topics.GetTitleOfSnapshotLink` | forum_ykt/forum_ykt/spiders/topics.py:206-212 | `/web/<timestamp>/<original>` gives back the original URL, whatever it contains |
| `Topics.SplitOnceAtFirst` | forum_ykt/forum_ykt/spiders/topics.py:207 | `split("/", maxsplit=1)` cuts at the first slash |
| `Topics.GetAuthorSpec` | forum_ykt/forum_ykt/spiders/topics.py:214-219 | the stripped author text, or the author-name text when that strips to nothing; always stripped |
| `Topics.NumMessagesSpec` | forum_ykt/forum_ykt/spiders/topics.py:221-236 | the reply count is the primary or fallback text read as digits, or 0, never negative; the update text is the primary text or the fallback |
| `Topics.PrefKeyInjective` | forum_ykt/forum_ykt/spiders/topics.py:155 | different keys get different prefixed names |
| `Topics.RenameKeysErrors` | forum_ykt/forum_ykt/spiders/topics.py:149-157 | only KeyError interrupts the renaming, and a missing first key stops it before any change |
| `Topics.RenameOne` | forum_ykt/forum_ykt/spiders/topics.py:154-155 | one pop-and-set moves the value to the new name and leaves every other key alone |
| `Topics.RenameKeysSpec` | forum_ykt/forum_ykt/spiders/topics.py:149-157 | no error exactly when all keys are present; then every value sits under its new name only, and untouched keys keep their values |
| `Topics.MetaDict.constructor` | forum_ykt/forum_ykt/spiders/topics.py:163 | wraps the descriptor as given |
| `Topics.MetaDict.AddPrefToKeys` | forum_ykt/forum_ykt/spiders/topics.py:149-157 | the in-place loop leaves the dict and the error that the renaming defines, over all keys when `keys` is `None` |
| `Topics.ForumKeySpec` | forum_ykt/forum_ykt/spiders/topics.py:266-267 | every record key starts with "forum", and a key already starting so is kept |
| `Topics.ForumItems` | forum_ykt/forum_ykt/spiders/topics.py:266-267 | the descriptor's items in order, each under its renamed key |
| `Topics.TopicRecordSpec` | forum_ykt/forum_ykt/spiders/topics.py:258-269 | the record has distinct keys, the six `topic_` fields, and every descriptor value under its `forum_` name |
| `Topics.LastUpdate` | forum_ykt/forum_ykt/spiders/topics.py:248-252 | blank text gives `None`; otherwise the customary conversion's time, its bracketed text, or its error |
| `Topics.AuthorValue` | forum_ykt/forum_ykt/spiders/topics.py:262 | a blank author is `None`, otherwise the author text |
| `Topics.RealMetaMerged` | forum_ykt/forum_ykt/spiders/topics.py:242-243 | merging the page's real URL and date a second time changes nothing |
| `Topics.ParseFromMerged` | forum_ykt/forum_ykt/spiders/topics.py:241-243 | starting from the descriptor or the already merged one yields the same records |
| `Topics.ParseUnderMerged` | forum_ykt/forum_ykt/spiders/topics.py:241-272 | under the merged descriptor, one pass keeps it and yields the topic's record or error |
| `Topics.ParseTopicsSpec` | forum_ykt/forum_ykt/spiders/topics.py:238-272 | an unreadable snapshot date stops the first topic; otherwise record `i` is topic `i`'s under the merged descriptor, all topics yield exactly when nothing raises, and the error is the first failing topic's |
| `Topics.StartAllStops` | forum_ykt/forum_ykt/spiders/topics.py:163-183 | a descriptor that raises ends the requests there |
| `Topics.StartAllGoesOn` | forum_ykt/forum_ykt/spiders/topics.py:163-183 | a descriptor that raises nothing adds its request, if any, and the rest follow |
| `Topics.RenamedKeys` | forum_ykt/forum_ykt/spiders/topics.py:167 | `url` and `timestamp` become `orig_url` and `orig_timestamp`, leaving `available` and `forum_name` alone |
| `Topics.SetZero` | forum_ykt/forum_ykt/spiders/topics.py:181 | setting a counter to 0 keeps every counter 0 and every counted forum |
| `Topics.StartOneSpec` | forum_ykt/forum_ykt/spiders/topics.py:163-183 | missing `available` is KeyError; an unavailable forum is skipped; an available one yields a request from its renamed descriptor exactly when its keys are present, with the KeyError or TypeError otherwise |
| `Topics.StartAllCount` | forum_ykt/forum_ykt/spiders/topics.py:163-183 | no more requests than descriptors, and one per available forum when nothing raises |
| `Topics.StartAllPages` | forum_ykt/forum_ykt/spiders/topics.py:179-181 | counters start and stay 0, and no forum's counter is dropped |
| `Topics.StartOneRequest` | forum_ykt/forum_ykt/spiders/topics.py:163-183 | a request is made from its descriptor and its forum has a counter |
| `Topics.StartAllRequests` | forum_ykt/forum_ykt/spiders/topics.py:163-183 | every request yielded was made from one of the descriptors |
| `Topics.FromSomeCons` | forum_ykt/forum_ykt/spiders/topics.py:163-183 | requests from the first descriptor followed by requests from later ones all come from the descriptors |
| `Topics.StartAllCounted` | forum_ykt/forum_ykt/spiders/topics.py:179-183 | the forum of every request yielded has a page counter |
| `Topics.StartAllFirst` | forum_ykt/forum_ykt/spiders/topics.py:163-183 | the first descriptor's request, if any, comes first |
| `Topics.TopicsSpider.constructor` | forum_ykt/forum_ykt/spiders/topics.py:179-180 | the counters start empty |
| `Topics.TopicsSpider.StartRequests` | forum_ykt/forum_ykt/spiders/topics.py:159-183 | the loop yields the requests, leaves the counters and raises the error that the per-descriptor function defines |
| `Topics.TopicsSpider.Parse` | forum_ykt/forum_ykt/spiders/topics.py:238-272 | the loop yields the records and the error of the per-page function |
| `Replies.Attrib` | forum_ykt/forum_ykt/spiders/replies.py:196-200 | a missing attribute is KeyError, otherwise its value |
| `Replies.ReplyIdOf` | forum_ykt/forum_ykt/spiders/replies.py:240 | the positive number left after stripping the characters of "comment-", or `DEFAULT_ID` |
| `Replies.HeadIdOf` | forum_ykt/forum_ykt/spiders/replies.py:196 | the positive number of the unstripped `data-id`, or `DEFAULT_ID` |
| `Replies.RatingOf` | forum_ykt/forum_ykt/spiders/replies.py:197 | the positive number of the stripped like count, or 0; never negative |
| `Replies.ReplyIdOfAnchor` | forum_ykt/forum_ykt/spiders/replies.py:240 | the anchor `comment-<n>` gives back `n` |
| `Replies.ReplyIdOfZero` | forum_ykt/forum_ykt/spiders/replies.py:240 | `comment-0` and `comment-` get the default id |
| `Replies.FirstIpSpec` | forum_ykt/forum_ykt/spiders/replies.py:186-190 | the earliest candidate with a `data-title`, and `None` exactly when no candidate has one |
| `Replies.ParseIp` | forum_ykt/forum_ykt/spiders/replies.py:185-190 | the loop returns the first candidate's `data-title` |
| `Replies.ParseIpOrder` | forum_ykt/forum_ykt/spiders/replies.py:187-190 | `.f-comment_ip` wins over `.f-user_ip`; no title on either gives `None` |
| `Replies.MakeByOwnerChecker` | forum_ykt/forum_ykt/spiders/replies.py:227-232 | the checker holds exactly for the starter's IP |
| `Replies.ByOwner` | forum_ykt/forum_ykt/spiders/replies.py:259 | present exactly when a checker is given, and then the checker's verdict |
| `Replies.ByOwnerOfStarter` | forum_ykt/forum_ykt/spiders/replies.py:228-259 | with the starter's checker, ownership is IP equality, and a reply with no IP is not the owner's |
| `Replies.ReplyMillis` | forum_ykt/forum_ykt/spiders/replies.py:183 | the digits of `data-date`; a missing attribute is KeyError, a non-digit one TypeError |
| `Replies.ReplyEntrySpec` | forum_ykt/forum_ykt/spiders/replies.py:240-274 | succeeds exactly on a readable `<li>` (missing id KeyError, no content IndexError, missing date KeyError, bad date TypeError); then its id, head, parent, ownership, rating and date are the ones read |
| `Replies.ReaderFaithful` | forum_ykt/forum_ykt/spiders/replies.py:240-274 | the reply reader fails exactly on unreadable `<li>`s and keeps the parent it is given |
| `Replies.TreeStep` | forum_ykt/forum_ykt/spiders/replies.py:279-295 | a readable reply yields its record followed by its children's results under its id |
| `Replies.ForestStops` | forum_ykt/forum_ykt/spiders/replies.py:288-293 | an exception in one child subtree ends its parent with that exception |
| `Replies.ForestGoesOn` | forum_ykt/forum_ykt/spiders/replies.py:288-293 | a child subtree that succeeds is extended onto what came before |
| `Replies.ForestSplit` | forum_ykt/forum_ykt/spiders/replies.py:288-293 | a forest that succeeds is its first subtree's entries followed by the rest's |
| `Replies.AllReadableJoin` | forum_ykt/forum_ykt/spiders/replies.py:282-293 | readability of joined node lists is readability of each |
| `Replies.TreeOk` | forum_ykt/forum_ykt/spiders/replies.py:234-295 | a subtree yields without an exception exactly when every one of its `<li>`s is readable |
| `Replies.ForestOk` | forum_ykt/forum_ykt/spiders/replies.py:288-293 | a list of subtrees does so exactly when all their `<li>`s are readable |
| `Replies.PairwiseCons` | forum_ykt/forum_ykt/spiders/replies.py:279 | a related pair in front keeps two sequences aligned |
| `Replies.PairwiseJoin` | forum_ykt/forum_ykt/spiders/replies.py:293 | aligned sequences joined stay aligned |
| `Replies.TreeAligned` | forum_ykt/forum_ykt/spiders/replies.py:234-295 | entry `i` of a subtree's result is the record of its `i`-th `<li>` in pre-order, under the parent it names |
| `Replies.ForestAligned` | forum_ykt/forum_ykt/spiders/replies.py:288-293 | the same for a list of subtrees |
| `Replies.TreeLinked` | forum_ykt/forum_ykt/spiders/replies.py:234-295 | the first entry hangs under the given parent, and every later one under an entry before it |
| `Replies.ForestLinked` | forum_ykt/forum_ykt/spiders/replies.py:288-293 | every entry hangs under the given parent or an entry before it |
| `Replies.LinkedCons` | forum_ykt/forum_ykt/spiders/replies.py:279-293 | a record followed by entries that hang under it or earlier ones is linked |
| `Replies.LinkedJoin` | forum_ykt/forum_ykt/spiders/replies.py:293 | linked segments joined stay linked |
| `Replies.ForestAt` | forum_ykt/forum_ykt/spiders/replies.py:288-293 | subtree `k`'s results sit right after those of the subtrees before it |
| `Replies.ForestNodesPrefix` | forum_ykt/forum_ykt/spiders/replies.py:282 | the nodes of the first `k` subtrees are the first subtree's, then the next `k - 1`'s |
| `Replies.TreeChildren` | forum_ykt/forum_ykt/spiders/replies.py:282-293 | each child subtree follows the node and earlier siblings, and its first entry names the node as parent |
| `Replies.FlattenSpec` | forum_ykt/forum_ykt/spiders/replies.py:234-295 | succeeds exactly when every `<li>` is readable; then one entry per `<li>` in pre-order, the node's own record first, all under the head id, none a head, ids and ownership as read, and linked |
| `Replies.FlattenChildren` | forum_ykt/forum_ykt/spiders/replies.py:288-293 | each child is read under the reply's own id and its results follow the reply's in document order |
| `Replies.ParseReply` | forum_ykt/forum_ykt/spiders/replies.py:234-295 | the recursion returns exactly the flattened subtree or its exception |
| `Replies.ParseHeadDate` | forum_ykt/forum_ykt/spiders/replies.py:163-177 | with a `time` element, a result is always a time, never bracketed text |
| `Replies.ParseHeadDateFromTime` | forum_ykt/forum_ykt/spiders/replies.py:166-169 | a `time` element's timestamp is read back exactly, whatever the URL |
| `Replies.ParseHeadDateErrors` | forum_ykt/forum_ykt/spiders/replies.py:166-177 | a `time` without `datetime` is KeyError; no create-date text is TypeError; an unreadable URL timestamp is ValueError |
| `Replies.ParseHeadDateFromSnapshot` | forum_ykt/forum_ykt/spiders/replies.py:172-177 | without a `time` element, a bare `HH:MM` is that time on the day of the snapshot the URL names |
| `Replies.ParseHeadSpec` | forum_ykt/forum_ykt/spiders/replies.py:192-225 | missing `data-id` or IP is KeyError; otherwise it succeeds exactly when the date reads, with id = head id, no parent, head, owned, the rating, date and IP read |
| `Replies.PageEntriesSpec` | forum_ykt/forum_ykt/spiders/replies.py:297-315 | a head that cannot be read is the page's exception; otherwise the head then the replies |
| `Replies.Parse` | forum_ykt/forum_ykt/spiders/replies.py:297-317 | the item is the meta with the page's entries, or the page's exception |
| `Replies.HeadThenRepliesSpec` | forum_ykt/forum_ykt/spiders/replies.py:298-315 | succeeds exactly when every reply `<li>` is readable; then the head first, one entry per reply, each under the head id, not a head, owned exactly when its IP is the starter's |
| `Replies.PrependedAt` | forum_ykt/forum_ykt/spiders/replies.py:307-313 | after the head, top-level subtree `k` follows the earlier ones and starts with no parent |
| `Replies.HeadThenRepliesTopLevel` | forum_ykt/forum_ykt/spiders/replies.py:307-313 | top-level reply `k`'s flattened subtree follows the head and the subtrees before it and has no parent |
| `BibleModels.DateLeTotalOrder` | par_bible/models.py:96-106 | date comparison is a total order |
| `BibleModels.Moment` | par_bible/models.py:42-52 | `ONGOING` compares as today; a date as itself |
| `BibleModels.Le` | par_bible/models.py:48-49 | a missing bound is TypeError; otherwise the date order, `ONGOING` as today |
| `BibleModels.ChainLeSpec` | par_bible/models.py:96 | `x <= y <= z` fails only on a missing bound it reaches and otherwise is both comparisons |
| `BibleModels.NewDateRange` | par_bible/models.py:68-84 | the flags record a known start, an `ONGOING` end, and a known end that is not `ONGOING` |
| `BibleModels.KnownBounds` | par_bible/models.py:75-84 | both bounds known exactly when there is a start and a dated end |
| `BibleModels.Eq` | par_bible/models.py:86-90 | a non-range is ValueError; otherwise equality of both bounds |
| `BibleModels.EqIsIdentity` | par_bible/models.py:86-90 | on constructed ranges `==` is equality of the ranges |
| `BibleModels.Contains` | par_bible/models.py:92-101 | unknown bounds give false before anything else; an unsupported operand is ValueError |
| `BibleModels.ContainsDate` | par_bible/models.py:95-96 | a date is contained exactly when it lies between the known bounds |
| `BibleModels.ContainsRange` | par_bible/models.py:97-98 | a range fails only on a missing bound it reaches; otherwise contained exactly when it starts no earlier and ends no later |
| `BibleModels.Intersects` | par_bible/models.py:103-106 | unknown bounds give false |
| `BibleModels.IntersectsBounds` | par_bible/models.py:103-106 | true exactly when the other's start or end lies within this range |
| `BibleModels.And` | par_bible/models.py:108-109 | `&` is `intersects` |
| `BibleModels.EnclosingDoesNotIntersect` | par_bible/models.py:103-109 | a range strictly inside a wider one is met by it but does not meet it: `&` is not symmetric |
| `BibleModels.AndAsymmetric` | par_bible/models.py:103-109 | 2000–2001 & 1990–2010 is false, 1990–2010 & 2000–2001 is true |
| `BibleModels.ContainedIntersects` | par_bible/models.py:92-106 | a known range meets every well-ordered range it contains |
| `BibleModels.ContainedReversedMisses` | par_bible/models.py:92-106 | 1995–2010 contains the reversed range 2005–1992 but does not meet it |
| `BibleModels.FilterEmpty` | par_bible/models.py:25-26 | exactly the items whose value is not `None`, in `d`'s order and each once: the result is `d` at strictly ascending positions, and those are exactly the positions whose value is not `None` |
| `BibleModels.FilterEmptyKeepsFalsy` | par_bible/models.py:25-26 | `""`, `0` and `[]` survive; only `None` is removed |
| `BibleModels.FilterEmptyIdempotent` | par_bible/models.py:25-26 | filtering twice is filtering once |
| `BibleModels.GetYear` | par_bible/models.py:54-57 | a year exactly for a date, `None` for `None` and `ONGOING` |
| `BibleModels.DefaultTextMeta` | par_bible/models.py:131-141 | default title `<no title>`, no chapter, date or URL, and the no-author list |
| `BibleModels.AuthorsJson` | par_bible/models.py:154 | one dict per author, in order |
| `BibleModels.FullNames` | par_bible/models.py:153 | a `None` full name is TypeError; otherwise the names in order |
| `BibleModels.ToTsakorpusJsonSpec` | par_bible/models.py:143-156 | fails with TypeError exactly when an author has no full name; otherwise the keys are the fields, the year keys for a ranged date, then `author`, the names joined by ", " |
| `BibleModels.ToTsakorpusJsonValue` | par_bible/models.py:143-156 | the result is the fields, then the year keys, then `author` |
| `BibleModels.TsakorpusKeysOf` | par_bible/models.py:146-153 | the key order of the export |
| `BibleModels.YearsAppended` | par_bible/models.py:147-151 | the years, new to the dict, go after the fields |
| `BibleModels.AuthorAppended` | par_bible/models.py:153 | `author`, new to the dict, goes last |
| `BibleModels.AuthorsKept` | par_bible/models.py:154 | resetting `authors` to the list `asdict` made leaves the dict as it is |
| `BibleModels.DefaultAuthorName` | par_bible/models.py:121-153 | with the default authors, `author` is `<no author>` |
| `Calendar.NewDateTime` | forum_ykt/forum_ykt/utils.py:84 | `datetime(...)` succeeds exactly on valid fields, else ValueError |
| `Strings.StripChars` | forum_ykt/forum_ykt/spiders/replies.py:240 | `strip(chars)` removes exactly the runs of `chars` at both ends |

## Left out

- Scrapy itself: the engine, signals, feeds, settings, logging and
  `QuietLogFormatter`. A spider's output is returned as a sequence.
- Concurrency: the forums planner is modelled with each request answered and
  parsed before the next query is planned. Scrapy can answer requests out of
  order and in batches.
- HTML and JSON parsing, and CSS/XPath selection. A page is what its
  selectors return.
- `json_dumps_tuple_keys`, `json_loads_tuple_keys` and `engine_stopped`'s
  file write. These are serialisation and I/O; `sort_dict` is modelled.
- `urlparse` and `urllib.parse.quote` (`encode_url`). `ExtractQuery` is given
  the query component, and URL encoding is a parameter.
- `response.urljoin` is a parameter of the pagination parser. The pagination
  logger is not modelled.
- `get_forum_data`, `get_test_forum_data`, `get_topics_data` and the replies
  spider's `start_requests`. These read JSON files or only forward them.
- `filter_topics`: `islice` over spider attributes and a regular-expression
  filter.
- `parse_reply_date`: `datetime.fromtimestamp` uses floating point and the
  local time zone. A reply's date is kept as its `data-date` milliseconds.
- The first `parse_head_date`: Python's class body replaces it with the second
  definition, which is the one modelled.
- `Ongoing.__eq__` and the reflected comparisons through `NotImplemented`.
  The model gives only their effect: `ONGOING` compares as today.
- `datetime` being a subclass of `date`. The date-range model compares plain
  dates.
- `BibleModels.Contains`: states only the guard and the unsupported operand.
  The date and range cases are stated by `ContainsDate` and `ContainsRange`.
- `BibleModels.Intersects`: states only the guard. The bound cases are stated
  by `IntersectsBounds`.
- `ForumUtils.ConvertHeadTimestamp`: states validity and the error kind. That
  it decodes exactly the forum's layout is stated by `HeadRoundTrip` and
  `HeadTimestampMillis`.
- `ForumUtils.ConvertCustomary`: states only that its results are well formed.
  Each input form is stated by the `Customary…` lemmas.
- Digits are ASCII only. `str.isdigit`, `int()` and the `\d` of `re` also
  accept other Unicode digits, and `isdigit` accepts superscripts that `int()`
  rejects. `safe_int("²")` raises ValueError where `ForumUtils.SafeInt` gives
  `None`, so `Replies.ReplyIdOf`, `Replies.HeadIdOf` and `Replies.RatingOf` fall
  back to their defaults there. A run of fourteen Arabic-Indic digits is a
  timestamp to `extract_webarchive_date`, while `ForumUtils.ExtractWebarchiveDate`
  gives `None`.
- `ForumUtils.ConvertSnapshotTimestamp`: decodes fixed-width fields only.
  `strptime` also accepts shorter texts with one-digit fields: it reads
  `"2021111111111"` as 2021-11-11 11:11:01, which the model rejects with
  ValueError. On fourteen digits the two agree. `extract_webarchive_date`
  always passes a fourteen-digit match. The forums spider passes the archive's
  `timestamp`, which the Wayback availability API writes as fourteen digits.
- `Forums.ItemKey`: a snapshot field `forum_id`, `forum_style` or `page` whose
  value is not of the descriptor's type (an int id, a string style, an int
  page) cannot be held in the key type, so the descriptor's value is kept for
  that field. The Wayback API's `closest` object carries none of these fields.
- Files outside the crawler core are not part of this model: `items.py`, the
  other spiders of the repository, and the rest of `par_bible`.

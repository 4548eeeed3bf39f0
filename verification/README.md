# rubus comic index — a Dafny model

rubus is a Telegram bot that mirrors the daily comic strips of the Helsingin Sanomat
website (`https://hs.fi/sarjakuvat/`) into a SQLite database and posts them to chats.
This project models the bot's comic core and proves properties of the model. It covers:

- **the crawl.** `_fetch_comic_url_all` is a generator. It starts at a comic's latest
  strip and follows each page's "previous" link back through the history.
  `_update_index_of_comic` downloads each page, reads its date and compares the date with
  the newest one stored for that comic. It inserts an `images` row for each newer page.
  `update_index` first upserts the comic's `sources` row from the frontpage listing.
- **the date handling of `download_comic`.** The page's last space-separated word is read
  with strptime `"%d.%m.%Y"`, or with `"%d.%m."` plus the current year when that fails.
  The date is then stored as the strftime `"%Y-%m-%d"` string.
- **the queries the bot answers from the database.** These are the chats due a comic today
  (`post_comic_of_the_day`), the file_id choice of `random_post`, and the daily-posting
  toggle (`_is_comic_scheduled`, `schedule`, `scheduling_enable`, `scheduling_disable`).
- **the helpers from `rubus/helper.py`.** These are `group_elements`, `database_query` and
  `database_query_single`. `rubus/comics.py` carries its own copies of them:
  `database_query` at lines 58-65, `database_query_single` at 68-83 and `_group_elements` at
  259-269. Those copies behave the same and are modelled by the same members.

Modules:

| module | file | models |
|---|---|---|
| `Wrappers` | `wrappers.dfy` | `Option` and `Result` |
| `Strings` | `strings.dfy` | SQLite's BINARY text order (`ORDER BY date DESC`) as lexicographic order |
| `Arithmetic` | `arith.dfy` | small division facts |
| `Seqs` | `seqs.dfy` | sequences without repeats |
| `Helper` | `helper.dfy` | `group_elements`, `database_query`, `database_query_single` |
| `Dates` | `dates.dfy` | the token, strptime's `%d`/`%m`/`%Y` fields, strftime |
| `Index` | `index.dfy` | the three tables and the queries and updates on them |
| `Crawl` | `crawl.dfy` | the URL generator and the crawl-and-stop loop |
| `Update` | `update.dfy` | `_update_index_of_comic`, `update_index` and what re-running them does |

The web is a map from URL to page. A URL missing from the map is a page that cannot be
fetched or parsed, so the exception ends the update. Each page carries its date text, its
image file and its "previous" link. The crawl stops within |web|+1 pages: a longer walk
must revisit a page, and because the links are deterministic it would then cycle forever.
The model reports that case as `Endless` / `Looping`, and `LoopingMeansCycle` proves the
repeat.

What the code does, and the model with it:

- `images` has no uniqueness constraint (`rubus/comics.py:216-218` declares none), so
  `images` is a plain sequence of rows. Duplicates are kept out only by the stop check at
  `rubus/comics.py:204-206`.
- A second refresh with no new content downloads the newest page again
  (`rubus/comics.py:199-203`), finds its date already stored and stops
  (`rubus/comics.py:204-206`). Only the inserts are zero (`Update.UpdateTwiceAddsNothing`).
- An aborted crawl is not resumed. Its first insert is the head of the history, and the
  next run reads the newest stored date (`rubus/comics.py:194-195`) and stops at that head
  (`rubus/comics.py:204-206`). The older pages the aborted run never reached are never
  indexed.
- Nothing in `rubus/comics.py` writes `file_id`. The only INSERT into `images`
  (`rubus/comics.py:209-211`) sets name, date and filepath, so every inserted row has
  `fileId == None`.

## Model

| member | source | states |
|---|---|---|
| Helper.FullGroups | rubus/helper.py:56 | `zip(*[iter(xs)]*n)` makes len(xs)/n groups of exactly n elements each. Together they are `xs` minus its last len(xs) mod n elements. |
| Helper.GroupElements | rubus/helper.py:50-61 | The groups concatenate back to the input, and every group but the last has n elements. There are ⌈len(xs)/n⌉ groups. The last group is short exactly when n does not divide len(xs), and then it holds the len(xs) mod n leftover elements. |
| Helper.DatabaseQuery | rubus/helper.py:88-95 | Raises (Failure) exactly when the worker answers None. Otherwise it returns the worker's rows unchanged. |
| Helper.DatabaseQuerySingle | rubus/helper.py:98-113 | Fails exactly when the query fails. No rows gives None. A one-column first row gives its only value. Any other first row gives the whole row. |
| Helper.OnlyFirstRowMatters | rubus/helper.py:107-111 | Rows after the first never change the answer. |
| Helper.NoneMeansNoRowOrNull | rubus/helper.py:104-111 | The answer is None exactly when there is no row or the first row is a single NULL. |
| Dates.LastToken | rubus/comics.py:153 | `split(' ')[-1]` has no space and is a suffix of the text. When it is shorter than the text, a space comes right before it. |
| Dates.LastTokenAfterSpace | rubus/comics.py:153 | For "weekday date", the token is the date whatever the prefix is. |
| Dates.SplitDot | rubus/comics.py:155 | A strptime field ends at the first '.': the split finds it, or fails exactly when there is no '.'. |
| Dates.DayFieldExact | rubus/comics.py:155 | `%d` reads v exactly when 1 ≤ v ≤ 31 and the field is one of v's renderings: "5", "05", " 5" or "15". |
| Dates.MonthFieldExact | rubus/comics.py:155 | `%m` reads v exactly when 1 ≤ v ≤ 12 and the field is "3", "03" or "12". |
| Dates.YearFieldExact | rubus/comics.py:155 | `%Y` reads y exactly when the field is y written with four digits. |
| Dates.DayField | rubus/comics.py:155 | `%d` only reads days 1 to 31. |
| Dates.MonthField | rubus/comics.py:155 | `%m` only reads months 1 to 12. |
| Dates.YearField | rubus/comics.py:155 | `%Y` only reads years 0 to 9999. |
| Dates.DayMonth | rubus/comics.py:155 | The "D.M." prefix only reads a day 1 to 31 and a month 1 to 12. |
| Dates.ParseFull | rubus/comics.py:155 | strptime `"%d.%m.%Y"` only yields real calendar dates. |
| Dates.ParseFullExact | rubus/comics.py:155 | strptime `"%d.%m.%Y"` yields d exactly when d is a valid date and the token is one of its renderings. Trailing text is rejected. |
| Dates.ShortIsNotFull | rubus/comics.py:154-158 | A year-less token always makes the first strptime fail, so the fallback is taken. |
| Dates.FullTokenNotShort | rubus/comics.py:154-158 | A token the first strptime accepts is never a year-less rendering. |
| Dates.ParseShortAsWritten | rubus/comics.py:158-160 | As written: the date is valid and in the given year, but never 29 February, because strptime checks day and month against the default year 1900. |
| Dates.NotLeap1900 | rubus/comics.py:158 | 1900, strptime's default year, is not a leap year. |
| Dates.LeapDayToken | rubus/comics.py:158 | "29.2." has a well-formed day and month, yet the first strptime rejects it. |
| Dates.LeapDayRejectedAsWritten | rubus/comics.py:152-160 | A page dated "29.2." in a leap year means a real date, yet both strptime calls as written reject it. |
| Dates.ParseShort | rubus/comics.py:158-160 | Corrected: day and month are checked against the current year, and the result is a valid date in that year. |
| Dates.ParseShortExact | rubus/comics.py:158-160 | Corrected: the year-less form yields d exactly when d is valid, lies in the given year and the token renders d's day and month. |
| Dates.ShortAsWrittenDiffersOnLeapDayOnly | rubus/comics.py:158-160 | The as-written and corrected year-less parses differ exactly on tokens that mean 29 February. |
| Dates.ParseToken | rubus/comics.py:154-160 | As written: the two-step parse only yields valid dates. |
| Dates.ParseTokenCorrected | rubus/comics.py:154-160 | With the corrected year-less parse, the two-step parse only yields valid dates. |
| Dates.ParseShortAsWrittenExact | rubus/comics.py:158-160 | As written, the year-less form yields d exactly when d is valid, lies in the given year, is not 29 February and the token renders d's day and month. |
| Dates.Normalise | rubus/comics.py:152-160 | As written, the date read from a page's date text is always a valid date. |
| Dates.NormaliseCorrected | rubus/comics.py:152-160 | With the corrected year-less parse, the date read is always a valid date. |
| Dates.NormaliseExact | rubus/comics.py:152-160 | As written, the page text yields d exactly when its last word renders d in full, or renders d's day and month with d in the current year and d not 29 February. |
| Dates.NormaliseCorrectedExact | rubus/comics.py:152-160 | With the corrected parse, the page text yields d exactly when its last word renders d in full, or renders d's day and month with d in the current year. |
| Dates.NormaliseFullForm | rubus/comics.py:152-155 | "weekday D.M.YYYY" reads back as that date. |
| Dates.NormaliseShortForm | rubus/comics.py:152-160 | As written, "weekday D.M." reads back as that day of the current year, except that 29 February raises. |
| Dates.NormaliseCorrectedShortForm | rubus/comics.py:152-160 | With the corrected parse, "weekday D.M." reads back as that day of the current year, 29 February of a leap year included. |
| Dates.FifthOfMarchExample | rubus/comics.py:152-160 | "ti 5.3." in 2024 reads as 5 March 2024. |
| Dates.Format | rubus/comics.py:203 | strftime `"%Y-%m-%d"` gives ten characters with '-' at positions 4 and 7. |
| Dates.FormatShape | rubus/comics.py:203 | strftime `"%Y-%m-%d"` gives ten characters: digits with '-' at positions 4 and 7. |
| Dates.FormatExample | rubus/comics.py:203 | 5 March 2024 is stored as "2024-03-05". |
| Dates.FormatOrder | rubus/comics.py:195 | Text order on stored date strings (what `ORDER BY date DESC` sorts by) is the same as calendar order. |
| Dates.FormatInjective | rubus/comics.py:203-204 | Two dates have equal strings exactly when they are the same date, so comparing strings compares dates. |
| Dates.Pad2Order | rubus/comics.py:203 | Zero-padded two-digit numbers compare as text just as they do as numbers. |
| Dates.Pad4Order | rubus/comics.py:203 | Zero-padded four-digit years compare as text just as they do as numbers, and are equal only for equal years. |
| Index.SourceUrl | rubus/comics.py:196-197 | The homepage lookup finds a url exactly when a source of that name exists, and the url belongs to such a source. |
| Index.SourceUrlUnique | rubus/comics.py:215 | When the name is unique, the lookup gives that source's url. |
| Index.WithoutName | rubus/comics.py:233-234 | Deleting a name's rows keeps exactly the other sources and leaves their lookups unchanged. |
| Index.UpsertSource | rubus/comics.py:233-234 | INSERT OR REPLACE leaves exactly one row for the name, with the new url. Other names' rows and lookups are unchanged. Unique names stay unique. |
| Index.LatestStored | rubus/comics.py:194-195 | `ORDER BY date DESC` plus the first row gives None exactly when the comic has no row. Otherwise it gives a stored date no smaller than any other date of that comic. |
| Index.LatestStoredIs | rubus/comics.py:194-195 | A stored date that is at least every other date of the comic is the one the query returns. |
| Index.FilepathRows | rubus/comics.py:248-250 | The filepath query returns rows exactly when the comic has a row for that day, and its first row is such a row's filepath. |
| Index.TodayFile | rubus/comics.py:248-253 | A file is found exactly when the comic has a row for that day, and it is that row's file. |
| Index.PostOf | rubus/comics.py:248-256 | A subscription yields at most one post. It yields one exactly when the comic has a file for the day, and the post carries that file. |
| Index.PostsFor | rubus/comics.py:247-256 | The loop sends at most one photo per subscription. |
| Index.PostsForExact | rubus/comics.py:247-256 | Every post belongs to a subscription whose comic has a file for the day. Every such subscription is posted. |
| Index.PostsForAppend | rubus/comics.py:247 | Each subscription is handled on its own: the posts of a concatenation are the concatenated posts. |
| Index.PostsOfTheDay | rubus/comics.py:245-253 | The loop selects a post exactly for each subscribed chat and comic that has a stored file for today's strftime date, carrying that file. |
| Index.PostsForDistinct | rubus/comics.py:247-253 | Under UNIQUE(chat_id, name) no post is selected twice. |
| Index.SendAll | rubus/comics.py:254-256 | The posts go out in order until the first `open` or `send_photo` that raises. What is sent is a prefix of the selection, and each sent post succeeded. The loop fails exactly when the prefix is short, and the failing post is the next one, whose send did not succeed. |
| Index.PostComicOfTheDay | rubus/comics.py:240-256 | The posts sent are a prefix of the selection, and each belongs to a subscribed chat and comic with a file for today. The loop finishes exactly when every selected send succeeds, and then a post is sent exactly for each subscription with today's file. |
| Index.NothingAfterFailedSend | rubus/comics.py:247-256 | Under UNIQUE(chat_id, name), after a raise no later selected post is sent that day. |
| Index.SelectOne | rubus/comics.py:309 | `SELECT 1` returns rows exactly when the subscription exists. |
| Index.IsScheduled | rubus/comics.py:308-310 | True exactly when the chat subscribes to the comic. |
| Index.Enable | rubus/comics.py:351-353 | The plain INSERT fails exactly when the pair is already subscribed (UNIQUE). Otherwise it appends the pair and leaves the rest unchanged. |
| Index.Disable | rubus/comics.py:356-358 | DELETE removes the pair, keeps every other subscription and does nothing when the pair is absent. No duplicates appear. |
| Index.DisableUndoesEnable | rubus/comics.py:351-358 | Enabling a new subscription and then disabling it restores the table exactly. |
| Index.Schedule | rubus/comics.py:336-349 | The toggle never fails. It reports "enabled" exactly when the pair was absent, and flips that pair's membership while leaving the others alone. The table stays duplicate-free. |
| Index.ScheduleTwiceRestores | rubus/comics.py:336-349 | Toggling twice restores the set of subscriptions. |
| Index.ComicRows | rubus/comics.py:293-294 | The comic's rows, in table order, are exactly the stored images of that name. |
| Index.RandomPost | rubus/comics.py:293-303 | Fails exactly when the comic has no image. Otherwise the caption is "name of date" of a stored image, sent by file_id when that is set and from the file otherwise. |
| Index.EveryRowCanBePosted | rubus/comics.py:293-303 | Every stored image of the comic is some pick of `ORDER BY RANDOM()`, and picking it posts that image with its caption and file choice. |
| Crawl.UnsplitOnSite | rubus/comics.py:122-124 | `urlunsplit` with scheme https and host hs.fi gives `https://hs.fi` followed by the href, with a '/' put in front when the href lacks one. The path is empty or starts with '/'. |
| Crawl.FirstHrefSuffix | rubus/comics.py:120 | `url_current[len(URL_BASE):]` is what follows the first len(URL_BASE) characters, and is empty for a shorter URL. |
| Crawl.StartYieldedUnchanged | rubus/comics.py:120-124 | A start URL under `https://hs.fi` with an absolute path is yielded unchanged. |
| Crawl.Walk | rubus/comics.py:121-130 | The generator yields the start URL, then each page's "previous" link. It returns exactly after a page without one (Exhausted). It ends early exactly when a page cannot be fetched (Unreachable). |
| Crawl.FetchComicUrlAll | rubus/comics.py:118-130 | `_fetch_comic_url_all`: yields the start URL first, each URL linked from the previous one. It returns normally exactly when it has walked a whole history. |
| Crawl.ChainDistinct | rubus/comics.py:121-130 | A history that ends in a page without a "previous" link never repeats a URL. |
| Crawl.ChainFits | rubus/comics.py:121-130 | Such a history is no longer than the number of pages. |
| Crawl.ChainIsWalked | rubus/comics.py:121-130 | Given a history and enough fuel, the generator yields exactly that history. |
| Crawl.FetchComicUrlAllIsChain | rubus/comics.py:118-130 | From a history's first page, `_fetch_comic_url_all` yields exactly the history. |
| Crawl.LoopingMeansCycle | rubus/comics.py:121-130 | When the generator does not stop, the URLs it yields repeat. |
| Crawl.CrawlFrom | rubus/comics.py:200-211 | The loop downloads the start page first. It inserts one row per downloaded page, except the page it stops at because of the date or an exception. |
| Crawl.CrawlComic | rubus/comics.py:199-211 | The loop begins at the latest comic's URL, and never inserts a page carrying the newest stored date. |
| Crawl.CrawlRowsRead | rubus/comics.py:200-211 | The i-th inserted row is what downloading the i-th visited page yields, and it never carries the stored date. |
| Crawl.CrawlLinked | rubus/comics.py:125-130 | Each visited page is the previous link of the one before it. At most fuel+1 pages are visited. |
| Crawl.CrawlUnavailableLast | rubus/comics.py:127-128 | The loop ends with a fetch failure exactly when its last URL cannot be fetched. |
| Crawl.CrawlHistoryEndLast | rubus/comics.py:129-130 | When the generator returns, the last page was fetched and has no "previous" link. |
| Crawl.CrawlEndlessLast | rubus/comics.py:121-130 | When the loop never ends, its last page links on and fuel+1 pages were visited. |
| Crawl.CrawlFollowsWalk | rubus/comics.py:200-201 | The loop downloads a prefix of what the generator yields. When the generator ends, or its links cycle, the loop takes every URL, and the generator ends for the matching reason. |
| Crawl.ChainFound | rubus/comics.py:201-203 | Reading a fully readable history gives one found row per page, in order. |
| Crawl.StopAt | rubus/comics.py:204-206 | The break position: no earlier page carries the stored date, and the page at it does. |
| Crawl.ChainCrawlIsTakeWhile | rubus/comics.py:200-211 | Crawling a readable history inserts the rows before the first page with the stored date. It stops there (CaughtUp) or at the end of the history. |
| Crawl.CrawlIsChainCrawl | rubus/comics.py:200-211 | The fuelled loop over a readable history equals the fuel-free reference crawl. |
| Crawl.CrawlIsTakeWhile | rubus/comics.py:200-211 | The loop over a readable history inserts exactly the pages before the first one with the stored date. |
| Crawl.CrawlComicIsTakeWhile | rubus/comics.py:199-211 | The same, from the latest comic's URL. |
| Crawl.NoStoredDateIndexesAll | rubus/comics.py:194-211 | A comic with nothing stored gets its whole readable history inserted. |
| Crawl.OnlyNewerIndexed | rubus/comics.py:200-211 | With dates falling along the history, exactly the pages newer than the stored date are inserted. |
| Crawl.StopAtOwnDate | rubus/comics.py:204-206 | With falling dates, the break comes exactly at the page carrying the stored date. |
| Crawl.CrawlCatchesUp | rubus/comics.py:200-211 | Along linked pages that read in order, when only the last carries the stored date, the loop inserts all the others and stops at it (CaughtUp). |
| Crawl.CrawlComicCatchesUp | rubus/comics.py:199-211 | From the latest comic, with dates falling along linked readable pages and the stored date the last one's, the loop inserts the pages before it and stops there, whatever lies further back. |
| Crawl.CrawlComicUnreadHead | rubus/comics.py:199-203 | When the latest comic's page does not read, the loop stops at once with nothing inserted. |
| Update.DownloadPage | rubus/comics.py:152-160 | `download_comic` raises exactly when strptime rejects the date text. Otherwise it gives the page's file and a date string of ten characters, as strftime at `rubus/comics.py:203` renders it. |
| Update.DownloadPageCorrected | rubus/comics.py:152-160 | The same with the corrected year-less parse. |
| Update.DownloadPageDate | rubus/comics.py:203 | A page is stored under the strftime string of date d exactly when its date text reads as d. |
| Update.Inserted | rubus/comics.py:209-211 | Each found page becomes one `images` row with the comic's name, the date string and the file, and no file_id. |
| Update.UpdateIndexOfComic | rubus/comics.py:193-211 | Only `images` changes, and only by appending rows of this comic without file_id. A comic without a `sources` row aborts with nothing inserted. |
| Update.UpdateComics | rubus/comics.py:231-235 | The loop only appends images and keeps source names unique. When it completes, each listed comic's url is its last listed url and every other url is unchanged. |
| Update.LastListed | rubus/comics.py:231-235 | The listing has no entry of the name exactly when the result is None. Otherwise the result is the url of an entry of that name with no later entry of it, the one the last upsert leaves. |
| Update.UpdateIndex | rubus/comics.py:224-237 | `update_index` never touches `daily_posts`, only appends to `images` and keeps source names unique. The upsert means every comic has a homepage. |
| Update.UpdateIndexCorrected | rubus/comics.py:224-237 | The same guarantees as `Update.UpdateIndex`, with the corrected year-less parse. |
| Update.LeapDayPage | rubus/comics.py:152-160 | In a leap year, a page dated "29.2." raises as written, and the corrected parse reads it as 29 February. |
| Update.UnreadHeadAborts | rubus/comics.py:193-203 | When the latest comic's page does not read, the comic's update aborts with BadDate and the database is unchanged. |
| Update.LeapDayAbortsUpdate | rubus/comics.py:152-160 | In a leap year, a latest comic dated "29.2." makes the comic's update as written abort with BadDate, with nothing inserted. |
| Update.ChronologicalIsLexical | rubus/comics.py:203 | Pages whose dates fall along the history give stored strings that fall in text order. |
| Update.UpdateIndexOfComicIsTakeWhile | rubus/comics.py:193-211 | On a readable history, the update appends exactly the pages before the first one with the newest stored date, and completes. |
| Update.NewestAfterInsert | rubus/comics.py:194-195 | After inserting a newest-first prefix of falling dates above everything stored, the newest stored date is the head's. |
| Update.HeadNewestAfterRun | rubus/comics.py:194-195 | After a run that started from nothing stored or from a date on the history, the head's date is the newest stored. |
| Update.FirstRunStoresHead | rubus/comics.py:193-211 | Such a run completes, and afterwards the newest stored date is the latest comic's. |
| Update.CaughtUpAddsNothing | rubus/comics.py:193-206 | When the latest comic's page reads and its date is the newest stored, the update downloads only that page, completes and leaves the database unchanged. Nothing is assumed about older pages. |
| Update.CrawlCompletes | rubus/comics.py:199-211 | The comic's update inserts the crawl's rows and ends as the crawl ends. |
| Update.StoredOnHistoryRun | rubus/comics.py:193-211 | Suppose the dates fall along linked readable pages from the latest comic, and the newest stored date is the last page's. Then the update inserts exactly the pages before that one and completes. Afterwards the head's date is the newest stored. |
| Update.UpdateTwiceAddsNothing | rubus/comics.py:193-211 | Under those conditions, the first run completes and a second run on the unchanged site inserts nothing. |
| Update.UpdateTwiceFromEmptyAddsNothing | rubus/comics.py:193-211 | With nothing stored and dates falling along a whole readable history, the first run completes and a second run inserts nothing. |

## Left out

- HTTP and HTML parsing are left out. The model takes their results as data instead:
  - `fetch_comics_available` (`rubus/comics.py:177-190`) is `Site.frontpage`.
  - `fetch_comic_url_latest` (`rubus/comics.py:107-115`) is the `Site.latest` map.
  - A page's span, img and "previous" link are the fields of `Crawl.Page`.
  - A request or a BeautifulSoup lookup that raises is a URL missing from the map.
- `_download_comic_image` and the `data-srcset` handling (`rubus/comics.py:162-168`) are left
  out. The page carries the file path the download produces.
- The database worker thread and its queues are left out. In `Helper.DatabaseQuery` and
  `Helper.DatabaseQuerySingle` the worker's answer is the `Reply` parameter. An `IntegrityError` from the duplicate INSERT in `scheduling_enable` is
  not caught by the worker, so the caller would wait forever; `Index.Enable` reports it as
  `Failure(IntegrityError)`.
- Update.UpdateIndexOfComic, Update.UpdateComics, Update.UpdateIndex, Index.TodayFile,
  Index.PostComicOfTheDay, Index.IsScheduled, Index.Schedule and Index.RandomPost: every
  query inside them succeeds. The worker answers None on OperationalError or
  ProgrammingError (`rubus/comics.py:53-56`), and `database_query` then raises RuntimeError
  (`rubus/comics.py:63-64`), which ends the caller. For an update this can happen at the
  two SELECTs (`rubus/comics.py:194-197`), at an INSERT (`rubus/comics.py:209-211`) or at
  the upsert (`rubus/comics.py:233-234`). That failure is not modelled.
- `_create_database_tables` is left out. It is a no-op on an existing database, and the
  schemas are the `Index` datatypes.
- SQLite column affinity is left out. `date` is declared DATE (NUMERIC affinity), but
  "YYYY-MM-DD" does not read as a number, so it stays TEXT and compares in BINARY text order.
- Row order of a SELECT without ORDER BY is taken to be table (insertion) order.
- `ORDER BY RANDOM()` is left out; the random choice is the `pick` parameter of
  `Index.RandomPost`.
- The clock is left out: the current year (`datetime.now()`) and today's date
  (`date.today()`) are parameters.
- Telegram I/O is left out: sending photos, message texts, keyboards and menus
  (`random_menu`, `schedule_menu`, `start`, `cancel`, handlers). `Index.Post` carries the
  chat, comic and file but not the fixed caption "name of the day".
- Index.PostComicOfTheDay: whether opening a post's file and sending it succeed is the
  `delivers` parameter. The exception that then leaves the job is not followed further.
- Logging and configuration loading are left out.
- The other modules `rubus/fokit.py`, `rubus/main.py`, `rubus/reminders.py` and
  `rubus/stickers.py` are not part of this model.
- strftime `%Y` for years below 1000 is modelled zero-padded to four digits. Some C libraries
  print fewer digits. Comic dates are far from that range.
- strptime's `\d` also matches non-ASCII decimal digits. The model accepts only ASCII digits.
- The crawl and walk take fuel |web|. Running out of it is reported as `Endless` / `Looping` /
  `Diverged`; the source would loop forever there. Fuel |web| is large enough that it runs
  out only on a cycle.
- Crawl.CrawlIsTakeWhile: the exact characterisation assumes every page on the history
  reads (`AllRead`). For an aborted crawl only the prefix and halt facts
  (`Crawl.CrawlFollowsWalk`, `Crawl.CrawlRowsRead`) are stated.
- Helper.GroupElements: requires n > 0. With 0 the source divides by zero and raises
  ZeroDivisionError. The only call in these files is `_group_elements(buttons, 2)` at
  `rubus/comics.py:277`; `group_elements` of `rubus/helper.py` has no caller here.
- Index.TodayFile: states that the file belongs to some row of the comic for that day, not
  which one when several rows share the day, because `images` has no uniqueness constraint.
- Index.SourceUrl: gives the first matching row's url. With several rows for a name (not
  possible under UNIQUE) SQLite's choice is not modelled.

## Findings

| source | as written | input that shows it | evidently intended | confidence | as-written member | corrected member |
|---|---|---|---|---|---|---|
| rubus/comics.py:158-160 | The fallback parses the year-less date with `strptime(date_text, "%d.%m.")` and only then sets the year. strptime builds the date in its default year 1900, which is not a leap year, so "29.2." raises ValueError. The exception leaves `download_comic` and ends `update_index`. | a page dated "to 29.2." read in 2024 | read 29 February of the current year when that year is a leap year | not executed | Dates.ParseShortAsWritten, Dates.LeapDayRejectedAsWritten, Update.LeapDayAbortsUpdate | Dates.ParseShort, Dates.ParseShortExact, Dates.NormaliseCorrectedExact, Update.UpdateIndexCorrected |

`Dates.Normalise`, `Update.Download` and `Update.UpdateIndex` follow the code as written.
`Dates.NormaliseCorrected`, `Update.DownloadCorrected` and `Update.UpdateIndexCorrected` use
the corrected parse. The crawl and update lemmas hold for any page reader, so they hold for
both.

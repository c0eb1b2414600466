# A verified model of the breadth-first text crawler

`web_crawlar/script.py` crawls the web breadth first from a list of seed URLs.
It keeps a FIFO queue of `(url, identifier, depth)` entries and a set of visited
URLs. For each page it fetches, it saves the page's text under the
entry's identifier. When the entry is shallower than `max_depth`, it also queues at most two links taken
from the middle of the page's unique absolute links. Children are named
after their parent by appending the rank `1` or `2`.

This project models that crawler in Dafny and proves what it does:

- `Cleaner` models `clean_html`: nine regular-expression substitutions and a final `strip()`.
  - `MatchAt` gives, for each pattern, the length of the match that Python's backtracking engine finds at the start of a string.
  - `Substitute` is the left-to-right, non-overlapping scan of `re.sub`.
  - The proofs cover the output alphabet, the whitespace normal form, the rule for `.` runs, a class of fixed points, and a concrete input on which a second pass changes the text.
- `Links` models `extract_links`.
  - `FindHrefs` is `re.findall` of the `href` pattern.
  - `ExtractLinks` is the middle slice of any duplicate-free listing of the joined set.
  - `ExtractPageLinks` picks such a listing.
- `Identifiers` models the naming scheme `url{k+1}` / `{identifier}{i}`. With at most ten seeds, names never collide; the eleventh seed collides with a child of the first.
- `Persistence` models `save_text` as a log of writes and the directory the log leaves behind. A later write to a name overwrites the earlier one.
- `CrawlState` holds the ghost bookkeeping of a crawl:
  - `enqueued`: every entry ever queued;
  - `origins`: where each name comes from;
  - `fetched`: every entry whose page was requested;
  - `saved`: every entry whose text was saved;
  - `children`: for each saved entry, the links queued for it.

  It also holds the invariants `CrawlOk`, `LinkedOk` and `ServedOk`, one lemma per outcome of a loop iteration, and the final properties.
  `LinkedOk` ties the queue to the pages: after the seeds, the queue holds, saved page by saved page, the entries for the links `extract_links` gave for that page.
  `ServedOk` ties the requests to the queue order: `Served` is an independent definition of the requests made when the queue is served first in, first out. It requests an entry unless the entry is deeper than `max_depth` or an earlier entry with its URL was within `max_depth` and had content. `ServedFirst` proves that the first such entry for a URL is the one saved, and `RepeatedSeedServedOnce` works this out for two seeds with the same URL.
- `Crawler` holds the imperative part:
  - `Visit` is one loop iteration.
  - `Crawl` is the `while queue` loop. It is written for any text function `clean` and terminates by the measure `QueueWeight`.
  - `WebCrawler` runs `Crawl` with `CleanHtml` and states its whole contract.

The external parts of the crawler are parameters:

- `get_page_content` is the oracle `fetch: string -> Option<string>`. Its result is `None` for a failed request or a status other than 200.
- `urljoin` is the function `join`.
- `time.sleep(5)` is an increment of the counter `sleeps`.

### Behaviour as coded

The model follows the code. These points may be surprising:

- The script, style and comment patterns at script.py:29-31 are lazy (`.*?`), not greedy.
- The newlines that script.py:32-33 insert do not survive: `\s+ → ' '` at script.py:37 turns them into spaces. The output has no newline (`CleanHtml`).
- `clean_html` is not idempotent, even on markup-free text.
  - A `.` followed by a digit only after step 8 has deleted a character in between is not removed by step 7.
  - `NotIdempotent` shows this: `CleanHtml(".-5") == ".5"` and `CleanHtml(".5") == ""`.
  - What holds is `CleanHtmlFixedPoint` and `IdempotentWithoutDot`.
- `extract_links` returns `min(limit, n - n/2)` links out of `n` distinct ones.
  - It equals `n` for every `n < limit` only when `limit <= 2`.
  - For example, `limit = 3` with two links returns one.
- An entry whose page has no content `continue`s at script.py:61, before the sleep at script.py:72. Only saved pages cause a pause (`sleeps == |saved|`).
- A URL whose fetch gave no content is not added to `visited`. The same URL may be requested again when it is queued again.

## Model

| member | source | states |
|---|---|---|
| Text.FindFrom | web_crawlar/script.py:29-31 | the index where a lazy `.*?pat` stops: the first occurrence of `pat` at or after `from`; no earlier one; `None` exactly when there is none |
| Text.RunEnd | web_crawlar/script.py:21 | the end of the greedy run of characters satisfying `p` from `i`: all characters before it satisfy `p`, the one at it does not |
| Text.IsWord | web_crawlar/script.py:35-36 | `\w` on ASCII: letters, digits and `_`; no contract of its own, used by `Cleaner.DottedCodeMatch` and `Cleaner.UnwantedRemoved` |
| Text.IsDigit | web_crawlar/script.py:35 | `\d` on ASCII; no contract of its own, used by `Cleaner.DottedCodeMatch` |
| Text.IsSpace | web_crawlar/script.py:32-37 | `\s` on ASCII, and what `strip()` removes; no contract of its own, used by `Cleaner.WhitespaceCollapsed`, `Cleaner.Strip` and `Cleaner.MatchAt` |
| Identifiers.DecimalString | web_crawlar/script.py:48 | `str(n)` is a non-empty string of decimal digits, starting with `0` only for `0` itself |
| Identifiers.SeedId | web_crawlar/script.py:48 | `f"url{idx+1}"`; no contract of its own: its properties are `SeedIdsDistinct`, `SeedIdChars`, `UniqueUpToTenSeeds` and `EleventhSeedCollides` |
| Identifiers.ChildId | web_crawlar/script.py:70 | `f"{identifier}{i}"`; no contract of its own: its properties are `UniqueUpToTenSeeds`, `EleventhSeedCollides` and `CrawlState.ChildNamed` |
| Identifiers.DecimalRoundTrip | web_crawlar/script.py:48 | `int(str(n)) == n` |
| Identifiers.SeedIdsDistinct | web_crawlar/script.py:48 | two different seed positions get different names `url{k+1}` |
| Identifiers.UniqueUpToTenSeeds | web_crawlar/script.py:48-70 | with at most ten seeds, a name `url{k+1}` followed by ranks `1`/`2` determines both the seed and the ranks |
| Identifiers.EleventhSeedCollides | web_crawlar/script.py:48-70 | the eleventh seed's name `url11` equals the name of the first child of seed 1 |
| Persistence.Persist | web_crawlar/script.py:40-44 | the directory after a sequence of writes has exactly the written file names |
| Persistence.PersistLastWrite | web_crawlar/script.py:43-44 | a file holds what the last write to its name put there |
| Persistence.NothingOverwritten | web_crawlar/script.py:43-44 | when all writes name different files, the directory has one file per write, each with that write's content |
| Cleaner.MatchAt | web_crawlar/script.py:29-37 | a match of any of the nine patterns is non-empty, fits in the string and begins with a character that pattern can begin with |
| Cleaner.LazyBlock | web_crawlar/script.py:29-30 | `<open.*?>.*?close` with DOTALL: the match ends at the first `close` after the first `>` after `open`; no contract of its own, its properties are in `MatchAt` |
| Cleaner.Substitute | web_crawlar/script.py:29-37 | `re.sub`: a left-to-right scan that replaces each non-overlapping match; no contract of its own, its properties are `SubstituteKeeps`, `NoMatchHere`, `UnwantedRemoved`, `WhitespaceCollapsed`, `WhitespaceFixed`, `DottedCodeRule` and `MarkupFree` |
| Cleaner.Strip | web_crawlar/script.py:37 | `strip()` returns a slice of its input with only whitespace cut off either side, and no whitespace at either end |
| Cleaner.TrimmedEnd | web_crawlar/script.py:37 | the end of `strip()`'s result: everything from it on is whitespace and the character before it is not |
| Cleaner.CleanHtml | web_crawlar/script.py:27-38 | the text has only word characters, `' '`, `,`, `.`, `!`, `?`; no newline; whitespace only as single spaces, none at either end |
| Cleaner.StripKeepsNormal | web_crawlar/script.py:37 | stripping a string with collapsed whitespace gives the normal form and keeps the output alphabet |
| Cleaner.UnwantedRemoved | web_crawlar/script.py:36 | after `[^\w\s,.!?]` → `''` only characters of `[\w\s,.!?]` remain |
| Cleaner.WhitespaceCollapsed | web_crawlar/script.py:37 | after `\s+` → `' '` the only whitespace is single `' '`; the first character is whitespace exactly when it was before; kept characters stay in the output alphabet |
| Cleaner.SubstituteKeeps | web_crawlar/script.py:29-37 | `re.sub` copies a prefix none of whose characters can begin a match |
| Cleaner.DottedCodeRule | web_crawlar/script.py:35 | step 7 deletes a `.` with the whole following word run if that run has a digit, and keeps both otherwise |
| Cleaner.DottedCodeDeleted | web_crawlar/script.py:35 | a `.` with a word run holding a digit is deleted together with the run |
| Cleaner.DottedCodeKept | web_crawlar/script.py:35 | a `.` with a digit-free word run is kept together with the run |
| Cleaner.DottedCodeMatch | web_crawlar/script.py:35 | `\.\w*\d+\w*` at a `.` matches exactly the word run after it, and only when that run has a digit |
| Cleaner.WhitespaceFixed | web_crawlar/script.py:37 | `\s+` → `' '` leaves unchanged a string whose whitespace is isolated single spaces |
| Cleaner.StripFixed | web_crawlar/script.py:37 | `strip()` returns a string in normal form unchanged |
| Cleaner.PlainChars | web_crawlar/script.py:35-36 | word characters, `,`, `!`, `?` and spaces contain no `<` and no `.` and are all kept by `[^\w\s,.!?]` |
| Cleaner.CleanHtmlFixedPoint | web_crawlar/script.py:29-37 | a normal-form string of word characters, `,`, `!`, `?` and spaces is returned unchanged |
| Cleaner.IdempotentWithoutDot | web_crawlar/script.py:27-38 | cleaning twice equals cleaning once whenever the cleaned text has no `.` |
| Cleaner.NotIdempotent | web_crawlar/script.py:35-36 | `.-5` cleans to `.5`, which cleans to the empty string |
| Cleaner.MarkupFree | web_crawlar/script.py:29-34 | the first six substitutions leave text without `<` unchanged |
| Cleaner.CleanMarkupFree | web_crawlar/script.py:29-37 | on text without `<` only steps 7 to 9 and the strip act |
| Cleaner.CleanDotDashFive | web_crawlar/script.py:29-37 | `clean_html(".-5") == ".5"` |
| Cleaner.DashKeptByStep7 | web_crawlar/script.py:35 | step 7 keeps `.-5`, whose `.` is followed by no word character |
| Cleaner.DashRemovedByStep8 | web_crawlar/script.py:36 | step 8 turns `.-5` into `.5` |
| Cleaner.DotFiveLast | web_crawlar/script.py:37 | step 9 and `strip()` leave `.5` unchanged |
| Cleaner.CleanDotFive | web_crawlar/script.py:29-37 | `clean_html(".5") == ""` |
| Links.HrefAt | web_crawlar/script.py:21 | a match of `href=["\'](https?://[^"\']+)` captures an absolute link without quotes and ends at a quote or at the end of the text |
| Links.FindHrefs | web_crawlar/script.py:21 | every link `re.findall` reports starts with `http://` or `https://` and has no quote |
| Links.JoinedSet | web_crawlar/script.py:22 | `{urljoin(base_url, link) for link in links}`; no contract of its own, its properties are in `ExtractLinks` and `CrawlState.SavedPageLinksQueued` |
| Links.HrefMatched | web_crawlar/script.py:21 | an absolute link quoted after `href=` is matched and captured exactly |
| Links.HrefListed | web_crawlar/script.py:21 | `re.findall` reports such a link and resumes at its closing quote |
| Links.ListOfSet | web_crawlar/script.py:22 | `list(s)` lists every element of `s` exactly once |
| Links.DistinctCardinality | web_crawlar/script.py:22-24 | a duplicate-free listing is as long as its set |
| Links.ExtractLinks | web_crawlar/script.py:19-25 | with `n` distinct joined links: `min(limit, n - n/2)` links, read from the listing at `n // 2` on, distinct, each the join of a captured absolute link |
| Links.MiddleOfThree | web_crawlar/script.py:24-25 | three links and limit 2 give the second and third of the listing |
| Links.ExtractPageLinks | web_crawlar/script.py:19-25 | at most `limit` distinct links, equal to the slice of some listing of the joined set |
| CrawlState.HasContent | web_crawlar/script.py:59 | `page_content` passes `if not page_content` exactly when it is a non-empty text; no contract of its own, used by `Successes` and `OutcomeOf` |
| CrawlState.Filename | web_crawlar/script.py:64 | `f"{identifier}.txt"`; no contract of its own, its property is `FilenameInjective` |
| CrawlState.SeedNodes | web_crawlar/script.py:48 | the initial queue `(url, f"url{idx+1}", 0)`; no contract of its own, its properties are `InitialOk` and `InitialLinked` |
| CrawlState.ChildNodes | web_crawlar/script.py:69-70 | the entries `(link, f"{identifier}{i}", depth + 1)` for `i` from 1; no contract of its own, its properties are `ChildrenNamed`, `ChildrenLighter`, `QueuedChildrenFrom` |
| CrawlState.OutcomeOf | web_crawlar/script.py:54-61 | skipped when visited or deeper than `max_depth`, no content when the page is missing or empty, saved otherwise; no contract of its own, its properties are the `Step` lemmas and `Crawler.Visit` |
| CrawlState.Successes | web_crawlar/script.py:58-64 | the entries saved are exactly the requested entries whose page had content |
| CrawlState.UrlsContain | web_crawlar/script.py:65 | every saved entry's URL is in `visited` |
| CrawlState.UrlsAsSet | web_crawlar/script.py:65 | `visited` holds the URLs of the saved entries and nothing else |
| CrawlState.QueueWeightAppend | web_crawlar/script.py:69-70 | the termination measure of a queue is additive over appends |
| CrawlState.ChildrenLighter | web_crawlar/script.py:67-70 | the at most two children queued for a node shallower than `max_depth` weigh less than their parent, so the loop terminates |
| CrawlState.InitialOk | web_crawlar/script.py:48-49 | the queue of seeds, empty `visited` and no writes satisfy the crawl invariant |
| CrawlState.NamesAdvance | web_crawlar/script.py:52-61 | taking an entry out without queueing keeps the naming invariant |
| CrawlState.ParentsLater | web_crawlar/script.py:52 | taking an entry out keeps every parent at an earlier queue position than the head |
| CrawlState.BreadthAdvance | web_crawlar/script.py:52-61 | taking an entry out without queueing keeps depths sorted and the queue within two levels |
| CrawlState.RequestsSkip | web_crawlar/script.py:54-55 | skipping a visited or too-deep entry keeps the request record valid |
| CrawlState.RequestsFetched | web_crawlar/script.py:58-61 | requesting a new URL, or one that gave no content, keeps the request record valid |
| CrawlState.DepthSortedAppend | web_crawlar/script.py:52-58 | a request no shallower than all earlier ones keeps requests ordered by depth |
| CrawlState.RepeatsAppend | web_crawlar/script.py:54-61 | re-requesting a URL whose earlier requests gave no content keeps the repeat rule |
| CrawlState.SavesEmpty | web_crawlar/script.py:59-61 | a request without content changes no save, no file, no pause and no `visited` |
| CrawlState.RequestsSave | web_crawlar/script.py:58-70 | requesting, saving and queueing children keeps the request record valid |
| CrawlState.UnvisitedUnsaved | web_crawlar/script.py:54-65 | a URL not in `visited` never gave content to an earlier request |
| CrawlState.RequestsGrow | web_crawlar/script.py:67-70 | queueing entries no shallower than any request keeps the request record valid |
| CrawlState.ChildOriginFacts | web_crawlar/script.py:69-70 | the child of rank 1 or 2 adds that rank to its parent's path |
| CrawlState.FreshOrigins | web_crawlar/script.py:69-70 | the children of the entry being processed have origins no earlier entry has |
| CrawlState.ParentsAppend | web_crawlar/script.py:69-70 | children queued for the head have the head as parent, and every earlier parent stays below the new head |
| CrawlState.SeedsFirstAppend | web_crawlar/script.py:48-70 | appending to the queue keeps the seeds at its front |
| CrawlState.ChildrenDeepAppend | web_crawlar/script.py:67-70 | appending entries between depth 1 and `max_depth` keeps every non-seed entry in that range |
| CrawlState.AllNamedAppend | web_crawlar/script.py:69-70 | appending entries each named by its origin keeps every entry named by its origin |
| CrawlState.NamesSave | web_crawlar/script.py:63-70 | saving an entry and queueing up to two children one level down keeps every name derived from a distinct origin |
| CrawlState.ChildrenNamed | web_crawlar/script.py:69-70 | queued children are named after their parent with their rank appended, one level down, within `max_depth`, with two different origins |
| CrawlState.ChildNamed | web_crawlar/script.py:70 | `f"{identifier}{i}"` at `depth + 1` is named by the child origin |
| CrawlState.BreadthSave | web_crawlar/script.py:67-70 | queueing children one level below the entry taken out keeps depths sorted and the queue within two levels |
| CrawlState.SavesSave | web_crawlar/script.py:63-72 | saving a new URL's cleaned text appends one write, updates its file, adds its URL to `visited` and one pause |
| CrawlState.LogAppend | web_crawlar/script.py:64 | the log keeps one write of the cleaned page per saved entry, in order |
| CrawlState.DistinctAppend | web_crawlar/script.py:65 | saving a URL not yet visited keeps the saved URLs distinct |
| CrawlState.SuccessesAppend | web_crawlar/script.py:59-64 | a new request adds to the saves exactly when its page has content |
| CrawlState.PersistAppend | web_crawlar/script.py:64 | one more write sets its file to its content |
| CrawlState.UrlsAppend | web_crawlar/script.py:65 | saving an entry adds exactly its URL to `visited` |
| CrawlState.StepNames | web_crawlar/script.py:51-72 | every outcome of an iteration keeps the naming invariant |
| CrawlState.StepBreadth | web_crawlar/script.py:51-72 | every outcome of an iteration keeps the breadth-first invariant |
| CrawlState.StepRequests | web_crawlar/script.py:51-72 | every outcome of an iteration keeps the request record valid |
| CrawlState.StepSaves | web_crawlar/script.py:51-72 | every outcome of an iteration keeps saves, files, `visited` and pauses in step |
| CrawlState.StepQueue | web_crawlar/script.py:52-70 | one iteration moves the head one entry on and appends exactly the entries for the queued links |
| CrawlState.StepOk | web_crawlar/script.py:51-72 | one iteration takes exactly one entry off the queue, appends its children, and keeps the whole crawl invariant |
| CrawlState.QueuedChildrenAppend | web_crawlar/script.py:69-70 | the children queued for one more saved entry are appended after those of the earlier ones |
| CrawlState.QueuedChildrenFrom | web_crawlar/script.py:67-70 | every entry queued for a saved entry is `(link, f"{identifier}{i}", depth + 1)` for its `i`-th link |
| CrawlState.QueuedChildrenHas | web_crawlar/script.py:69-70 | the entry for every link of every saved entry is queued |
| CrawlState.SavedPageLinksQueued | web_crawlar/script.py:67-70 | a saved page shallower than `max_depth` with at least one `href` link gets its first joined link queued as `f"{identifier}1"` one level down |
| CrawlState.InitialLinked | web_crawlar/script.py:48 | the initial queue is the seeds and nothing else |
| CrawlState.StepLinked | web_crawlar/script.py:51-72 | every outcome of an iteration keeps the queue equal to the seeds followed by the links queued for each saved page |
| CrawlState.LinkedSave | web_crawlar/script.py:63-70 | saving an entry and queueing the links `extract_links` gave for its page (none at `max_depth`) keeps that record |
| CrawlState.FollowedAppend | web_crawlar/script.py:67-70 | the links recorded for each saved entry stay those its page gave when one more entry is saved |
| CrawlState.Served | web_crawlar/script.py:51-61 | the requests made taking the queue out first in, first out; no contract of its own, its properties are `ServedAppend`, `ServedUrls` and `ServedFirst` |
| CrawlState.SavableUrls | web_crawlar/script.py:54-65 | the URLs of entries within `max_depth` whose page has content; no contract of its own, `SavableAppend` and `ServedUrls` state what it holds |
| CrawlState.ServedAppend | web_crawlar/script.py:52-61 | serving one more entry requests it unless it is deeper than `max_depth` or an earlier entry with its URL is within `max_depth` and has content (by `ServedUrls`, its URL was already saved) |
| CrawlState.SavableAppend | web_crawlar/script.py:54-65 | one more entry adds its URL to the savable ones exactly when it is within `max_depth` and its page has content |
| CrawlState.ServedUrls | web_crawlar/script.py:54-65 | the URLs saved while serving the queue (what `visited` holds) are exactly the URLs of entries within `max_depth` whose page has content |
| CrawlState.ServedFirst | web_crawlar/script.py:52-65 | the first entry within `max_depth` with a URL whose page has content is saved, and no other entry with that URL is |
| CrawlState.ServedFirstLast | web_crawlar/script.py:52-65 | the case of `ServedFirst` where that entry is the last one served |
| CrawlState.ServedFirstKept | web_crawlar/script.py:54-55 | serving one more entry keeps the entry saved for a URL, and saves no second entry with that URL |
| CrawlState.RepeatedSeedServedOnce | web_crawlar/script.py:48-65 | with seeds `["a", "a"]` and content for `a`, only the first entry, `url1`, is requested; the second is skipped |
| CrawlState.InitialServed | web_crawlar/script.py:48-49 | before the loop nothing has been requested |
| CrawlState.StepServed | web_crawlar/script.py:51-61 | every outcome of an iteration keeps the requests equal to `Served` of the entries taken out so far |
| CrawlState.ServedNext | web_crawlar/script.py:52-61 | moving the head on by one and requesting it when `Served` does keeps `ServedOk` |
| CrawlState.StepShape | web_crawlar/script.py:52-61 | an iteration takes out exactly the head, and requests it unless it is skipped |
| CrawlState.ServedHead | web_crawlar/script.py:52-61 | the head entry is requested after the earlier ones exactly when its URL is not visited and it is within `max_depth` |
| CrawlState.QueueAdvance | web_crawlar/script.py:52-70 | popping the head and appending children leaves the queue as the suffix of all entries after the head |
| CrawlState.NamesFinal | web_crawlar/script.py:48-70 | every queued name is a seed name followed by `depth` ranks; with at most ten seeds no two names are equal |
| CrawlState.NamedWell | web_crawlar/script.py:48-70 | a name derived from an origin is a seed name followed by exactly `depth` ranks `1`/`2` |
| CrawlState.FilenameInjective | web_crawlar/script.py:64 | `f"{identifier}.txt"` determines the identifier |
| CrawlState.FilesFinal | web_crawlar/script.py:64 | with distinct names, one file per saved page holds that page's text |
| CrawlState.SavedQueued | web_crawlar/script.py:52-64 | every saved entry was requested and so was once in the queue |
| CrawlState.SavedFilenamesDistinct | web_crawlar/script.py:64-65 | when all queued identifiers are different (at most ten seeds), saved entries with distinct URLs write distinct file names; from eleven seeds on two of them can both write `url11.txt` (`EleventhSeedCollides`) |
| CrawlState.QueuedDone | web_crawlar/script.py:48-70 | the final queue record meets the queued-entries contract |
| CrawlState.FetchedDone | web_crawlar/script.py:51-61 | the final request record meets the requests contract, including that the requests are `Served` of the whole queue |
| CrawlState.SavedDone | web_crawlar/script.py:58-72 | the final saves meet the saves contract |
| CrawlState.CrawlDone | web_crawlar/script.py:51-72 | once the queue is empty the invariant gives the whole contract of `web_crawler` |
| Crawler.Visit | web_crawlar/script.py:51-72 | skip a visited or too-deep entry, drop one without content, else save its text, add its URL, queue exactly the links `extract_links(page_content, url, 2)` gives for some listing of the joined set, one level down (none at `max_depth`), and pause once; `visited` only grows |
| Crawler.Crawl | web_crawlar/script.py:46-72 | terminates; the whole contract of `web_crawler` (`Crawled`), including that the queue after the seeds is the links extracted from each saved page and that the requests are those of serving the queue first in, first out, for any text function |
| Crawler.WebCrawler | web_crawlar/script.py:46-72 | seeds first as `url1…`; after them, saved page by saved page, the entries for the links `extract_links` gave for that page (none at `max_depth`); children at most `max_depth`; names seed plus ranks, unique up to ten seeds; depths queued and requested in non-decreasing order; only entries within `max_depth` requested; a URL re-requested only after no content; every entry within `max_depth` requested or its URL among the visited ones; the requests exactly those of taking the queue out first in, first out (`Served`), so the entry saved for a URL is its first one within `max_depth`; one save of `clean_html(page)` per request with content, each URL saved once; `visited` = saved URLs; no file overwritten up to ten seeds; one pause per save |

## Left out

- `get_page_content` (web_crawlar/script.py:8-17) does HTTP I/O. It is the oracle `fetch`, which is a fixed function of the URL, so a URL requested twice gets the same answer both times. Headers, timeouts and exceptions are not modelled; they only decide between a text and `None`.
- `save_text`'s file-system calls (web_crawlar/script.py:42-44) are not modelled: `os.makedirs`, the `data` path and the encoding. The model keeps only the sequence of writes and the file-name-to-content map. I/O errors are not modelled.
- The `print` calls (web_crawlar/script.py:57, 60) have no logical content.
- `time.sleep(5)` is only counted.
- The internals of `urljoin` belong to a foreign library. `join` is an arbitrary function.
- The iteration order of a Python `set` is not fixed. `ExtractLinks` takes any duplicate-free listing of the set, and `ExtractPageLinks` chooses one arbitrarily.
- `\w`, `\d` and `\s` are modelled on ASCII. Unicode letters, digits and spaces outside ASCII are not.
- `ExtractLinks`: `limit` is a natural number. A negative slice bound is not modelled; the crawler always passes 2.
- The concrete input `<script>x</script><p>Hello</p><br><a href="https://b.example/x">B</a>`, which cleans to `Hello B`, is not proved. Evaluating the nine substitutions on that literal is beyond the verifier's budget. The general properties it illustrates are proved (`CleanHtml`, `WhitespaceCollapsed`, `MarkupFree`), as are the concrete cases of `NotIdempotent`.
- The `__main__` block with its seed list (web_crawlar/script.py:74-90) is not modelled.
- `amazon.py` is not part of this model. It drives a browser through a foreign library.

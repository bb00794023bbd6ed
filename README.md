# Crawler page-processing core, modelled in Dafny

This project models the sequential logic of a small web-crawler worker, in three parts.

- **URL acceptance and page bookkeeping** (`scraper.py`). `is_valid` accepts only `http` and `https` URLs whose lower-cased path does not end in `.` plus a listed non-HTML extension. `get_links` turns a page's anchors into defragmented absolute URLs, keeps the valid ones in document order and adds them to the crawl-wide `unique_urls` set. `check_page_length` keeps the running longest-page record. `extract_next_links` skips any response whose status is not 200. `scraper` filters the extracted links once more through `is_valid`.
- **Tokenizer and word frequencies** (`tokenizer.py`). `tokenize` makes one left-to-right scan that builds lower-cased runs of ASCII letters and digits. `compute_word_frequencies` counts tokens into a dictionary. `print_tokens` sorts the dictionary's entries by count, largest first.
- **Visit counter and dynamic blacklist** (`scrapper_helper.py`). `store_url` updates a URL-to-count dictionary and a blacklist set, with the threshold `MAX_VISIT = 4`.

Files:
- `text.dfy` (module `Text`): the ASCII character tests and lower-casing shared by the other modules.
- `scraper.dfy` (module `Scraper`): the `Url` record, with the six components `urlparse` returns, and `IsValid`. It also holds the link and page-length specifications and the class `CrawlState`, whose fields `uniqueUrls` and `longestPage` are the module globals `unique_urls` and `longest_page`.
- `tokenizer.dfy` (module `Tokenizer`): `Tokenize`, `ComputeWordFrequencies` and `RankTokens` as methods with loops, proved against the specification functions `TokensOf`, `Frequencies` and `ByCountDescending`.
- `scrapper_helper.dfy` (module `ScrapperHelper`): the pure transition `Store` and the class `VisitRegistry`, whose method `StoreUrl` updates the caller's dictionary and blacklist in place.

Inputs that come from outside the core are parameters. A fetched page is a `Response` holding a final URL, a status and a `Page`. The `Page` holds the whitespace-split page text and the anchors of its `<a href>` tags. Each anchor is already resolved against the page URL and parsed into a `Url` record.

Facts about the code that a reader might not expect:
- A URL's visit count stops growing at `MAX_VISIT + 1 = 5`. The URL is blacklisted only by a call made when its count is already above `MAX_VISIT`; for a URL stored repeatedly from scratch that is the 6th call (`RepeatedStore`).
- `is_valid` does not consult any blacklist, and `scraper.py` never calls `store_url`.
- `get_links` returns a list, which may hold duplicates, not a set.
- The code has no content checksum, stop-word filtering, page-size cap or static host and path blacklists.

## Model

| member | source | states |
|---|---|---|
| `Text.LowerChar` | tokenizer.py:16-17 | `A`..`Z` map to `a`..`z` (code point plus 32) and every other character is left alone; so an ASCII letter or digit becomes a lower-case letter or digit, alphanumeric-ness is kept both ways, and lower-case letters and digits are unchanged |
| `Text.IsAsciiAlnum` | tokenizer.py:16 | `char.isalnum() and char.isascii()` holds exactly for the code points 48..57, 65..90 and 97..122, all below 128 |
| `Text.Lower` | scraper.py:81 | the model's ASCII-only lowering of `path.lower()` keeps the length, leaves no upper-case ASCII letter, keeps which positions are ASCII letters or digits, and leaves every character that is not an upper-case ASCII letter as it is |
| `Scraper.HasBlockedExtension` | scraper.py:73-81 | the pattern (some `.` of the lower-cased path followed, up to the end, by a listed extension) matches exactly when the lower-cased path ends in `.` plus a listed extension |
| `Scraper.DotMatchIffSuffix` | scraper.py:73-81 | on any lower-cased path, a `.` followed up to the end by a listed extension exists exactly when the path ends in `.` plus a listed extension, in both directions |
| `Scraper.IsValid` | scraper.py:65-81 | a URL is accepted exactly when its scheme is `http` or `https` and its lower-cased path does not end in `.` plus a listed extension |
| `Scraper.IsBlockedExtension` | scraper.py:74-81 | the alternation of the pattern, with `jpe?g` and `tiff?` expanded: both spellings of each, `jpg`, `jpeg`, `tif` and `tiff`, are listed |
| `Scraper.RejectsOtherSchemes` | scraper.py:70-72 | any scheme other than exactly "http" or "https" makes the URL invalid |
| `Scraper.RejectsBlockedExtension` | scraper.py:73-81 | a path whose lower-cased form ends in `.` plus a listed extension makes the URL invalid |
| `Scraper.IgnoresPathCase` | scraper.py:81 | validity is the same for a path and its lower-cased form |
| `Scraper.AcceptsExamples` | scraper.py:71-81 | `http://x.edu/a.html` and `https://x.edu/pdf` (no dot) are valid |
| `Scraper.RejectsJpegAndTiffSpellings` | scraper.py:74-75 | paths ending in `.JPG`, `.jpeg`, `.tif` or `.TIFF` are invalid, whatever precedes them: both spellings of each, in either letter case |
| `Scraper.RejectsSuffix` | scraper.py:73-81 | a path ending in any suffix that lower-cases to `.` plus a listed extension is invalid, whatever precedes it |
| `Scraper.Defragment` | scraper.py:49-50 | the result has an empty fragment and every other component unchanged |
| `Scraper.DefragmentKeepsValidity` | scraper.py:50-52 | dropping the fragment never changes validity |
| `Scraper.FilterValid` | scraper.py:10 | the comprehension's result is no longer than its input and holds only input links that are valid |
| `Scraper.ValidLinks` | scraper.py:43-56 | `get_links` returns no more links than there are anchors, each with an empty fragment and valid |
| `Scraper.FilterValidMembers` | scraper.py:10 | the `scraper` comprehension keeps exactly the valid links |
| `Scraper.FilterValidAppend` | scraper.py:10 | the comprehension preserves order: filtering a concatenation concatenates the filtered parts |
| `Scraper.FilterValidKeepsValid` | scraper.py:10 | a list of valid links passes the comprehension unchanged |
| `Scraper.ValidLinksIsFilter` | scraper.py:43-54 | the links of `get_links` are the validity filter applied to the defragmented anchors |
| `Scraper.ValidLinksMembers` | scraper.py:43-56 | every returned link has an empty fragment and is valid; a link is returned exactly when it is the defragmented form of some anchor and is valid |
| `Scraper.ValidLinksAppend` | scraper.py:43-56 | links come out in the order of their anchors: the links of a concatenation of anchors are the concatenation of the links |
| `Scraper.FilterAfterValidLinks` | scraper.py:8-10 | the final filter of `scraper` removes nothing that `get_links` returned |
| `Scraper.RecordPage` | scraper.py:58-63 | the new record length is the larger of the old length and the page length; the record changes only when the page is strictly longer, and then becomes that page |
| `Scraper.LongestOf` | scraper.py:58-63 | after a sequence of pages, starting from the initial record, the record's length is at least every page's length, and it is -1 exactly when no page has been seen |
| `Scraper.LongestOfIsFirstMaximum` | scraper.py:58-63 | after any non-empty run of pages the record is the first page that has the largest length, so ties keep the earlier URL |
| `Scraper.CrawlState.constructor` | scraper.py:5-6 | `unique_urls` starts empty and `longest_page` starts at URL "" and length -1 |
| `Scraper.CrawlState.CheckPageLength` | scraper.py:58-63 | the new `longest_page` is `RecordPage` of the old one with the page's URL and word count |
| `Scraper.CrawlState.GetLinks` | scraper.py:38-56 | returns the valid defragmented anchors in order, and `unique_urls` becomes the old set plus exactly those links, so every returned link is in it |
| `Scraper.CrawlState.ExtractNextLinks` | scraper.py:12-36 | a non-200 status returns no links and leaves both globals unchanged; status 200 records the page length in `longest_page`, returns `get_links`' result, and adds exactly those links to `unique_urls` |
| `Scraper.CrawlState.Scrape` | scraper.py:8-10 | returns the extracted links that pass `is_valid`, which are all of them, with the globals updated as by `extract_next_links`: on status 200 the page length is recorded and every returned link is in `unique_urls` |
| `Scraper.ScrapeFirstPage` | scraper.py:5-10 | the first `scraper` call of a crawl: a status-200 page becomes the longest page and its links are exactly the unique URLs; any other status leaves both globals at their initial values |
| `Tokenizer.Tokenize` | tokenizer.py:10-26 | the scan yields `TokensOf(text)`: every token is a non-empty lower-case ASCII alphanumeric run, the tokens concatenated spell the text's lower-cased ASCII letters and digits in order, and there are at most as many tokens as characters |
| `Tokenizer.Step` | tokenizer.py:16-20 | one character: tokens already emitted stay, at most one is appended, `cache` is emptied or grows by the lower-cased character, and emitted words and a lower-case `cache` stay so |
| `Tokenizer.StepSpells` | tokenizer.py:16-20 | one character adds its lower-cased form to the text spelled by `tokens` and `cache` exactly when it is an ASCII letter or digit, and adds nothing otherwise |
| `Tokenizer.Scan` | tokenizer.py:11-20 | after any prefix, every emitted token is a non-empty lower-case ASCII alphanumeric run and `cache` holds only lower-case letters and digits |
| `Tokenizer.ScanSpells` | tokenizer.py:11-20 | after any prefix, the emitted tokens followed by `cache` spell the prefix's lower-cased ASCII letters and digits in order |
| `Tokenizer.Flush` | tokenizer.py:22-24 | the final step keeps the emitted tokens, appends at most one, loses no character of `cache`, and emits only words from a well-formed state |
| `Tokenizer.TokensOf` | tokenizer.py:10-26 | every token is a non-empty lower-case ASCII alphanumeric run, and the tokens concatenated spell the text's lower-cased ASCII letters and digits in order |
| `Tokenizer.TokenCountBound` | tokenizer.py:10-26 | there are never more tokens than characters in the text |
| `Tokenizer.NoTokensIffNoAlnum` | tokenizer.py:14-26 | a text yields no tokens exactly when it contains no ASCII letter or digit |
| `Tokenizer.ScanAppendRun` | tokenizer.py:16-17 | reading a run of lower-case letters and digits only extends the pending token |
| `Tokenizer.ScanSpace` | tokenizer.py:18-20 | a space emits the pending token, if any, and leaves nothing pending |
| `Tokenizer.ScanJoinStep` | tokenizer.py:14-20 | after one more space and word, the word that was pending has been emitted and the new word is pending |
| `Tokenizer.ScanJoin` | tokenizer.py:14-20 | after the space-joined words, all but the last word have been emitted and the last is pending |
| `Tokenizer.TokenizeJoinRoundTrip` | tokenizer.py:14-26 | tokenizing a list of tokens joined with single spaces returns that list |
| `Tokenizer.Frequencies` | tokenizer.py:35-42 | the table has one key per distinct token, and every count is at least 1 and at most the number of tokens |
| `Tokenizer.ComputeWordFrequencies` | tokenizer.py:35-42 | the key set is exactly the set of tokens and each count is that token's number of occurrences |
| `Tokenizer.TotalRemove` | tokenizer.py:35-42 | the sum of a frequency table's counts does not depend on the order in which keys are taken |
| `Tokenizer.FrequenciesSnoc` | tokenizer.py:37-41 | one more token raises its count by one, or adds it with count 1, and changes no other entry |
| `Tokenizer.TotalUpdate` | tokenizer.py:38-41 | raising one count by one, or adding a key with count 1, raises the sum of counts by exactly one |
| `Tokenizer.FrequenciesTotal` | tokenizer.py:35-42 | the counts of the frequency table add up to the number of tokens |
| `Tokenizer.InsertByCount` | tokenizer.py:55 | inserting an entry into a list sorted by descending count keeps it sorted and adds exactly that entry |
| `Tokenizer.RankTokens` | tokenizer.py:52-55 | the ranked list is a permutation of the frequency table's entries with non-increasing counts |
| `ScrapperHelper.Store` | scrapper_helper.py:4-11 | the blacklist only grows, and by at most the URL; the URL becomes a key; no other key's count changes |
| `ScrapperHelper.StoreNewUrl` | scrapper_helper.py:5-6 | an absent URL gets count 1 and the blacklist is unchanged |
| `ScrapperHelper.StoreBelowLimit` | scrapper_helper.py:10-11 | a present URL with count at most `MAX_VISIT` gains exactly 1 and the blacklist is unchanged |
| `ScrapperHelper.StoreOverLimit` | scrapper_helper.py:8-9 | a present URL with count above `MAX_VISIT` is blacklisted and no count changes |
| `ScrapperHelper.StorePreservesBound` | scrapper_helper.py:5-11 | if no count exceeded `MAX_VISIT + 1` before a call, none does after it |
| `ScrapperHelper.StoreTimes` | scrapper_helper.py:4-11 | after k calls with one URL the blacklist has grown by at most that URL, and the keys grow by exactly the URL once there has been a call (none for k = 0) |
| `ScrapperHelper.RepeatedStore` | scrapper_helper.py:2-11 | from an empty dictionary and blacklist, after k calls with one URL its count is `min(k, MAX_VISIT + 1)` and it is blacklisted exactly when k is at least `MAX_VISIT + 2` |
| `ScrapperHelper.StoreAll` | scrapper_helper.py:4-11 | after calls with any sequence of URLs, the keys are the old keys plus exactly the URLs called, and only URLs that were called can have joined the blacklist |
| `ScrapperHelper.BlacklistPermanent` | scrapper_helper.py:8-9 | a blacklisted URL stays blacklisted through any later sequence of calls, whatever URLs they use |
| `ScrapperHelper.StoreAllPreservesBound` | scrapper_helper.py:5-11 | if no count exceeded `MAX_VISIT + 1` before a sequence of calls with any URLs, none does after it |
| `ScrapperHelper.VisitRegistry.StoreUrl` | scrapper_helper.py:4-11 | the caller's dictionary and blacklist after the call are `Store` of their values before it |

## Left out

- HTML parsing with BeautifulSoup (scraper.py:27, 29, 41) is not modelled. Each page arrives as its whitespace-split text and its list of anchors.
- Reference resolution with `urljoin` and the internals of `urlparse` and `urlunparse` (scraper.py:46, 49-50, 70) are not modelled. Anchors arrive as parsed records, and `urlparse` of `urlunparse`'s output is taken to give back the same scheme and path. `urlparse` lower-cases the scheme, so the records hold it already lower-cased.
- `Scraper.CrawlState.GetLinks`: `unique_urls` holds parsed records rather than strings, so two records that unparse to the same string count as two entries.
- `Text.LowerChar`: lower-cases ASCII letters only; Python's `str.lower` also lower-cases non-ASCII letters (`É` to `é`) and maps some non-ASCII characters, such as the Kelvin sign, to ASCII letters.
- `Text.Lower`: the same ASCII-only lowering on strings, and it always keeps the length, while Python's `str.lower` can lengthen a string (`İ` becomes two code points). Through `is_valid` this matters: the source refuses a path such as `/x.m` + Kelvin sign + `v` (it lower-cases to `.mkv`), and the model accepts it.
- `Scraper.RejectsBlockedExtension`: the pattern is modelled as a plain suffix test. In Python the `.*` of the pattern does not cross a newline, and `$` also matches before a final newline, so paths that contain newlines can behave differently.
- The `TypeError` re-raise path (scraper.py:83-85) is an exception path and is not modelled.
- A status-200 response without a body would raise in `extract_next_links`; the model always carries a page.
- All `print` output, `main` and the command line (scraper.py:24, 34-35; tokenizer.py:56-72) are not modelled.
- `Tokenizer.RankTokens`: does not state the relative order of entries with equal counts. Python's sort is stable and the dictionary iterates in insertion order, but the model's map has no order.
- Python strings can hold lone surrogate code points, which a Dafny `char` cannot.
- utils/politness_delay.py is not part of this model: its purpose is timing and locking (`time.time`, `time.sleep`, `threading.Lock`). It sleeps while holding its lock (utils/politness_delay.py:13-19), so requests to different domains are serialised behind a sleeping one.
- Concurrency is not modelled: `unique_urls` and `longest_page` are unprotected module globals, and the model is sequential.

# product_review_collector — review collection pipeline in Dafny

This project models the review-collection pipeline of `product_review_collector`.
It has two parts.

**The collection use case.** `CollectReviewsUseCase.collect` does the following:

- It validates the product URL and asks the crawler port about the stripped URL.
- It accepts a mapping or a list from the crawler and rejects any other shape.
- It reads each entry's id, content, grade, writer and date. Dates are parsed by the nested `_parse_date`.
- It drops entries without an integer key or without content, fails when nothing is left, and sorts the rest stably by id.

**The Naver crawler adapter.** `NaverCrawlerAdapter` does the following:

- It builds the driver: headless first, and headed once as a fallback.
- It opens the page, reveals all reviews and reads the review-count badge.
- It computes the page plan: `min(count, 100)` reviews and `min(count // 20 + 1, 5)` pages.
- It clicks the pagination controls `nth-child(3) .. nth-child(pages + 1)` and captures one snapshot per page.
- It translates the two selenium errors it catches into HTTP 500 errors, and quits the driver on every path once a driver exists.
- It turns the snapshots into the `{1: record, 2: record, ...}` dictionary. Each record holds the normalized content, a rating that defaults to 0.0, a `%y.%m.%d` date or `None`, and a stripped writer or `None`.

The environment is modelled as parameters:

- The browser is a `Browser` value. It answers each call with an optional exception and each capture with a page source, both as a function of everything done before.
- The HTML queries are a `Parser` value: the review items of a page, and the badge text.
- `float(str)` and `str()` of floats, containers and other objects come from a `Runtime` value.
- The crawler, as the use case sees it, is a function from URL to result.

The modules follow the program's layers:

- `PyText`, `Dates` and `RawValues` are the Python built-ins the code relies on: `strip`, `rstrip('.')`, `replace`, `int()`, `str()`, `strptime` for the three layouts used, `Mapping.get` and truthiness.
- `ProductReviews` is the domain record and Python's stable `list.sort` keyed on the id.
- `CrawlerPort` holds the port and its errors.
- `CollectReviews` is the use case.
- `ReviewExtraction` covers the field extractors, content normalization and the result dictionary.
- `PagePlan` covers the page arithmetic and the planned browser calls.
- `Pagination` covers the driver-building, session and quit control flow.
- `Pipeline` states what the use case makes of the crawler's own result.

Four behaviours of the code are worth stating plainly:

- **Timeouts.** An unmet wait does not become "element not found": `WebDriverWait.until` raises `TimeoutException`, which no `except` clause catches. It therefore propagates unchanged after `quit()` and is modelled as `Raised(Timeout)`.
- **Duplicate ids.** `collect` never deduplicates ids: two keys that `int()` reads as the same number both produce that id (`CollectReviews.DuplicateIdsArePossible`).
- **The headed fallback.** It happens only when the headless build raised a `WebDriverException`, not on any build failure. A failure of the headed build itself propagates, and no driver exists to quit.
- **An unreadable review count.** When the badge is missing or is not an integer, the code raises `AttributeError` or `ValueError`. Neither is translated; both propagate after `quit()`. They are modelled as one error, `ReviewCountUnreadable`.

## Model

| member | source | states |
|---|---|---|
| CollectReviews.Collect | product_review_collector/application/usecase/collect_reviews_usecase.py:14-18 | A URL that is empty or all whitespace fails with "product_url is required", and only such a URL does. A crawler failure on the stripped URL is propagated. A crawler success is passed on as the normalization of the crawler's raw result for the stripped URL. A success is non-empty, sorted by id, and every review is accepted with `source_url` equal to the stripped URL. |
| CollectReviews.CollectDependsOnStrippedUrlOnly | product_review_collector/application/usecase/collect_reviews_usecase.py:15-18 | The crawler is consulted only about `product_url.strip()`: two crawlers that agree on that URL give the same outcome. |
| CollectReviews.Normalize | product_review_collector/application/usecase/collect_reviews_usecase.py:20-85 | "Unexpected crawler result type" exactly when the result is neither a mapping nor a list. "No reviews collected" exactly when no entry yields a review. A success is sorted by id, has at most one review per entry, and every review has non-empty stripped content, a non-empty stripped writer if any, no product domain or name, and the URL it is given as `source_url`. |
| CollectReviews.NormalizePermutes | product_review_collector/application/usecase/collect_reviews_usecase.py:84 | The reviews returned are exactly the reviews gathered, as a multiset. |
| CollectReviews.NormalizeStable | product_review_collector/application/usecase/collect_reviews_usecase.py:84 | For every id, the reviews carrying it come back in gathering order: the sort is stable. |
| CollectReviews.NormalizeKeepsSortedGather | product_review_collector/application/usecase/collect_reviews_usecase.py:80-85 | When the gathered reviews are non-empty and already in id order, they are returned unchanged. |
| CollectReviews.ListResultKeepsOrder | product_review_collector/application/usecase/collect_reviews_usecase.py:22-24 | A list result is keyed by position from 1. Its reviews come back in list order, with strictly increasing ids between 1 and the list length. |
| CollectReviews.ParseDateValue | product_review_collector/application/usecase/collect_reviews_usecase.py:28-38 | A `datetime` passes through. A string is stripped, loses its trailing dots, and is read by the first layout that accepts it. Anything else is no date. |
| CollectReviews.DuplicateFormatIsRedundant | product_review_collector/application/usecase/collect_reviews_usecase.py:33 | Trying `%y.%m.%d` a second time never changes the parsed date. |
| CollectReviews.ReadsRenderedDate | product_review_collector/application/usecase/collect_reviews_usecase.py:28-38 | A date written in any of the three layouts, with surrounding whitespace and trailing dots, is read back as that date. For the two-digit layouts this holds inside the 1969–2068 window. |
| CollectReviews.RenderedLayoutFirst | product_review_collector/application/usecase/collect_reviews_usecase.py:33-37 | No layout listed before a date's own layout accepts it, so the first match gives the date back. |
| CollectReviews.GradeOf | product_review_collector/application/usecase/collect_reviews_usecase.py:56-60 | `None` and `""` give no grade. An int or float gives its value, and a bool gives 1.0 or 0.0. A non-empty string gives whatever `float()` makes of it. Datetimes, dictionaries, lists and other objects give no grade. |
| CollectReviews.ReadFields | product_review_collector/application/usecase/collect_reviews_usecase.py:53-64 | A mapping gives: the stripped `str(content or "")`; the grade of `rating` when that key exists, else of `grade`; the parsed `created_at`; and the stripped writer, or `None` exactly when the stripped writer is empty. Any other value gives only its stripped `str(value or "")` as content. |
| CollectReviews.RatingKeyShadowsGrade | product_review_collector/application/usecase/collect_reviews_usecase.py:55 | A `rating` key holding `None` gives no grade even when `grade` holds a number. |
| CollectReviews.PaddedContentFields | product_review_collector/application/usecase/collect_reviews_usecase.py:54-58 | Content padded with whitespace reads as the content itself, and a string rating reads as its `float()`. |
| CollectReviews.ToReview | product_review_collector/application/usecase/collect_reviews_usecase.py:41-78 | An entry yields a review exactly when `int()` accepts its key and its stripped content is non-empty. The review carries that int as its id and is accepted for the URL. |
| CollectReviews.BlankContentIsDropped | product_review_collector/application/usecase/collect_reviews_usecase.py:66-67 | Blank content drops the entry, whatever its other fields hold. |
| CollectReviews.Enumerate | product_review_collector/application/usecase/collect_reviews_usecase.py:24 | Element `i` of a list is paired with the key `start + i`. |
| CollectReviews.Items | product_review_collector/application/usecase/collect_reviews_usecase.py:20-26 | Only a mapping or a list is iterated. A mapping gives its own items, and a list gives element `i` under key `i + 1`. |
| CollectReviews.Gather | product_review_collector/application/usecase/collect_reviews_usecase.py:40-78 | Each entry contributes at most one review, and every gathered review is accepted for the URL. |
| CollectReviews.SkippedEntryChangesNothing | product_review_collector/application/usecase/collect_reviews_usecase.py:42-46 | An entry with a key `int()` rejects, or with blank content, can be removed without changing what the other entries yield. |
| CollectReviews.GatherIncreasingKeys | product_review_collector/application/usecase/collect_reviews_usecase.py:41-78 | Over strictly increasing int keys, the gathered ids increase strictly and lie between the first key and the last. |
| CollectReviews.StringEntry | product_review_collector/application/usecase/collect_reviews_usecase.py:63-64 | A scalar string value becomes a review with that content and no grade, writer or date. |
| CollectReviews.EntryKept | product_review_collector/application/usecase/collect_reviews_usecase.py:69-78 | An entry with an int key and non-empty content becomes exactly the review built from its fields. |
| CollectReviews.LeadingZeroKeys | product_review_collector/application/usecase/collect_reviews_usecase.py:43 | The distinct keys `str(n)` and `"0" + str(n)` both read as `n`. |
| CollectReviews.DuplicateIdsArePossible | product_review_collector/application/usecase/collect_reviews_usecase.py:41-84 | Two distinct keys read as the same id both yield reviews with that id, in mapping order. |
| CollectReviews.MappingExample | product_review_collector/application/usecase/collect_reviews_usecase.py:41-85 | A two-entry mapping, one scalar and one record, yields review 1 with the scalar content and no grade, then review 2 with the stripped content and the `float()` of its rating. |
| ProductReviews.SortById | product_review_collector/application/usecase/collect_reviews_usecase.py:84 | The result is sorted by id and has the input's length. |
| ProductReviews.SortByIdPermutes | product_review_collector/application/usecase/collect_reviews_usecase.py:84 | Sorting is a permutation of its input. |
| ProductReviews.SortByIdStable | product_review_collector/application/usecase/collect_reviews_usecase.py:84 | Sorting keeps the input order among reviews that share an id. |
| ProductReviews.SortSortedIsIdentity | product_review_collector/application/usecase/collect_reviews_usecase.py:84 | Sorting a list already in id order changes nothing. |
| Dates.ExpandShortYear | product_review_collector/application/usecase/collect_reviews_usecase.py:33 | `%y` maps 00–99 into 1969–2068 while keeping the last two digits. |
| Dates.Strptime | product_review_collector/application/usecase/collect_reviews_usecase.py:35 | A successful parse consumed a string that starts and ends with a digit. A two-digit-year layout yields a year in 1969–2068. |
| Dates.StrptimeLayout | product_review_collector/application/usecase/collect_reviews_usecase.py:35 | A year field, a `%m` token and a `%d` token joined by the layout's separator parse to that date exactly when it is a valid calendar date. |
| Dates.FormatParseRoundTrip | product_review_collector/application/usecase/collect_reviews_usecase.py:35 | Parsing a date rendered in a layout gives the date back. For two-digit years this holds inside the pivot window. |
| Dates.TryFormatsFirstMatch | product_review_collector/application/usecase/collect_reviews_usecase.py:33-37 | Trying layouts in order yields `d` exactly when some layout parses to `d` and every earlier layout failed. |
| Dates.TryFormats | product_review_collector/application/usecase/collect_reviews_usecase.py:33-37 | No date comes back exactly when no layout parses the text. Otherwise the result is the parse by one of the layouts. |
| Dates.FirstSomeNone | product_review_collector/application/usecase/collect_reviews_usecase.py:33-38 | The loop falls through to `return None` exactly when every layout raised `ValueError`. |
| Dates.TryFormatsRedundantTail | product_review_collector/application/usecase/collect_reviews_usecase.py:33 | Appending a layout that is already listed, or one that cannot parse the text, never changes the result. |
| Dates.ShortDateExample | product_review_collector/adapter/output/naver_crawler_adapter.py:140 | "24.01.05" read as `%y.%m.%d` is 5 January 2024. |
| Dates.FullDateExample | product_review_collector/application/usecase/collect_reviews_usecase.py:33-35 | "2024-01-05" read as `%Y-%m-%d` is 5 January 2024. |
| PyText.Strip | product_review_collector/application/usecase/collect_reviews_usecase.py:15 | The result has no whitespace at either end and is no longer than the input. |
| PyText.StripEmptyIffBlank | product_review_collector/application/usecase/collect_reviews_usecase.py:15 | `s.strip()` is empty exactly when `s` is all whitespace. |
| PyText.StripPadded | product_review_collector/application/usecase/collect_reviews_usecase.py:54 | Whitespace around a stripped string is removed and nothing else is. |
| PyText.StripIdempotent | product_review_collector/application/usecase/collect_reviews_usecase.py:54 | Stripping twice is stripping once. |
| PyText.RStripDots | product_review_collector/application/usecase/collect_reviews_usecase.py:32 | The input is the result followed by dots only, and the result does not end in a dot. |
| PyText.RemoveChar | product_review_collector/adapter/output/naver_crawler_adapter.py:66 | The result has no occurrence of the character. Its multiset is the input's with that character's count set to zero. |
| PyText.RemoveCharAppend | product_review_collector/adapter/output/naver_crawler_adapter.py:66 | Removing a character works on each part of a concatenation separately, so the other characters keep their order. |
| PyText.ParseIntLiteral | product_review_collector/application/usecase/collect_reviews_usecase.py:43 | `int()` accepts no blank string, and no string holding an information separator U+001C..U+001F, which `strip()` removes but `int()` does not skip. |
| PyText.SeparatorIsNotIntSpace | product_review_collector/application/usecase/collect_reviews_usecase.py:43 | `int("\x1c5")` raises although `"\x1c5".strip()` is `"5"`, while `int()` skips the non-ASCII whitespace U+0085. |
| PyText.IntLiteralRoundTrip | product_review_collector/application/usecase/collect_reviews_usecase.py:43 | `int(str(i)) == i` for every int. |
| PyText.LeadingZeroLiteral | product_review_collector/application/usecase/collect_reviews_usecase.py:43 | `int("0" + str(n)) == n`: a leading zero is accepted and ignored. |
| RawValues.Get | product_review_collector/application/usecase/collect_reviews_usecase.py:54-62 | An absent key gives `None`. A present key gives a value stored under it. |
| RawValues.ToStr | product_review_collector/application/usecase/collect_reviews_usecase.py:54-64 | `None`, bools and strings give their Python text. The text of an int is read back by `int()` as that int. |
| RawValues.ToFloat | product_review_collector/application/usecase/collect_reviews_usecase.py:58 | Only bools, ints, floats and strings convert. An int gives its value, a float itself, and a string what `float()` makes of it. |
| RawValues.ToInt | product_review_collector/application/usecase/collect_reviews_usecase.py:43 | Only bools, ints, floats and strings convert. An int gives itself, a float is truncated, and a string is read as an integer literal. |
| RawValues.ConversionsAgree | product_review_collector/application/usecase/collect_reviews_usecase.py:43-58 | `int()` and `float()` agree on bools and ints, `int()` of a float truncates its `float()`, `int(str(i)) == i`, and `None`, datetimes, containers and other objects convert under neither. |
| RawValues.StrOrEmpty | product_review_collector/application/usecase/collect_reviews_usecase.py:54 | A falsy value reads as "". A string reads as itself. |
| RawValues.Truncate | product_review_collector/application/usecase/collect_reviews_usecase.py:43 | `int()` of a float truncates toward zero. |
| PagePlan.CappedReviewCount | product_review_collector/adapter/output/naver_crawler_adapter.py:93 | The count is at most 100, and a count within the cap is kept. |
| PagePlan.PageCountRange | product_review_collector/adapter/output/naver_crawler_adapter.py:94 | A non-negative review count plans one to five pages. |
| PagePlan.PageCount | product_review_collector/adapter/output/naver_crawler_adapter.py:94 | Never more than five pages. Its range, coverage and monotonicity are the `PagePlan.PageCount*` lemmas. |
| PagePlan.PageCountCoversReviews | product_review_collector/adapter/output/naver_crawler_adapter.py:93-94 | With `p` pages, `20(p-1) <= min(n,100) <= 20p`. Below five pages the last page is not full. |
| PagePlan.PageCountMonotone | product_review_collector/adapter/output/naver_crawler_adapter.py:94 | More reviews never mean fewer pages. |
| PagePlan.NegativeCountHasNoPages | product_review_collector/adapter/output/naver_crawler_adapter.py:94 | A negative count, which `int()` accepts from the badge, plans at most zero pages. |
| PagePlan.PageButtons | product_review_collector/adapter/output/naver_crawler_adapter.py:99 | `range(3, pages + 2)` has `pages - 1` elements, the k-th being `3 + k`. |
| PagePlan.SnapshotCount | product_review_collector/adapter/output/naver_crawler_adapter.py:97-110 | One snapshot for the first page plus one per control, which is `pages` when `pages >= 1`. |
| PagePlan.ReviewCount | product_review_collector/adapter/output/naver_crawler_adapter.py:60-67 | A missing badge gives no count, and a count comes only from a badge that is not blank once its commas are removed. |
| PagePlan.ReviewCountReadsDecimal | product_review_collector/adapter/output/naver_crawler_adapter.py:60-67 | A badge showing `str(n)` reads as `n`. |
| PagePlan.SessionClicksPageButtons | product_review_collector/adapter/output/naver_crawler_adapter.py:77-110 | The full session clicks exactly the controls `3 .. pages + 1` in order and captures one snapshot per page. |
| PagePlan.PageCallsClicks | product_review_collector/adapter/output/naver_crawler_adapter.py:99-110 | The page loop clicks the controls `3 .. pages + 1` and captures once per control. |
| Pagination.Translate | product_review_collector/adapter/output/naver_crawler_adapter.py:114-118 | An error becomes an HTTP 500 exactly when it is `NoSuchElementException` or `ElementNotInteractableException`, each with its own message. Every other exception propagates unchanged. |
| Pagination.BuildDriver | product_review_collector/adapter/output/naver_crawler_adapter.py:69-73 | A headless build comes first. A headed build follows exactly when the headless build raised a `WebDriverException`. |
| Pagination.FallbackAtMostOnce | product_review_collector/adapter/output/naver_crawler_adapter.py:69-73 | At most two builds happen. The headed build is the second one and follows a `WebDriverException`. |
| Pagination.RunSession | product_review_collector/adapter/output/naver_crawler_adapter.py:77-112 | Every browser call follows the plan. The session stops at the first exception and translates it. An unreadable count fails right after the opening calls. Otherwise the session makes every planned call and returns one snapshot per page, the first being the initial page, after clicking exactly the controls `3 .. pages + 1`. |
| Pagination.VisitPages | product_review_collector/adapter/output/naver_crawler_adapter.py:99-110 | The loop makes the planned calls up to the first exception and translates it. Without an exception it makes all of them, and the snapshots are the initial page plus one capture per control. |
| Pagination.VisitPage | product_review_collector/adapter/output/naver_crawler_adapter.py:100-110 | Waiting for a control, clicking it and capturing stops at the first exception. On success the page source is appended to the snapshots. |
| Pagination.Crawl | product_review_collector/adapter/output/naver_crawler_adapter.py:69-121 | A failed build propagates with nothing to quit. Otherwise exactly one `quit()` follows the session. An exception from `quit()` replaces the outcome; if `quit()` raises nothing, the outcome is the session's. |
| Pagination.QuitOnlyAtTheEnd | product_review_collector/adapter/output/naver_crawler_adapter.py:120-121 | No session step quits or builds a driver, so the `finally` quit is the only one. |
| Pagination.FetchReviews | product_review_collector/adapter/output/naver_crawler_adapter.py:23-25 | `quit()` happens exactly when a driver was built. The "no HTML" 404 never arises after a crawl. A failed build raises its own error. A raising `quit()` replaces the outcome with its error. Otherwise the first fault in the session is translated into the response error. An unreadable review count after the opening calls fails as such. A complete crawl hands its snapshots to the HTML parsing. |
| ReviewExtraction.ExtractRating | product_review_collector/adapter/output/naver_crawler_adapter.py:123-131 | A missing tag or an unparsable text gives 0.0. Otherwise the rating is `float()` of the stripped text. |
| ReviewExtraction.ExtractCreatedAt | product_review_collector/adapter/output/naver_crawler_adapter.py:133-145 | A missing tag gives `None`. A parsed date lies in 1969–2068. |
| ReviewExtraction.CreatedAtRoundTrip | product_review_collector/adapter/output/naver_crawler_adapter.py:133-145 | A `yy.mm.dd` date with whitespace around it and trailing dots is read back as that date. |
| ReviewExtraction.ExtractWriter | product_review_collector/adapter/output/naver_crawler_adapter.py:147-154 | A missing tag gives `None`. A present tag gives `None` exactly when its text is blank. Any writer is non-empty and stripped. |
| ReviewExtraction.WriterRoundTrip | product_review_collector/adapter/output/naver_crawler_adapter.py:147-154 | A name padded with whitespace is read back as the name. |
| ReviewExtraction.ReplaceNewlines | product_review_collector/adapter/output/naver_crawler_adapter.py:172 | The length is kept. Each newline becomes a space, every other character stays, and no newline is left. |
| ReviewExtraction.CollapseSpaces | product_review_collector/adapter/output/naver_crawler_adapter.py:172 | The result is no longer than the input and keeps its first character. |
| ReviewExtraction.CollapseNormal | product_review_collector/adapter/output/naver_crawler_adapter.py:172 | After the collapse no two spaces are adjacent, and no newline is introduced. |
| ReviewExtraction.CollapseIdentity | product_review_collector/adapter/output/naver_crawler_adapter.py:172 | A string without double spaces is left unchanged. |
| ReviewExtraction.CollapseSpaceRun | product_review_collector/adapter/output/naver_crawler_adapter.py:172 | A non-empty run of spaces collapses to one space. |
| ReviewExtraction.NormalizeContent | product_review_collector/adapter/output/naver_crawler_adapter.py:172 | The result has no newline and no double space, is no longer than the input, and is empty only for empty input. |
| ReviewExtraction.NormalizeIdempotent | product_review_collector/adapter/output/naver_crawler_adapter.py:172 | Normalizing twice is normalizing once. |
| ReviewExtraction.NormalizeFixpoints | product_review_collector/adapter/output/naver_crawler_adapter.py:172 | A string is left unchanged exactly when it has no newline and no double space. |
| ReviewExtraction.NormalizeSplitsAtVisible | product_review_collector/adapter/output/naver_crawler_adapter.py:172 | A character other than a space or newline survives in place, and each side is normalized separately. |
| ReviewExtraction.NormalizeBlankRun | product_review_collector/adapter/output/naver_crawler_adapter.py:172 | A non-empty run of spaces and newlines becomes one space. |
| ReviewExtraction.Records | product_review_collector/adapter/output/naver_crawler_adapter.py:163-183 | Building fails exactly when some item lacks a content node. Otherwise item `i` is stored under `next + i` as its record. |
| ReviewExtraction.ItemRecord | product_review_collector/adapter/output/naver_crawler_adapter.py:168-182 | The record holds four keys in order. `content` is normalized text and `rating` a float. `created_at` is `None` exactly when no date is extracted, and `review_writer` is `None` or a non-blank stripped name. The stored values, as the use case reads them back, are stated by `Pipeline.ItemRecordFields`. |
| ReviewExtraction.AllItems | product_review_collector/adapter/output/naver_crawler_adapter.py:159-166 | No pages give no items, one page gives exactly its own items, and every item of every page is among the result. With `ReviewExtraction.AllItemsSingle` and `ReviewExtraction.AllItemsAppend` the result is the pages' items concatenated in page order. |
| ReviewExtraction.AllItemsSingle | product_review_collector/adapter/output/naver_crawler_adapter.py:159-166 | A single page contributes exactly its own items, once each and in document order. |
| ReviewExtraction.AllItemsAppend | product_review_collector/adapter/output/naver_crawler_adapter.py:159-166 | The items of two runs of pages are the items of the first followed by those of the second. |
| ReviewExtraction.ParseReviews | product_review_collector/adapter/output/naver_crawler_adapter.py:156-186 | No pages is the 404, and only no pages is. Otherwise the parse fails exactly when some item lacks content. On success it yields a dictionary keyed `1 .. N` over all items, in capture order, and the i-th entry is the record built from the i-th item. |
| Pipeline.RecordFields | product_review_collector/adapter/output/naver_crawler_adapter.py:177-183 | The use case reads a stored record's four fields back from their keys: the stripped content, the grade of the rating, the parsed date, and the writer. |
| Pipeline.ItemRecordFields | product_review_collector/adapter/output/naver_crawler_adapter.py:168-183 | What the use case reads from an item's record is the stripped normalized content, the extracted rating as grade, the extracted date and the extracted writer. |
| Pipeline.CrawledEntries | product_review_collector/adapter/output/naver_crawler_adapter.py:160-183 | The crawler's dictionary is keyed by increasing ints `1 .. N`, one per item, and every record reads with a grade. |
| Pipeline.CrawledResultCollected | product_review_collector/application/usecase/collect_reviews_usecase.py:40-85 | The use case returns the crawler's reviews exactly as gathered, with no reordering, and fails with "no reviews collected" exactly when none is gathered. Their ids increase strictly within `1 .. N`, and each has a grade. |

## Left out

- Float parsing (`float(str)`), float arithmetic, NaN and infinities: `float()` of a string is the `Runtime.parseFloat` parameter, and ratings are reals.
- `str()` of floats, containers and other objects is the `Runtime.render` parameter; only `str()` of `None`, bools, ints, strings and midnight datetimes is modelled.
- `int()` of strings with non-ASCII digits, and CPython's limit on the number of digits, are not modelled; only ASCII digits with single underscores and an optional sign are accepted.
- `datetime` values are dates at midnight, the only kind `strptime` produces here; a crawler returning a datetime with a time part is not modelled.
- Selenium specifics: driver options, `ChromeDriverManager`, `implicitly_wait`, the `time.sleep` settle delays and the 10-second wait budget are outside the model; the browser's answers are the `Browser` parameter.
- BeautifulSoup selector matching and CSS class names are outside the model; review items arrive as the `Parser` parameter with one optional text per selected node, so a node that exists but is empty is treated as present.
- A review item without a content node raises `IndexError` or `AttributeError` in the code; it is modelled as the single error `ReviewContentMissing`.
- The debug `print` calls have no effect on results and are left out.
- The async wrappers, the FastAPI router and request models, bootstrap, the `review/*` package, the Naver API client and configuration are outside the pipeline.
- PagePlan.PageCountRange: requires a non-negative count, because `int()` accepts a negative badge and the page count is then at most zero (`PagePlan.NegativeCountHasNoPages`).
- PagePlan.ReviewCount: its contract only states when no count is read; the value read is pinned down by `PagePlan.ReviewCountReadsDecimal` for badges in plain decimal, not for badges with separators or underscores.
- PyText.ParseIntLiteral: its contract only rules out blank input and information separators; its meaning is given by `PyText.IntLiteralRoundTrip` and `PyText.LeadingZeroLiteral`, not by a full grammar statement.
- ReviewExtraction.CollapseSpaces: its contract states only length and first character; what it does to spaces is stated by `ReviewExtraction.CollapseNormal`, `CollapseIdentity` and `CollapseSpaceRun`.
- ReviewExtraction.ExtractCreatedAt: its contract states the missing-tag case and the year window; which texts parse is the contract of `Dates.Strptime` applied to the stripped, dot-trimmed text, and the round trip is `ReviewExtraction.CreatedAtRoundTrip`.
- RawValues.ToInt, RawValues.ToFloat: values other than bools, ints, floats and strings are modelled as refused, although `int()` and `float()` accept bytes (`int(b"7")`), `Decimal`, `Fraction` and any object defining `__index__`, `__int__` or `__float__`. Such keys and ratings are dropped by the model where Python keeps them.
- RawValues.ToFloat: `float()` of an int beyond the double range raises `OverflowError`, which nothing catches and which escapes `collect`; the model gives `Some(i as real)` for every int.
- RawValues.ToStr: `str()` of an int with more than 4300 digits raises `ValueError` under CPython's default digit limit, which escapes `collect`; the model gives the decimal text for every int.
- CollectReviews.DuplicateIdsArePossible: a `Dict` is a sequence of pairs and does not enforce Python's key equality, so keys such as `Int(1)`, `Float(1.0)` and `Bool(true)`, which Python merges into one dictionary key, may stand side by side in the model; the lemma's `k1 != k2` therefore also covers such mappings, and the case Python can build is that of distinct strings like `"1"` and `"01"`.
- Dates.Strptime: its contract states only the shape of accepted text and the year window; completeness is `Dates.StrptimeLayout` and the round trip is `Dates.FormatParseRoundTrip`, but no lemma states that every accepted string has the layout's shape. It also accepts only ASCII digits, whereas CPython's `\d` in the `%Y`, `%y`, `%m` and `%d` patterns also matches other Unicode decimal digits (fullwidth `２０２４`, for instance), so such dates parse in Python but give `None` here.

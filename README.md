# Leiden scholarly-publications harvesters, modelled in Dafny

Two scripts harvest the Leiden University scholarly-publications
repository.

- `fetch_publications.py` pages through the OAI-PMH 2.0 `ListRecords`
  endpoint. Each response is folded into one dictionary per `oai:record`,
  and a resumption token asks for the next batch (section 3.5 of the Open
  Archives Initiative Protocol for Metadata Harvesting v2.0). Every request
  is retried with capped exponential backoff. Resumption tokens are worked
  off through a FIFO queue that feeds a bounded list of in-flight fetches.
- `fetch_faculties.py` scrapes the HTML search results of one faculty. It
  removes `&page=` from the base URL and reads the page count from the
  pager of page 1. It then fetches pages `1..N` concurrently, extracts
  id, title, author, year, resource type, availability and abstract from
  each result row, and appends each page's rows to one list as the pages
  finish.

The model keeps the sequential logic of both scripts and abstracts the
network, the HTML/XML libraries and the runtime as inputs:

- the outcome of each HTTP attempt;
- the texts the XPath/CSS queries would return;
- the pager `href`s;
- the order in which concurrent fetches finish.

Modules, one per concern:

- `Wrappers`: `Option`.
- `Strings`: Python's `isspace`, `strip`, `int` and `str(int)`, and the
  first-occurrence search behind `"&page=" in url` and `url.split("&page=")[0]`.
- `DigitSearch`: the two "anchor then `(\d+)`" regular expressions.
- `OaiRecords`: `extract_records`.
- `Retry`: `fetch_records`.
- `Harvest`: `harvest_records_async`, with the class `Harvester` holding the
  token queue, the in-flight list and the record accumulator.
- `FacultyFields`: `extract_publication_data`.
- `Gathering`: the completion-order theory of the page loop.
- `Faculties`: URLs, `get_total_pages`, `fetch_and_parse_page` and the main
  script.

Behaviour of the code that a reader of the scripts' intent might not
expect, modelled as written:

- Any HTTP error status, 4xx included, is retried. `raise_for_status`
  raises into the generic `except` branch, which waits and retries until
  the last attempt (`Retry.Fetched`).
- The drain after the main loop discards the tokens of the fetches still
  in flight. This never loses a token. Each response yields at most one
  token, so a queued token and a fetch in flight never exist together
  (the invariant `Harvest.Harvester.Valid`, kept by every method of the
  class). `Harvest.OneInFlight` turns this into "a completion step
  finishes the one fetch in flight". `Harvest.Harvester.Pass` and
  `Harvest.Run` ensure `inFlight == []` after every pass, so the drain
  finds nothing in flight.
- At most one fetch is ever in flight, whatever `max_concurrent` is.
- With `max_concurrent <= 0` nothing is ever dispatched. The `while` loop
  then spins for as long as a token is queued; in the model, the loop runs
  for as long as responses are supplied and changes nothing.
- A pager whose only numeric link is `page=0` gives a page count of 0.
  The main script then treats this exactly like a failed fetch of page 1.
- The id is taken at the leftmost `/1887/` that is followed by a digit.
  That is what `re.search` finds, not necessarily the first `/1887/`.

## Model

| member | source | states |
|---|---|---|
| Strings.Strip | fetch_faculties.py:94 | `str.strip()`: the result has no whitespace at either end, is what remains of the text after its leading whitespace once trailing whitespace is cut, and is empty exactly when the text is all whitespace |
| Strings.StripStripped | fetch_faculties.py:104 | stripping an already stripped text changes nothing (the final `.strip()` of the author text) |
| Strings.TrimStart | fetch_faculties.py:94 | `lstrip`: removes exactly the leading whitespace and leaves a text starting with non-whitespace |
| Strings.TrimEnd | fetch_faculties.py:99-101 | `rstrip`: removes exactly the trailing whitespace; used for the `\s*` before a trailing year |
| Strings.Decimal | fetch_faculties.py:228 | `f"{page_num}"`: a non-empty run of ASCII digits without a leading zero |
| Strings.DecimalRoundTrip | fetch_faculties.py:202 | `int(str(n)) == n` for every page number |
| Strings.FindFrom | fetch_faculties.py:259 | substring search: the first occurrence at or after a position, or None exactly when there is none |
| DigitSearch.FirstMatchFrom | fetch_faculties.py:199 | the leftmost position where the anchor and one digit match, or None exactly when nothing matches |
| DigitSearch.DigitRun | fetch_faculties.py:77 | the greedy `\d+` capture: a run of digits of the text, ended by the text's end or a non-digit |
| DigitSearch.SearchDigits | fetch_faculties.py:199-200 | `re.search(...)` is None exactly when the pattern matches nowhere; a captured group is non-empty digits |
| DigitSearch.SearchDigitsAt | fetch_faculties.py:77-78 | at the leftmost match, the captured group is the digit run right after the anchor |
| DigitSearch.DigitRunIsMaximal | fetch_faculties.py:77 | any digit run ended by a non-digit or the end of the text is exactly the greedy capture |
| OaiRecords.HeaderFields | fetch_publications.py:34-40 | the header fields are identifier and datestamp only, each with the first header text when there is one and absent otherwise |
| OaiRecords.RecordOf | fetch_publications.py:32-53 | the keys of a record's dictionary are the header fields present and the tags of its Dublin Core elements, and nothing else |
| OaiRecords.TagsHaveTexts | fetch_publications.py:43-51 | a tag is a key of the folded dictionary exactly when some element carries it |
| OaiRecords.TextsOfAppend | fetch_publications.py:43 | the texts of a tag in concatenated element lists are the texts of each list, in document order |
| OaiRecords.FoldedValues | fetch_publications.py:43-51 | a tag is present iff it occurs; occurring once it is the scalar text, occurring k >= 2 times it is the list of exactly those k texts in document order |
| OaiRecords.FieldMapSnoc | fetch_publications.py:45-51 | one more element re-collapses exactly its own tag and leaves every other key alone |
| OaiRecords.FoldStep | fetch_publications.py:45-51 | the three branches of the loop body: a new tag is stored as a scalar, a scalar becomes a two-element list, a list is appended to |
| OaiRecords.JoinsHeader | fetch_publications.py:34-51 | a header value set before the Dublin Core elements stays a scalar, or becomes the list of it followed by every DC text of the same name |
| OaiRecords.HeaderJoinsDublinCore | fetch_publications.py:34-40 | identifier and datestamp take the first header text only, and join same-named DC elements into a list headed by it |
| OaiRecords.FoldHeader | fetch_publications.py:32-40 | the imperative header steps build the folded dictionary of the header fields |
| OaiRecords.FoldRecord | fetch_publications.py:32-51 | the nested imperative loop builds exactly the tag-by-tag folded dictionary of the record |
| OaiRecords.ChooseToken | fetch_publications.py:56-57 | a token exists iff the first `resumptionToken` text is not blank, and is that text unstripped |
| OaiRecords.RecordsOf | fetch_publications.py:31-53 | exactly one dictionary per `oai:record`, in document order |
| OaiRecords.RecordsOfAt | fetch_publications.py:31-53 | dictionary i is the folded dictionary of record i |
| OaiRecords.FoldRecords | fetch_publications.py:31-53 | the loop over records yields exactly one folded dictionary per record, in document order |
| OaiRecords.ExtractRecords | fetch_publications.py:25-62 | an empty or unparsable body yields `([], None)`; a document yields one folded dictionary per record, in order, and the chosen token |
| Retry.Pow2 | fetch_publications.py:70 | `2 ** i` is at least 1 |
| Retry.Pow2Monotone | fetch_publications.py:70 | `2 ** i` never decreases with `i` |
| Retry.Backoff | fetch_publications.py:70 | `min(2 ** i, 30)` is between 1 and 30 and is one of the two |
| Retry.BackoffSchedule | fetch_publications.py:70 | the wait doubles for the first five attempts (1, 2, 4, 8, 16) and is 30 from then on |
| Retry.BackoffMonotone | fetch_publications.py:70 | waits never decrease from one retry to the next |
| Retry.Backoffs | fetch_publications.py:66-85 | the waits of the first k retries are the backoffs of attempts 0..k-1, in order |
| Retry.FirstOk | fetch_publications.py:66-76 | the first attempt in a range that succeeds, or None exactly when none does |
| Retry.Fetched | fetch_publications.py:64-90 | at most `retry_count` attempts, none with `retry_count <= 0`; a body exactly when some attempt succeeds, from the first that does; otherwise all attempts are made; after every failed attempt the backoff is waited, except after a last attempt that ends in an error other than 503 or a timeout |
| Retry.FetchRecords | fetch_publications.py:64-90 | the imperative retry loop returns exactly the body, waits and attempt count of `Fetched` |
| Harvest.Response | fetch_publications.py:137-144 | a failed fetch contributes neither records nor a token; a token is never the empty string |
| Harvest.Without | fetch_publications.py:134-147 | removing the finished fetches gains no element; nothing is left when all finished, nothing changes when none did |
| Harvest.OneInFlight | fetch_publications.py:133-147 | with at most one fetch in flight or queued, a completion step finishes exactly that one fetch |
| Harvest.NewStep | fetch_publications.py:136-144 | one more finished fetch appends its records and, if it has one, its token |
| Harvest.Receive | fetch_publications.py:137-139 | `task.result()` then `extract_records`: exactly the batch `Response` gives |
| Harvest.BatchesAt | fetch_publications.py:137-139 | batch i is what fetch i gave |
| Harvest.ReceiveAll | fetch_publications.py:154-156 | `asyncio.gather`: the batch of every fetch, in order |
| Harvest.Collect | fetch_publications.py:136-144 | the loop over finished fetches appends all their records and all their tokens, in order |
| Harvest.Harvester.Valid | fetch_publications.py:116-147 | tokens are dispatched in the order they were queued, and at most one fetch is ever in flight |
| Harvest.Harvester.constructor | fetch_publications.py:102-119 | the first batch: its records, its token queued when there is one, nothing in flight; a failed first fetch leaves nothing to do |
| Harvest.Harvester.Fill | fetch_publications.py:124-130 | tokens are dispatched oldest first while fewer than `max_concurrent` fetches are in flight; records and the queue's history are unchanged |
| Harvest.Harvester.Complete | fetch_publications.py:133-147 | a non-empty set of in-flight fetches finishes: records are only appended, new tokens are queued after the old ones, and exactly the finished fetches leave the in-flight list |
| Harvest.Harvester.Pass | fetch_publications.py:122-150 | one pass of the loop appends the next batch's records and queues its token, leaving nothing in flight; with `max_concurrent <= 0` it changes nothing |
| Harvest.Harvester.CompleteOne | fetch_publications.py:133-147 | the one fetch in flight finishes: its batch's records are appended, its token queued, and nothing is left in flight |
| Harvest.Harvester.Drain | fetch_publications.py:153-158 | the gathered fetches still in flight add the records of their batches, in order; their tokens are dropped, and nothing is left in flight or queued |
| Harvest.Chain | fetch_publications.py:122-147 | the chain from a token yields the records of its first batches, in order, as many as it takes |
| Harvest.ChainLength | fetch_publications.py:122-147 | the chain takes no more batches than there are, and none exactly when there is no token, no batch or no positive `max_concurrent` |
| Harvest.ChainStopsAtTokenless | fetch_publications.py:122-147 | with a positive `max_concurrent` and a token, the chain takes batches up to and including the first one without a token, and no further |
| Harvest.ChainTakesAll | fetch_publications.py:122-147 | with a positive `max_concurrent` and a token on every batch, the chain takes every batch |
| Harvest.NewRecordsCons | fetch_publications.py:136-140 | the records of a batch followed by more batches are that batch's records followed by theirs |
| Harvest.ChainStep | fetch_publications.py:122-147 | the chain of batches from a token is that batch's records followed by the chain from its token, and takes one batch more |
| Harvest.PassFollowsChain | fetch_publications.py:122-150 | a pass keeps the records so far plus the chain still ahead unchanged, keeps whether that chain ends, and uses up one batch of it when it fetches |
| Harvest.Harvested | fetch_publications.py:102-158 | the harvest is the first batch's records followed by the records of the batches the chain takes, and only the first batch with no positive `max_concurrent` |
| Harvest.Run | fetch_publications.py:122-150 | the passes of the `while` loop preserve records-plus-chain and whether the chain ends, and each fetching pass takes one batch of the chain; they stop when the queue is empty or the responses run out |
| Harvest.HarvestRecords | fetch_publications.py:92-163 | all records are the first batch's followed by the sequential chain of batches; the loop finishes exactly when the chain reaches a batch without a token; the number of resumption fetches is the number of batches the chain takes; a failed first fetch gives `[]`; with `max_concurrent <= 0` only the first batch is kept |
| FacultyFields.IdOf | fetch_faculties.py:74-80 | the id is None without a link or without a match; otherwise it is the maximal digit run after the leftmost `/1887/` followed by a digit |
| FacultyFields.HandleLinkId | fetch_faculties.py:74-78 | a link `/handle/1887/<digits><non-digit...>` has exactly those digits as its id |
| FacultyFields.DropTrailingYear | fetch_faculties.py:99-101 | the substitution cuts the text at the leftmost match of whitespace, year, whitespace, end, and leaves it unchanged exactly when nothing matches |
| FacultyFields.DropTrailingSemicolon | fetch_faculties.py:102-104 | the substitution cuts at the one `;` followed only by whitespace, and leaves the text unchanged exactly when there is none |
| FacultyFields.NonEmpty | fetch_faculties.py:108-109 | `x if x else None`: None exactly for the empty text |
| FacultyFields.YearText | fetch_faculties.py:89-92 | the year text is stripped, and empty exactly when the year span is missing or all whitespace |
| FacultyFields.SplitAuthorYear | fetch_faculties.py:87-112 | without an author cell both are None; the year is the stripped year span or None; without a year the author is the stripped cell text; an author is never empty, is stripped, and is a prefix of the stripped cell text |
| FacultyFields.AuthorText | fetch_faculties.py:97-104 | the author text after both substitutions is stripped and a prefix of the full text |
| FacultyFields.AuthorYearDecomposition | fetch_faculties.py:94-109 | when the cell text ends with its year, the text is author, then whitespace with at most one `;`, then the year |
| FacultyFields.TrailingYearSeparated | fetch_faculties.py:97-104 | the same decomposition, stated on the stripped text and the year |
| FacultyFields.JoinedAppend | fetch_faculties.py:144-150 | the joined parts of concatenated node lists are the concatenation of each list's joined parts |
| FacultyFields.BrIsNewline | fetch_faculties.py:148-149 | a `<br>` between two node lists becomes exactly one `"\n"` |
| FacultyFields.AssembleAbstract | fetch_faculties.py:142-150 | the imperative loop builds the stripped join of stripped text parts and `"\n"` for each `<br>`, and the result is stripped |
| FacultyFields.AbstractText | fetch_faculties.py:131-167 | the abstract is the assembled toggle text, or the stripped direct text, or None; whatever text results is stripped |
| FacultyFields.AbstractOf | fetch_faculties.py:128-167 | the abstract is None exactly when the row has no abstract, and is stripped otherwise |
| FacultyFields.StrippedText | fetch_faculties.py:116-126 | `tag.text.strip() if tag else None`: present exactly when the tag is, stripped, and empty exactly for an all-whitespace text |
| FacultyFields.PublicationOf | fetch_faculties.py:71-169 | title, resource type, availability and abstract are present exactly when found, and then stripped; the id is present exactly when the link holds `/1887/` and a digit, and is then a digit run; the year is the stripped year text, None when it is empty; without a year the author is the stripped cell text, None when empty; an author is never empty and is stripped; a row without an author cell has neither |
| FacultyFields.PublicationsOfAt | fetch_faculties.py:70-169 | publication i is built from result row i alone |
| FacultyFields.ExtractPublicationData | fetch_faculties.py:47-171 | one publication per result row, in order, each built from its own row; no rows give `[]` |
| Gathering.PagesUpToAt | fetch_faculties.py:266 | `range(1, total_pages + 1)`: position i holds page i + 1 |
| Gathering.PagesOnce | fetch_faculties.py:266 | every page in `1..n` occurs exactly once, and no other number occurs |
| Gathering.PageOrderOnce | fetch_faculties.py:293 | a completion order has every page exactly once, and nothing else |
| Gathering.GatheredAppend | fetch_faculties.py:300-302 | gathering two runs of completions one after the other gathers their concatenation |
| Gathering.GatheredPermutation | fetch_faculties.py:293-302 | completion orders holding the same pages gather the same publications, up to order |
| Gathering.PageTotalInOrder | fetch_faculties.py:300-302 | gathering pages `1..n` in order yields as many publications as the pages hold together |
| Gathering.ScrapedAll | fetch_faculties.py:293-302 | whatever the completion order, the accumulator holds exactly the publications of all pages (as a multiset), and its length is the sum of the page lengths |
| Faculties.BaseWithoutPage | fetch_faculties.py:259 | the prefix before the first `&page=`, and the URL itself exactly when it has none; the result contains no `&page=` |
| Faculties.BaseOfPageUrl | fetch_faculties.py:259 | removing the page from a page URL (built as on line 228) on a page-free base gives the base back |
| Faculties.PageParam | fetch_faculties.py:199-202 | the page number of a pager link is None exactly when `[?&]page=(\d+)` matches nowhere |
| Faculties.PageUrlParam | fetch_faculties.py:199-202 | a page URL (built as on line 228), read back as a pager link, reports the page it was built for |
| Faculties.LinkPage | fetch_faculties.py:195-205 | a pager link gives no page number exactly when it has no `href` or `[?&]page=(\d+)` matches nowhere in it |
| Faculties.PageUrl | fetch_faculties.py:228 | a page URL is the base, the six characters `&page=`, then the decimal page number |
| Faculties.LinkPages | fetch_faculties.py:195-205 | the page number of each pager link, link by link |
| Faculties.PageNumbers | fetch_faculties.py:194-205 | every number in `page_numbers` is carried by some link |
| Faculties.PageNumbersOfLinks | fetch_faculties.py:194-205 | a number is in `page_numbers` exactly when some link carries it |
| Faculties.Largest | fetch_faculties.py:212 | `max(page_numbers)`: a member of the set no smaller than any member, None exactly for the empty set |
| Faculties.TotalPages | fetch_faculties.py:174-221 | the page count is never negative, is 1 without a pager, and is 0 exactly on a failure or when the largest page number is 0 |
| Faculties.TotalPagesOfPager | fetch_faculties.py:194-214 | with no numeric link the count is 1; otherwise it is a page number of some link and no link's page number exceeds it |
| Faculties.GetTotalPages | fetch_faculties.py:174-221 | the imperative set-building loop gives the URL of page 1 and exactly the page count of `TotalPages` |
| Faculties.MaxOf | fetch_faculties.py:212 | the maximum of a non-empty set: a member no smaller than any member |
| Faculties.PageData | fetch_faculties.py:237-250 | a failed fetch or parse gives `[]`; otherwise one publication per row |
| Faculties.FetchAndParsePage | fetch_faculties.py:224-250 | the URL `base&page=N` and the page's publications, `[]` on any failure |
| Faculties.PageOfFetched | fetch_faculties.py:237-250 | page p of the scraped pages is what fetching page p gave, and nothing for a page outside `1..N` |
| Faculties.PagesDataIndex | fetch_faculties.py:237-250 | entry i of the scraped pages is the data of fetch result i |
| Faculties.EtaDivisor | fetch_faculties.py:317-325 | `min(MAX_WORKERS, pages_remaining if pages_remaining > 0 else 1)` is between 1 and 32, and is 1, the remaining count or 32 in the three ranges |
| Faculties.EtaDivisorsAt | fetch_faculties.py:305-325 | after the (i+1)-th completion, the divisor is taken for `total - (i + 1)` remaining pages |
| Faculties.EtaDivisorsBounded | fetch_faculties.py:317-325 | no ETA estimate ever divides by zero or by more than the worker count |
| Faculties.SubmitPages | fetch_faculties.py:262-290 | no pages are submitted when the count is not positive, otherwise exactly pages `1..N` |
| Faculties.CompleteNext | fetch_faculties.py:293-325 | one completion appends that page's publications and takes the next ETA divisor |
| Faculties.CompletePages | fetch_faculties.py:293-325 | the `as_completed` loop gathers the pages' publications in completion order, counts one completion per page, and takes one divisor per completion |
| Faculties.ScrapeFaculty | fetch_faculties.py:254-325 | the page-1 URL is built on the page-free base; with no pages nothing is submitted or scraped; otherwise every page is submitted once, `completed_pages` reaches the page count, and the accumulator gathers every page's publications in completion order |

## Left out

- Network access (`requests.get`, the `aiohttp` session), timeouts, cookies and headers: each HTTP attempt is an input outcome, and each page fetch an input result.
- BeautifulSoup CSS selection and lxml XPath evaluation. Their outputs are inputs: per record, the header texts and the Dublin Core (tag, text) pairs; the `resumptionToken` texts; the pager `href`s; and, per result row, the id link, the title, resource-type and availability texts, the author cell and the abstract cell.
- The selector precedence of the abstract fallbacks (fetch_faculties.py:131-167): which of the toggle text, the direct text or nothing applies is an input (`AbstractCell`). Only the text assembly is modelled.
- Real concurrency (`ThreadPoolExecutor`, `as_completed`, `asyncio.wait`, `asyncio.gather`). The order in which pages finish is an input permutation. The harvest's completion step takes a chosen non-empty set of in-flight fetches.
- The sleeps (`asyncio.sleep` in the retry loop and the 0.05 s pause): the retry model returns the list of waits instead of sleeping.
- Floating-point timing: the ETA seconds, `datetime.timedelta` formatting and `time.time()`. Only the integer ETA divisor is modelled.
- pandas DataFrame and CSV output, tqdm progress bars, printing and `sys.argv` parsing.
- Harvest.HarvestRecords: the loop is bounded by the supplied responses, since the source's loop need not terminate (with `max_concurrent <= 0` and a queued token it spins). The contract states what holds once the responses run out.
- Strings.Strip: states that the result is stripped, lies within the text after its leading whitespace, and is empty exactly for all-whitespace text. It does not separately state where the result sits in the original text.
- Faculties.CompletePages: the page URL each worker builds is returned by `FetchAndParsePage` but not collected by the loop, as the source does not collect it either.
- Faculties.PageOfFetched: a page outside `1..|results|` yields nothing; under the page-order precondition of `ScrapeFaculty` no such page occurs.
- Faculties.PageParam: the value of the captured digits is taken without a length limit. Python 3.11 and later (and the 3.10.7 and 3.9.14 security releases) make `int()` raise `ValueError` on a string of more than 4300 digits, which the `except ValueError: continue` (fetch_faculties.py:204-205) turns into an ignored link. Which applies depends on the interpreter the script runs under, so the model does not ignore such a link, and a pager link with a longer `page=` run counts as a page number.
- The `except` around `future.result()` (fetch_faculties.py:331-336) is unreachable, because `fetch_and_parse_page` catches every exception itself; it is not modelled.
- `\d` and `\s` are taken over ASCII digits and Python's `str.isspace` set; Unicode decimal digits beyond ASCII are not modelled.
- Dictionary key order is not modelled: a record is a `map`.
- `$` in the author regexes also matches before a final newline. Since the author text is stripped first, no such newline exists and this case is not modelled separately.

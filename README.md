# Website crawl, vectorization and chat: a Dafny model

This project models the core of a retrieval-augmented chat back end. The
back end crawls a website, normalises the text of each page and stores the
pages in a vector store keyed by the URL's hash. It then answers questions
about the site from that store. The model covers:

- **the crawler** (`WebScraper` in `backend/api/views.py`). Modules
  `TextCleaner`, `PageExtractor` and `Scraper` cover:
  - the robots check, which fails open;
  - the same-site URL filter and link extraction;
  - `clean_text` and its five text fields;
  - `scrape_page`, which claims a URL before fetching it;
  - the breadth-first `crawl_website` loop with its page budget;
  - `get_summary`.
- **vectorization** (`vectorize_data`, module `Vectorizer`). Rows of the
  scraped CSV become documents when they hold at least ten characters of
  stripped text. Each document's id is its row index. The store counts as
  complete once `chroma.sqlite3` exists.
- **chat** (module `ChatAnswers`). The guard clauses run in this order:
  missing parameters, Ollama down, missing store folder. The retrieved
  passages are joined with blank lines. `<think>…</think>` spans are removed
  from the reply in a single pass, and the reply is trimmed.
- **deletion** (`delete_vectorized_data`, module `Deletion`). The id is
  looked up, then four steps run: the folder, the CSV file, the content rows
  and the website row. The listing of stores that follows may run the
  reconciliation described next.
- **reconciliation** (`cleanup_incomplete_vectorizations` in
  `backend/api/cleanup.py`, module `Reconciler`). A website whose store is
  missing or incomplete has its id cleared, one save at a time.

Modules `PyStr` and `Common` hold the Python string operations the code
relies on and a few shared datatypes:

- `str.isspace`, `split`, `join` and `strip`;
- splitting on one character;
- `str(int)`;
- substring search.

Module `Storage` holds the shared state: the folders and files on disk, and
the `Website` and `ScrapedContent` tables.

The network, robots.txt parsing, `urlparse`/`urljoin`, md5, HTML parsing,
the embedding model, Chroma and the language model are all oracles:
- the `Web` value in `Scraper`, with a fixed answer per URL, which is enough
  because each URL is fetched at most once;
- the `Page` value in `PageExtractor`;
- plain parameters (`ollamaUp`, `persists`, `retrieve`, `generate`,
  `accepts`).

Python's `\w` class depends on the Unicode database. It is a parameter
`isWord`, and facts that need `/`, `@` or `|` to be non-word characters say
so in their `requires`.

Three behaviours of the code are worth stating up front:
- robots.txt is fetched again for every URL, and any status other than 200
  allows the URL.
- `chat` only checks that the store folder exists, so a folder left behind
  by a failed vectorization is searched.
- A second `delete_vectorized_data` for the same id answers 404.

## Model

| member | source | states |
|---|---|---|
| Scraper.CheckRobotsTxt | backend/api/views.py:570-606 | a URL is refused exactly when robots.txt came back with status 200 and disallows it; every failure allows it |
| Scraper.ValidHostIsBaseOrSubdomain | backend/api/views.py:618-625 | an accepted absolute URL's host is the base host, or ends in the base host preceded by a '.' |
| Scraper.SubdomainHostAccepted | backend/api/views.py:618-625 | conversely, the base host itself and any host ending in '.' followed by the base host is accepted |
| Scraper.LookalikeHostRejected | backend/api/views.py:618-625 | a host that only shares trailing letters with the base host (`badexample.com` for `example.com`) is rejected |
| Scraper.ExtractLinks | backend/api/views.py:640-656 | the loop returns the set `LinksOf` exactly when every kept anchor joins: anchors without `href`, anchors removed with their tag and `#` fragments contribute nothing, and the rest contribute the joined URL when it passes is_valid_url; an `urljoin` that raises ends the loop with no result |
| Scraper.LinksOfCharacterised | backend/api/views.py:640-656 | a URL is among the links exactly when some anchor contributes it |
| Scraper.LinksAreValid | backend/api/views.py:652-654 | every extracted link passes is_valid_url |
| Scraper.IgnoredAnchorAddsNothing | backend/api/views.py:645-647 | a `#` anchor or an anchor inside a removed tag adds no link |
| Scraper.TotalWordsAppend | backend/api/views.py:849-853 | the summed word count is additive over concatenation of records |
| Scraper.TotalWordsZeroIff | backend/api/views.py:849-853 | the total is zero exactly when every record has zero words |
| Scraper.DistinctWithinSet | backend/api/views.py:766-770 | records with distinct URLs, all inside a set, are no more than the set |
| Scraper.ExtractedAt | backend/api/views.py:790-803 | every stored record is the record scrape_page builds for its own URL, from an accepted URL |
| Scraper.UnjoinableLinkNotScraped | backend/api/views.py:800-814 | a page with a kept link that `urljoin` cannot join is never scraped, since the exception ends scrape_page before the append |
| Scraper.AppendKeepsRecordsClaimed | backend/api/views.py:766-803 | appending the record of a newly claimed, accepted URL keeps every record's URL claimed and accepted and keeps the URLs distinct |
| Scraper.AppendKeepsExtracted | backend/api/views.py:790-803 | appending the record of an accepted URL keeps every record equal to the record of its URL |
| Scraper.CoverageStep | backend/api/views.py:828-840 | one turn of the crawl loop keeps every link of every scraped page either claimed or queued |
| Scraper.CrawlStep | backend/api/views.py:828-840 | one turn keeps the queue free of duplicates and of claimed URLs, keeps all queued and claimed URLs on the site, and keeps every link covered |
| Scraper.AppendUnseen | backend/api/views.py:835-840 | the queue keeps its old entries as a prefix, gains exactly the links neither visited nor queued, and stays duplicate-free |
| Scraper.QueueTail | backend/api/views.py:830 | popping the head of a duplicate-free queue leaves a duplicate-free queue without the head |
| Scraper.WebScraper.constructor | backend/api/views.py:545-549 | a new scraper has no visited URLs and no records |
| Scraper.WebScraper.GetSummary | backend/api/views.py:842-853 | pages scraped is the number of records; total words is zero exactly when every record has zero words |
| Scraper.WebScraper.ScrapePage | backend/api/views.py:756-814 | the URL is claimed in every case; a record is appended, and the content and links are returned, exactly when the URL was unclaimed, allowed by robots.txt and fetched with status 200; otherwise the records are unchanged |
| Scraper.WebScraper.FetchPage | backend/api/views.py:773-814 | a page yields a result exactly when robots.txt allows it, the fetch answers 200 and every link joins; the result is the record built from the page's text, URL and URL hash, with the page's extracted links |
| Scraper.ScrapedRecordAppended | backend/api/views.py:766-803 | appending the record of a newly claimed, accepted URL keeps all records claimed, distinct and extracted, with the earlier records in front |
| Scraper.WebScraper.CrawlTurn | backend/api/views.py:827-840 | one turn claims the head of the queue, which was unclaimed, and appends its record exactly when it is accepted; the rest of the queue stays in front, in order, followed by exactly the page's links that are neither claimed nor queued; the queue stays a duplicate-free frontier of unclaimed on-site URLs, the base URL's record stays first, and every link shown so far stays claimed or queued |
| Scraper.WebScraper.EnqueueLinks | backend/api/views.py:829-840 | the head is popped, the rest stays in front in order, and exactly the links of an accepted page that are neither claimed nor queued are appended, without duplicates |
| Scraper.TurnLinks | backend/api/views.py:834-836 | the links a turn queues all pass is_valid_url |
| Scraper.RecordedStep | backend/api/views.py:766-803 | claiming a URL and appending its record when it is accepted keeps every accepted claimed URL recorded |
| Scraper.StartedStep | backend/api/views.py:821-832 | after the first turn the base URL is claimed, and its record, when there is one, stays first |
| Scraper.ReachedStep | backend/api/views.py:827-840 | one turn keeps every claimed and queued URL either the base URL or a link of a scraped page |
| Scraper.LinkedGrows | backend/api/views.py:803 | a URL linked from the records stays linked when records are appended |
| Scraper.WebScraper.CrawlWebsite | backend/api/views.py:816-840 | at most max_pages URLs are claimed; when max_pages is positive the base URL is claimed, and its record is the first when it is accepted; every claimed URL is on the site and is the base URL or a link of a scraped page; the records are exactly those of the claimed URLs that scrape_page accepts, one per URL; if the budget was not exhausted, every link of every scraped page was claimed |
| TextCleaner.CollapseWhitespace | backend/api/views.py:675 | the only whitespace left is plain spaces, and the text does not grow |
| TextCleaner.KeepAllowed | backend/api/views.py:678 | only word characters, whitespace and `. , ! ? ; : - ( )` remain, each taken from the input; text made only of those is unchanged |
| TextCleaner.CleanText | backend/api/views.py:658-692 | the result is clean: allowed characters only, and single spaces between non-space characters; None and "" give "" |
| TextCleaner.CleanTextFixpointIff | backend/api/views.py:658-692 | clean_text leaves a string unchanged exactly when it is clean |
| TextCleaner.CleanTextIdempotent | backend/api/views.py:658-692 | applying clean_text twice equals applying it once |
| TextCleaner.CleanTextEmptyIff | backend/api/views.py:658-692 | the result is empty exactly when the input holds no character that is both non-whitespace and kept by the filter |
| TextCleaner.UrlAndEmailStepsAreDead | backend/api/views.py:680-684 | after the character filter the text holds no `/` and no `@`, so neither the URL pattern nor the e-mail pattern can match |
| TextCleaner.CollapseKeepsNonSpace | backend/api/views.py:675 | collapsing whitespace keeps every non-whitespace character |
| TextCleaner.CollapseAddsOnlySpaces | backend/api/views.py:675 | every non-whitespace character after collapsing comes from the input |
| TextCleaner.KeepAllowedKeeps | backend/api/views.py:678 | the filter keeps every character it accepts |
| PageExtractor.CleanedItems | backend/api/views.py:715-719 | the kept items are non-empty and clean, no more than the inputs |
| PageExtractor.CleanEach | backend/api/views.py:715-739 | each per-element loop returns the non-empty cleaned texts in document order |
| PageExtractor.ExtractTextContent | backend/api/views.py:694-754 | the method returns the fields of `TextContentOf`; the headings are read before the removed tags go, the paragraphs and list items after |
| PageExtractor.ItemsRoundTrip | backend/api/views.py:720 | joining non-empty, trimmed items that hold no bar character with the bar separator, then splitting at the bar and stripping, gives the same items |
| PageExtractor.HeadingsAndListItemsRoundTrip | backend/api/views.py:714-740 | the headings and list-item fields read back into exactly the page's cleaned, non-empty headings and remaining list items |
| PageExtractor.BarSurvivesOnlyOutsideCombinedText | backend/api/views.py:720-751 | with two or more headings the headings field holds the bar separator, but the combined text never holds a bar |
| PageExtractor.WordCountBySpaces | backend/api/views.py:751-752 | the word count is the number of spaces in the combined text plus one, or zero for empty text |
| PageExtractor.WordCountPositiveIff | backend/api/views.py:742-752 | the page has words exactly when one of its five fields is non-empty |
| PageExtractor.ParagraphsAreClean | backend/api/views.py:727-732 | the paragraphs field is already in clean_text's canonical form |
| PyStr.SplitJoin | backend/api/views.py:687 | splitting a space-join of words gives the words back |
| PyStr.JoinSplit | backend/api/views.py:687 | joining the words of a single-spaced string with spaces gives the string back |
| PyStr.SplitEmptyIff | backend/api/views.py:687 | a string splits into no words exactly when it is all whitespace |
| PyStr.SplitCharsFromText | backend/api/views.py:687 | every character of every word comes from the split string |
| PyStr.StripExactly | backend/api/views.py:690 | strip removes exactly the surrounding whitespace |
| PyStr.NatToStringInjective | backend/api/views.py:406 | different row indices print as different ids |
| Vectorizer.DocumentOf | backend/api/views.py:381-403 | a document's text is the row's stripped text, at least ten characters long, with no surrounding whitespace |
| Vectorizer.BuildDocuments | backend/api/views.py:373-406 | the row loop yields the batch `Collected`: one document per surviving row, in row order, with the row index as id |
| Vectorizer.SurvivingIndices | backend/api/views.py:373-406 | the surviving rows' indices are in range, increasing, and each names a surviving row |
| Vectorizer.CollectedByIndex | backend/api/views.py:373-406 | document j is the document of the j-th surviving row, and its id is that row's index |
| Vectorizer.RowKeptIff | backend/api/views.py:375-385 | a row's index is among the ids exactly when its text is present and at least ten characters long once stripped |
| Vectorizer.DistinctIds | backend/api/views.py:406 | no two documents share an id |
| Vectorizer.DocumentsHaveContent | backend/api/views.py:384-385 | every document holds at least ten characters of trimmed text |
| Vectorizer.NothingCollectedIff | backend/api/views.py:408-411 | no document is collected exactly when no row survives |
| Vectorizer.VectorizeData | backend/api/views.py:342-429 | the errors come in the code's order (missing file, empty file, Ollama down); the folder is created; a complete store is returned as is; no surviving row gives "no valid content" with the folder left behind; otherwise the collected batch is added and success requires `chroma.sqlite3`; success implies a complete store |
| ChatAnswers.RemoveThinkSpans | backend/api/views.py:521 | removing spans never lengthens the reply |
| ChatAnswers.UnchangedIff | backend/api/views.py:521 | the reply is left alone exactly when it holds no opening tag followed by a closing tag |
| ChatAnswers.RemovesLeftmostSpan | backend/api/views.py:521 | the leftmost opening tag is removed together with the first closing tag after it, and the scan resumes after that |
| ChatAnswers.UnclosedTagKept | backend/api/views.py:521 | an opening tag with no closing tag after it is kept with all that follows |
| ChatAnswers.SinglePassCanLeaveSpan | backend/api/views.py:521 | one pass can join two halves into a new span, so a cleaned answer can still hold `<think></think>` |
| ChatAnswers.Chat | backend/api/views.py:445-527 | missing parameters, then Ollama down, then a missing folder are answered in that order; a reply comes exactly when the guards pass and retrieval and generation succeed; then the source count is the number of passages, the relevant content is the passages joined with blank lines, and the answer is trimmed |
| ChatAnswers.PlainReplyOnlyTrimmed | backend/api/views.py:519-521 | a reply without an opening tag is only trimmed |
| ChatAnswers.NoOpenTagOnlyTrimmed | backend/api/views.py:521 | text without an opening tag is left unchanged by the span removal |
| ChatAnswers.ChatIgnoresChromaFile | backend/api/views.py:463-465 | the answer does not depend on whether `chroma.sqlite3` exists, only on the folder |
| Deletion.DeleteVectorizedData | backend/api/views.py:190-242 | a missing id is a bad request, no website is a 404, several are a 500, and each leaves everything unchanged; on success the one matching website's URL is returned, the disk is `PurgeDisk` of the id, and the tables are `PurgeDatabase` of that website followed by the listing's cleanup (`AfterListing`) |
| Deletion.WithId | backend/api/views.py:202 | the websites registered under the id are exactly the table's websites with that id, and there are none exactly when no website has it |
| Deletion.PurgeDisk | backend/api/views.py:208-218 | after the folder and the CSV file are removed, the id has no folder, no store and no CSV file, and every other entry is kept |
| Deletion.PurgeDatabase | backend/api/views.py:220-226 | after the deletions, the website and its content rows are gone and every other row is kept |
| Deletion.DropContents | backend/api/views.py:221-222 | the content rows kept are exactly those of other websites |
| Deletion.DropWebsite | backend/api/views.py:226 | the website rows kept are exactly those with another primary key |
| Deletion.AfterListing | backend/api/views.py:50-94 | the listing that ends a deletion leaves the content rows alone and at most clears website ids; it runs the cleanup only when some folder holds a complete store and no such folder belongs to several websites |
| Deletion.DeleteUnderNotNullColumn | backend/api/views.py:226-230 | with the column as declared (NOT NULL) the tables end exactly as the four deletion steps left them |
| Deletion.NothingLeftAfterDelete | backend/api/views.py:208-226 | after a deletion nothing on disk or in the tables refers to the id or the deleted website |
| Deletion.SecondDeleteNotFound | backend/api/views.py:201-206 | deleting the same id again answers 404 and changes nothing |
| Deletion.ChatAfterDeleteNotFound | backend/api/views.py:463-465 | after a deletion, chatting with that store answers "vector database not found" |
| Reconciler.FirstRejected | backend/api/cleanup.py:32-46 | the first website whose cleared row the database refuses, if any |
| Reconciler.CleanupIncompleteVectorizations | backend/api/cleanup.py:13-52 | the loop returns `CleanupOutcome`: if every save goes through, every dangling id is cleared and counted; if the save at i is refused, the rows before i stay cleared and 0 is returned |
| Reconciler.ReconcileAt | backend/api/cleanup.py:34-46 | row k of the reconciled table is row k with its id cleared when dangling |
| Reconciler.CleanupReconciles | backend/api/cleanup.py:32-46 | after a run in which every save goes through, no website points at an incomplete store; complete and empty rows are untouched; a cleared row differs only in its id |
| Reconciler.CountIsChangedRows | backend/api/cleanup.py:42-45 | the returned count is the number of rows that changed |
| Reconciler.CleanupIdempotent | backend/api/cleanup.py:13-52 | a second run after a clean first run fixes nothing and changes nothing |
| Reconciler.RefusedSaveReportsZero | backend/api/cleanup.py:49-52 | when a save is refused, 0 is reported although the earlier rows were cleared |
| Reconciler.NotNullCleanupFixesNothing | backend/api/cleanup.py:42-52 | with the column declared NOT NULL, any dangling website makes the run report 0 and change nothing |
| Reconciler.NotNullCleanupKeepsTable | backend/api/cleanup.py:32-52 | with the column as declared, the cleanup leaves any table as it found it |
| Reconciler.CleanupOnlyClearsIds | backend/api/cleanup.py:34-46 | each row the cleanup leaves is the row it found or that row with its id cleared |
| Reconciler.NullableCleanupReconcilesAll | backend/api/cleanup.py:13-52 | with a nullable column every dangling website is cleared, and the count is the number of changed rows |

## Left out

- Network I/O, the request delay (`time.sleep`), session headers and logging are not modelled. Fetches and robots replies are oracle answers per URL.
- Robots rules, `urlparse`, `urljoin`, md5 and HTML parsing are oracles. A raising `urlparse` or `urljoin` is modelled as `None`. A page is given as the element lists BeautifulSoup would return, and an exception while parsing it or extracting its text counts as an unreachable page.
- Removal of `script`/`style`/`nav`/`footer`/`header`/`aside` is modelled by its effect. Each paragraph, list item and anchor carries a flag saying whether it lay inside such a tag. The tree is not mutated.
- `crawl_website` iterates a Python set in an unspecified order. The model picks each link nondeterministically, so every property holds for any iteration order.
- Scraper.WebScraper.CrawlWebsite: the breadth-first order is stated only turn by turn, in `CrawlTurn` (the head is popped and new links go behind the rest of the queue). No ensures relates the order of the claims to link distance from the base URL.
- `max_pages` defaults to 50. The default is not modelled; the value is a constructor argument.
- Scraper.IsValidUrl: stated through the two host lemmas rather than its own `ensures`. `urlparse` raising gives `False`, modelled as a `None` netloc.
- The regular expressions of `clean_text` are not modelled as regular expressions. Steps 1 and 2 are written out as functions. Steps 3 and 4 are proved unable to match (`UrlAndEmailStepsAreDead`), given that `/` and `@` are not word characters.
- CSV cells are modelled as strings or integers as read back. NaN is `None`. pandas parsing and `str()` of numbers are not modelled.
- Vectorizer.VectorizeData: the embedding model and Chroma are not modelled. `persists` stands for whether `chroma.sqlite3` exists after `add_documents`, and an exception from Chroma itself is not modelled.
- The retriever's `k=5` limit is not enforced. `retrieve` is an oracle that may return any number of passages.
- The prompt template and the language model are not modelled; `generate` is an oracle.
- Answers are modelled as result values. HTTP status codes and message texts are not modelled.
- The list `list_vectorized_databases` returns in the delete response is not modelled, but its side effect is: it runs the cleanup on the tables after the deletion (`Deletion.AfterListing`). Its `print` output is not modelled.
- `check_ollama_status` and `startup_checks` are reduced to the `ollamaUp` flag.
- Concurrency is not modelled. Two indexing runs for the same site, and reconciliation racing with indexing, are left out.
- The `scrape` endpoint, which orchestrates crawl, CSV export and vectorization, is not part of this model, and neither are the sample-data fallback, `system_info` and `cleanup_databases`.
- Deletion.DeleteVectorizedData: a failure part-way through the four steps (an I/O error) is not modelled. The steps either all run or none does.
- Reconciler.CleanupIncompleteVectorizations: only a refused save ends the run early. Other exceptions (file-system errors) are not modelled.

## Findings

| source | as written | input that shows it | evidently intended | confidence | as-written member | corrected member |
|---|---|---|---|---|---|---|
| backend/api/cleanup.py:42-43 | the dangling website's `vector_db_id` is set to `None` and saved, but `backend/api/models.py:9` declares the column without `null=True`, so the database refuses the NULL; the exception handler then returns 0 | one website whose id names a folder without `chroma.sqlite3` | the id is cleared and counted, which needs the column to be nullable | not executed | Reconciler.NotNullCleanupFixesNothing | Reconciler.NullableCleanupReconcilesAll |

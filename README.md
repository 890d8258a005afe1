# Daily job tracker: the search-and-filter loop

`job_search.py` runs one search on a job board for every configured role
keyword and every configured city, in that nested order. A search URL carries
the keyword, the location and a one-day recency filter (`fromage=1`). Every
posting on the answer page becomes a five-column row:

- the stripped title, company and date;
- the query's location (not a value read from the page);
- a link made of the site `https://www.indeed.com` followed by the anchor's
  href.

A posting is dropped when any excluded word, lower-cased, is a substring of
its lower-cased title. The surviving rows are appended to one list in scan
order. The script does not deduplicate, score or sort them.

This project models that loop in Dafny and proves what it promises.

- `text.dfy`, module `Text`: the three builtins the loop relies on, for
  ASCII input. `Strip` is `str.strip()`, `Lower` is `str.lower()` and
  `Contains(hay, needle)` is `needle in hay`.
- `job_search.dfy`, module `JobSearch`: the configuration constants, the
  search URL, the row, the exclusion test and the specification functions.
  The accumulation is the method `Collect`, with the two outer loops of the
  script, and the method `AppendPage`, with the loop over one page.
  `Search` is `Collect` run on the configured lists. Each
  downloaded and parsed page is an input, `fetch: string -> seq<Job>`. It
  maps a request URL to the postings the parser finds. `Collect` also returns
  the URLs it requested, in request order.
- `scenarios.dfy`, module `Scenarios`: concrete consequences of the
  configured exclusion list and of the missing deduplication.

The script has no inclusion filter, scoring, deduplication, score threshold,
ranking or result cap, so neither does the model. Its strip, link, exclude
and append loop is everything the script does between fetching a page and
writing the file.

## Model

| member | source | states |
|---|---|---|
| `JobSearch.Collect` | job_search.py:21-38 | The two outer loops, which hand each page to `AppendPage`, leave in `results` exactly `Collected(keywords, locations, exclude, fetch)`. They request exactly the URLs of `Queries(keywords, locations)`, one per query, in loop order. |
| `JobSearch.AppendPage` | job_search.py:29-38 | The loop over one page's postings appends to the existing results exactly `KeptRows(page, location, exclude)`: one row per posting whose stripped title is not excluded, in page order. It leaves the earlier rows as they were. |
| `JobSearch.Search` | job_search.py:6-38 | The configured run produces `Collected(Keywords, Locations, Exclude, fetch)`. It issues 24 requests, and no two of them are for the same URL. |
| `JobSearch.CollectedMembership` | job_search.py:23-38 | A row is in the results iff some configured keyword `k` and location `l` returned a posting whose stripped title contains no excluded word, and the row is that posting's row for `l`. This is both soundness and completeness: nothing else drops a posting. |
| `JobSearch.CollectedBlocks` | job_search.py:23-38 | Results are ordered keyword-major, then by location, then in page order. The rows of the query (`a`, `b`) form one contiguous block. All rows of earlier queries come before it and all rows of later queries come after it. |
| `JobSearch.CollectedLinks` | job_search.py:24-38 | Every result row has a link that starts with `https://www.indeed.com`. Its location is a configured location. Its title passes the exclusion test, and the row is the row of some posting for that location. |
| `JobSearch.RowsOfCount` | job_search.py:23-38 | There is no deduplication. The number of rows equals the number of surviving postings summed over all pages, so it is at most the number scraped. It equals the number scraped when no title is excluded. |
| `JobSearch.RowsOfMembership` | job_search.py:23-38 | A row comes from a sequence of queries iff it is the row of a surviving posting on one of their pages, with that query's location. |
| `JobSearch.RowsOfAppend` | job_search.py:23-38 | The rows of consecutive runs of queries are concatenated in order, so earlier queries' rows always come first. |
| `JobSearch.KeptIndices` | job_search.py:29-36 | Gives the positions of the surviving postings of a page, strictly increasing. Every listed position survives the exclusion test, and every surviving position is listed. |
| `JobSearch.KeptRowsByIndex` | job_search.py:29-38 | A page contributes one row per surviving posting, in page order. Row `m` is the row of the `m`-th surviving posting. |
| `JobSearch.KeptRowsMembership` | job_search.py:29-38 | A row comes from a page iff it is the row, for the query's location, of a posting on that page whose title is not excluded. |
| `JobSearch.KeptRowsAllKept` | job_search.py:29-38 | When no posting on a page is excluded, the page contributes exactly one row per posting, duplicates included, in page order. |
| `JobSearch.ExcludedIgnoresCase` | job_search.py:35 | Titles that differ only in letter case get the same accept or reject decision. |
| `JobSearch.ExcludedIgnoresCaseOfWords` | job_search.py:35 | Exclusion lists whose words differ only in letter case decide identically. |
| `JobSearch.ExcludedExtends` | job_search.py:35 | Matching is by substring. A title that contains, up to case, a title that is excluded is itself excluded. |
| `JobSearch.MakeRowCells` | job_search.py:30-38 | The list appended for a posting is its stripped title, stripped company, the query's location, its stripped date and the site followed by the href, in that order. The row can be read back from that list. |
| `JobSearch.Link` | job_search.py:32 | A link is the site followed by the href. It starts with `https://www.indeed.com`, and the href can be read back from it. |
| `JobSearch.UrlShape` | job_search.py:25 | A search URL is `https://www.indeed.com/jobs?q=` followed by the keyword, then `&l=` and the location, and ends with `&fromage=1`. Each piece sits at the position given by the lengths before it. |
| `JobSearch.UrlInjective` | job_search.py:25 | When no keyword contains `&`, different (keyword, location) queries give different URLs. |
| `JobSearch.QueriesLength` | job_search.py:23-24 | The nested loops issue exactly `|keywords| * |locations|` queries. |
| `JobSearch.QueriesAt` | job_search.py:23-24 | Query number `a * |locations| + b` is (`keywords[a]`, `locations[b]`). |
| `JobSearch.QueriesCover` | job_search.py:23-24 | A query is issued iff its keyword and its location are both configured. |
| `JobSearch.QueriesDistinct` | job_search.py:23-24 | With distinct keywords and distinct locations, no query is issued twice. |
| `JobSearch.ConfigurationDistinct` | job_search.py:6-12 | The configured keywords are pairwise different, and so are the configured locations. No keyword contains `&`. |
| `JobSearch.ConfiguredRequests` | job_search.py:6-25 | The configured run has 24 queries, and their URLs are pairwise different. |
| `JobSearch.FirstAmpersandAfter` | job_search.py:25 | In a URL tail, the keyword ends at the first `&` when the keyword holds none. |
| `Text.StripShape` | job_search.py:30-33 | `strip()` returns a contiguous piece of its argument. Everything cut off on either side is whitespace, and the result neither starts nor ends with whitespace. |
| `Text.StripStartShape` | job_search.py:30-33 | Removing leading whitespace cuts off a whitespace-only prefix and stops at the first other character. |
| `Text.StripEndShape` | job_search.py:30-33 | Removing trailing whitespace cuts off a whitespace-only suffix and stops at the last other character. |
| `Text.StripIdempotent` | job_search.py:30-33 | Stripping twice gives the same result as stripping once. |
| `Text.LowerShape` | job_search.py:35 | `lower()` keeps the length and leaves no upper-case letter. Every character of the result equals the input's character up to letter case. |
| `Text.LowerAgrees` | job_search.py:35 | Two strings have equal lower-cased forms iff they differ only in letter case. |
| `Text.ContainsTransitive` | job_search.py:35 | A substring of a substring of `a` is a substring of `a`. |
| `Text.NotContainedFirstChar` | job_search.py:35 | A non-empty string whose first character never occurs in `hay` is not a substring of `hay`. |
| `Scenarios.KeptWithoutExcludedInitials` | job_search.py:14-35 | Every configured excluded word starts with s, l, m or i. So a title whose lower-cased form has none of these letters is never excluded. |
| `Scenarios.SeniorRejectsUpperCase` | job_search.py:14-35 | `"Senior"` rejects `"SENIOR DATA ANALYST"`. |
| `Scenarios.InternRejectsInternal` | job_search.py:14-35 | `"Intern"` rejects `"Internal Audit Analyst"`, because matching is by substring, not by word. |
| `Scenarios.LeadRejectsLeadership` | job_search.py:14-35 | `"Lead"` rejects `"Leadership Analyst"`. |
| `Scenarios.StripRemovesUnitSeparator` | job_search.py:30 | A title starting with the unit separator U+001F is stripped to the rest of the title. |
| `Scenarios.ReporterKept` | job_search.py:14-35 | A posting titled `"Data Reporter"` survives the configured exclusion list. |
| `Scenarios.TwoQueries` | job_search.py:23-24 | Two keywords and one location give exactly the two queries (first keyword, location) and (second keyword, location), in that order. |
| `Scenarios.RepeatedPostingKeptTwice` | job_search.py:21-38 | A surviving posting that the searches for two keywords in the same city both return appears twice in the results, once per search. |

## Left out

- Network access with `requests.get` (job_search.py:26) is left out. Each
  page is the input `fetch(url)`. A transport failure raises in the script
  and has no counterpart here. An error status does not raise, because the
  script never checks it: the error page is parsed like any other and
  usually holds no postings, which `fetch(url) == []` covers.
- Pages are keyed by URL, so two requests for the same URL get the same
  page, which the live site does not promise. The configured run never
  repeats a URL (`ConfiguredRequests`).
- HTML parsing with BeautifulSoup and its CSS selectors (job_search.py:27,
  29-33) is left out. The parser's output is the input sequence of `Job`
  values, holding raw title, company and date text and the anchor's href.
  The crash when `select_one` finds nothing and the `KeyError` for an
  anchor without `href` (job_search.py:30-33) are not modelled.
- Writing `results.csv` with its header row (job_search.py:40-43) and the
  final `print` (job_search.py:45) are file and console output. They are
  not modelled.
- `QUERY_SITES` (job_search.py:16-19) and the `datetime`/`timedelta` imports
  (job_search.py:3) are never used by the script.
- Text.StripShape: models whitespace on ASCII only (space, tab, line feed,
  carriage return, vertical tab, form feed and U+001C to U+001F). Python's
  `str.strip()` also removes the non-ASCII Unicode whitespace characters,
  such as U+0085 and U+00A0.
- Text.LowerShape: models case folding for ASCII letters only. Python's
  `str.lower()` also folds non-ASCII letters, and some of them change length.
- JobSearch.UrlInjective: holds only for keywords without `&`. The script
  inserts keyword and location without URL-encoding, so in general two
  queries can coincide. `ConfigurationDistinct` shows that the configured
  keywords are safe.

# Past-paper scraper, modelled in Dafny

`pastpapers.py` downloads exam-paper PDFs from one listing page per year.
For each year it builds the page URL `<base>/<year>-<school>-exam-papers/`
and fetches it. It keeps the anchors whose `href` ends in `.pdf` in any
case and resolves each one with `urljoin`. Each PDF is then streamed into
`<output>/<year>/<name>`. The name comes from the URL's basename with unsafe
characters replaced by `_` and `.pdf` appended if missing. A file that
already exists is skipped, and a failed download leaves no file behind. A
run covers a range of years, newest first, either in a thread pool or one
after another. It collects a per-year summary `{total, downloaded[, error]}`
and prints the totals.

The Dafny project models this logic:

- `path_text.dfy` (`PathText`): ASCII `str.lower`, the `.pdf` suffix test,
  and POSIX `os.path.basename` and `os.path.join`.
- `filename.dfy` (`Filename`): how a file name is derived and how the
  `filename` argument is settled.
- `links.dfy` (`Links`): the `.pdf` filter of `extract_pdf_links`, over the
  list of anchor hrefs of a page.
- `summary.dfy` (`Summary`): the descending year list, summary entries, the
  worker-pool size and the overall totals.
- `scraper.dfy` (`Scraper`): the disk as a `FileSystem` object (a mutable
  set of file paths), and the `PdfScraper` class with `extract_pdf_links`,
  `download_pdf`, `download_pdfs_for_year` and `download_all_years` as
  methods with loops.
- `wrappers.dfy`: `Option` and `Result`.

The network is a `Network` value. For every URL it gives the listing page a
GET returns (None on a request error) and how streaming a PDF from that URL
ends (`Completed`, or `Failed` before or after the local file was opened).
In `download_all_years` each year's job is an input `job(y)`: the job either
returns `(total, downloaded)` or raises with a message.

Three behaviours of the code are easy to misread; the model follows the
code:

- `extract_pdf_links` resolves hrefs against the scraper's `base_url`, not
  against the listing page's URL.
- Only threaded mode turns a raising job into an `error` entry. In
  sequential mode the exception escapes `download_all_years`, and the model
  returns `Failure(message)` for the newest year whose job raised.
- Threaded mode asks `ThreadPoolExecutor` for `min(len(years), max_workers)`
  workers, and the executor raises `ValueError` when that number is not
  positive. So an empty year range (`start > end`) or `max_workers <= 0`
  makes threaded mode fail, and the model returns `Failure(PoolError)`.
  Sequential mode never reads `max_workers`: for `start > end` it returns an
  empty summary, and otherwise, when no job raises, a summary of the whole
  range.

## Model

| member | source | states |
|---|---|---|
| PathText.LowerChar | pastpapers.py:86 | lowering one character changes only upper-case letters, and each into a lower-case letter |
| PathText.Lower | pastpapers.py:86 | `s.lower()` keeps the length and lowers each character, ASCII only |
| PathText.HasPdfSuffix | pastpapers.py:86 | `s.lower().endswith('.pdf')` (the definition), also used at line 112; only a string of at least four characters passes |
| PathText.PdfSuffixIsLastFour | pastpapers.py:86 | `lower().endswith('.pdf')` holds exactly when the last four characters lower to `.pdf` |
| PathText.AppendedPdfSuffix | pastpapers.py:112-113 | a name with `.pdf` appended always passes the suffix test |
| PathText.Basename | pastpapers.py:109 | `os.path.basename` holds no `/` and is no longer than the path |
| PathText.BasenameIsLastComponent | pastpapers.py:109 | the basename is a suffix of the path, and it is preceded by a `/` whenever it is not the whole path |
| PathText.BasenameOfPlainName | pastpapers.py:109 | a name without `/` is its own basename |
| PathText.PathJoin | pastpapers.py:117-123 | `os.path.join` ends in its second part, keeps the first as a prefix, and an absolute second part replaces the first |
| PathText.BasenameOfJoin | pastpapers.py:121-123 | a plain non-empty name joined onto any directory is the basename of the result |
| PathText.BasenameAfterSeparator | pastpapers.py:109 | after a prefix that is empty or ends in `/`, the basename is the plain name that follows |
| Filename.Sanitize | pastpapers.py:111 | same length; every safe character (`\w`, `.`, `-`) is kept and every other one becomes `_`, so the result is all safe |
| Filename.SanitizeSafeName | pastpapers.py:111 | the substitution leaves an all-safe name unchanged |
| Filename.EnsurePdfSuffix | pastpapers.py:112-113 | the result passes the suffix test; `.pdf` is appended exactly when the test failed, otherwise the name is unchanged |
| Filename.DeriveFilename | pastpapers.py:107-113 | a derived name has only safe characters, no `/`, at least four characters, and ends in `.pdf` in any case |
| Filename.ResolveFilename | pastpapers.py:107-113 | a non-empty caller-supplied name is used verbatim; for None or `""` the name is derived and so has only safe characters, no `/`, and the `.pdf` suffix |
| Filename.DeriveFilenameLength | pastpapers.py:109-113 | the derived name is as long as the basename, or four longer exactly when the sanitised basename lacked the suffix |
| Filename.ExistingSuffixKept | pastpapers.py:111-113 | a basename already ending in `.pdf` in any case (e.g. `.PDF`) keeps that ending through sanitising, gets nothing appended, and keeps its length |
| Filename.PdfSuffixIsSafe | pastpapers.py:111-112 | the last four characters of a name passing the suffix test are all kept by the substitution |
| Filename.SanitizeKeepsPdfSuffix | pastpapers.py:111-112 | a name passing the suffix test still passes it after the substitution |
| Filename.DeriveFilenameIdempotent | pastpapers.py:107-113 | feeding a derived name back through basename, substitution and the suffix rule returns it unchanged |
| Filename.SuppliedNameVerbatim | pastpapers.py:107 | a supplied name is not sanitised, even one containing `/` or `?`; an empty one is replaced by the derived name |
| Links.PdfHrefs | pastpapers.py:84-86 | the kept hrefs are at most as many as the hrefs, and each is a page href ending in `.pdf` in any case |
| Links.PdfHrefsAppend | pastpapers.py:84-89 | the filter distributes over concatenation, so document order is kept |
| Links.PdfHrefsCount | pastpapers.py:84-89 | a `.pdf` href is kept as many times as it occurs (no de-duplication); any other href is never kept |
| Links.PdfHrefsMembership | pastpapers.py:86 | an href is kept exactly when it is on the page and ends in `.pdf` in any case |
| Links.ResolveAppend | pastpapers.py:88-89 | resolving distributes over concatenation |
| Links.PdfLinksStep | pastpapers.py:84-89 | scanning one more anchor appends its resolved href exactly when it ends in `.pdf` |
| Links.PdfLinks | pastpapers.py:77-89 | no links for missing or empty content; otherwise at most one link per href, every link is `urljoin(base_url, h)` for a `.pdf` href `h` of the page, and every such `h` yields a link |
| Scraper.PdfScraper.ExtractPdfLinks | pastpapers.py:67-92 | the loop returns exactly the resolved `.pdf` hrefs in document order, and `[]` for missing or empty content |
| Scraper.TargetPath | pastpapers.py:116-123 | the target path ends in the file name; an absolute file name is the whole path (posix `join` drops the folder); any other name is placed under `join(output, year)` when a year is given and under the output folder otherwise |
| Scraper.TryDownload | pastpapers.py:125-158 | a request is made exactly when the target is absent; success exactly when it existed or the transfer completed; afterwards the target exists exactly on success; no other file changes and no existing file is removed |
| Scraper.SecondDownloadSkips | pastpapers.py:125-128 | after a successful download, a second one to the same path succeeds with no request and no change, so two calls make at most one request |
| Scraper.PdfScraper.DownloadPdf | pastpapers.py:94-158 | settles the name and path, skips an existing file without a request, adds the file on completion, and removes any partial file on a request error, as `TryDownload` states |
| Scraper.YearUrl | pastpapers.py:171 | the page URL starts with the base URL, ends in `-exam-papers/` and has the length of the template |
| Scraper.YearUrlInjective | pastpapers.py:171 | for one base URL and school, different years give different page URLs |
| Scraper.LinkTargetName | pastpapers.py:107-123 | a PDF found for a year lands directly inside the year folder, under its derived name |
| Scraper.Sweep | pastpapers.py:187-190 | after k links the success count is at most k |
| Scraper.SweepFiles | pastpapers.py:153-158 | after the links of a page, the disk holds the old files plus the target of every completed transfer, and nothing else |
| Scraper.SweepCountsCompleted | pastpapers.py:187-190 | a failed download does not stop the rest: the count is at least the completed transfers and at most the number of links |
| Scraper.SweepAllPresent | pastpapers.py:125-128 | when every target already exists, nothing changes and every link counts as downloaded |
| Scraper.PdfScraper.DownloadLinks | pastpapers.py:186-190 | the download loop leaves the disk and the success count as `Sweep` describes |
| Scraper.PdfScraper.DownloadPdfsForYear | pastpapers.py:160-193 | `(0, 0)` with the disk unchanged when the page cannot be fetched, is empty or has no PDF links; otherwise `(len(links), successes)` with `downloaded <= total` |
| Summary.Years | pastpapers.py:209-210 | the years are `end, end-1, ..., start`, exactly the inclusive range, and empty when `start > end` |
| Summary.YearsDescending | pastpapers.py:210 | the year list is strictly descending |
| Summary.EntryFor | pastpapers.py:225-229 | an entry carries an error exactly when its job raised, and then counts `0` found and `0` downloaded; a job with `0 <= downloaded <= total` gives an entry with the same bound |
| Summary.SummaryOf | pastpapers.py:222-229 | the summary is keyed by exactly the years processed; a year has an error entry exactly when its job raised; with well-formed jobs every entry is bounded |
| Summary.PoolSize | pastpapers.py:216 | the pool size is the smaller of the year count and `max_workers` |
| Scraper.PdfScraper.DownloadAllYears | pastpapers.py:195-237 | threaded: `Failure` when the pool size is not positive, otherwise the full summary with error entries; sequential: the same summary when no job raises, otherwise the error of the newest raising year, with every newer year's job having returned |
| Summary.SumTotal | pastpapers.py:287 | `total_found`: the sum of the `total` counts of the entries visited in `order` (the definition); non-negative when every such count is |
| Summary.SumDownloaded | pastpapers.py:288 | `total_downloaded`: the sum of the `downloaded` counts of the entries visited in `order` (the definition); non-negative when every such count is |
| Summary.SumWithout | pastpapers.py:287-288 | the sums are one year's counts plus the sums over the other years |
| Summary.TotalsOrderIndependent | pastpapers.py:287-288 | the overall totals are the same for any order of visiting the years |
| Summary.TotalsBounded | pastpapers.py:287-288 | with bounded entries, `0 <= overall downloaded <= overall found` |
| Summary.SummaryEntriesBounded | pastpapers.py:222-229 | with well-formed jobs, every entry has `0 <= downloaded <= total`, error entries included |
| Summary.RunTotalsBounded | pastpapers.py:287-288 | the insertion order covers every entry, and the overall downloaded count never exceeds the overall found count |

## Left out

- HTTP and sessions (`get_page_content`, `session.get`, headers, timeouts, TLS verification, `verify_ssl`): the `Network` value stands for them. Every request error is one `None` page or one `Failed` transfer.
- The network is deterministic per URL: fetching the same URL twice in a run has the same outcome both times.
- HTML parsing: a page is given as its text and the hrefs of its anchors in document order.
- `urljoin` is a parameter (`Joiner`) with no properties assumed. `extract_base_url` and `urlparse` are not part of this model.
- Streaming in chunks, the `tqdm` progress bar, and the `content-length` header. A malformed `content-length` raises `ValueError`, and an `OSError` can come from writing the file. Both escape `download_pdf` and are not modelled there; at the level of `download_all_years` they are what a `Raised` job outcome stands for.
- `ThreadPoolExecutor` concurrency and `time.sleep`: jobs are an input function. Jobs touching the disk concurrently are not modelled.
- Scraper.PdfScraper.DownloadAllYears: takes no school code. `job(y)` stands for `download_pdfs_for_year(school_code, str(year))`, so the year job and the run over years are linked only through the `(total, downloaded)` bound.
- Directory creation (`os.makedirs` for the output folder and year folders): the disk model holds files only.
- Logging, `argparse`, and the printing in `main`, including the sorted year-by-year listing.
- Python's Unicode `\w` and `str.lower`: the model uses ASCII letters, digits and `_`, and ASCII lowering.
- `os.path` is the POSIX variant.

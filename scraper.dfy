/**
  The `PDFScraper` class: downloading one PDF into the output folder, the
  per-year job that fetches a listing page and downloads every PDF it links
  to, and the run over a range of years.

  The disk is a `FileSystem` object holding the set of paths of existing
  files. The network is a `Network` value: for each URL, the listing page a
  GET returns (or None on any request error), and how streaming a PDF from
  that URL ends.
*/
module Scraper {
  import opened Wrappers
  import opened PathText
  import opened Filename
  import opened Links
  import opened Summary

  /** The local disk: the paths of the files that exist. */
  class FileSystem {
    var files: set<string>

    constructor (files: set<string>)
      ensures this.files == files
    {
      this.files := files;
    }
  }

  /** How streaming a PDF ends: it completes, or a request error is raised,
      either before the local file was opened or after part of it was written. */
  datatype Transfer = Completed | Failed(afterOpen: bool)

  /** What the remote site answers, per URL. */
  datatype Network = Network(page: string -> Option<Html>, download: string -> Transfer)

  /** A string argument that Python treats as true: present and non-empty. */
  predicate Given(s: Option<string>)
  {
    s.Some? && s.value != ""
  }

  /** Where `download_pdf` puts the file: under the year folder when a year
      is given, else directly in the output folder; an absolute file name
      replaces both. */
  function TargetPath(outputFolder: string, year: Option<string>, filename: string): (p: string)
    ensures EndsWith(p, filename)
    ensures |filename| > 0 && filename[0] == '/' ==> p == filename
    ensures (filename == [] || filename[0] != '/') ==>
      var dir := if Given(year) then PathJoin(outputFolder, year.value) else outputFolder;
      |dir| <= |p| && p[..|dir|] == dir
  {
    var dir := if Given(year) then PathJoin(outputFolder, year.value) else outputFolder;
    PathJoin(dir, filename)
  }

  /** The effect of one `download_pdf` call on the disk once its target path
      is known, whether it reached the network, and what it returns. */
  datatype Attempt = Attempt(files: set<string>, ok: bool, fetched: bool)

  function TryDownload(files: set<string>, path: string, t: Transfer): (a: Attempt)
    ensures a.fetched <==> path !in files
    ensures a.ok <==> path in files || t.Completed?
    ensures path in a.files <==> a.ok
    ensures files <= a.files && a.files - {path} == files - {path}
  {
    if path in files then Attempt(files, true, false)
    else match t
      case Completed => Attempt(files + {path}, true, true)
      case Failed(afterOpen) =>
        var partial := if afterOpen then files + {path} else files;
        Attempt(if path in partial then partial - {path} else partial, false, true)
  }

  /** Skip-if-exists: once a download to a path has succeeded, a second one
      to the same path succeeds without a request and changes nothing, so two
      calls make at most one request. */
  lemma SecondDownloadSkips(files: set<string>, path: string, t1: Transfer, t2: Transfer)
    requires TryDownload(files, path, t1).ok
    ensures var a := TryDownload(files, path, t1);
      TryDownload(a.files, path, t2) == Attempt(a.files, true, false)
  {
  }

  /** The listing page of one year: `<base>/<year>-<school>-exam-papers/`. */
  function YearUrl(baseUrl: string, year: string, school: string): (u: string)
    ensures |u| == |baseUrl| + |year| + |school| + 15
    ensures u[..|baseUrl|] == baseUrl && EndsWith(u, "-exam-papers/")
  {
    baseUrl + "/" + year + "-" + school + "-exam-papers/"
  }

  /** For one site and school, different years have different listing pages. */
  lemma {:induction false} YearUrlInjective(baseUrl: string, school: string, y1: string, y2: string)
    requires YearUrl(baseUrl, y1, school) == YearUrl(baseUrl, y2, school)
    ensures y1 == y2
  {
    var u := YearUrl(baseUrl, y1, school);
    var n := |baseUrl| + 1;
    assert |y1| == |y2|;
    assert u[n..n + |y1|] == y1;
    assert YearUrl(baseUrl, y2, school)[n..n + |y2|] == y2;
  }

  /** The path `download_pdf` writes for `url`, given its `year` and
      `filename` arguments. */
  function DownloadTarget(outputFolder: string, year: Option<string>, url: string, filename: Option<string>): string
  {
    TargetPath(outputFolder, year, ResolveFilename(url, filename))
  }

  /** The target of a link found on a year's page: no file name is passed. */
  function LinkTarget(outputFolder: string, year: string, url: string): string
  {
    DownloadTarget(outputFolder, Some(year), url, None)
  }

  /** A PDF found on a year's page lands directly inside the year folder
      (or the output folder, for an empty year) under its derived name. */
  lemma LinkTargetName(outputFolder: string, year: string, url: string)
    ensures Basename(LinkTarget(outputFolder, year, url)) == DeriveFilename(url)
    ensures year != "" ==> var dir := PathJoin(outputFolder, year);
      LinkTarget(outputFolder, year, url) == PathJoin(dir, DeriveFilename(url))
  {
    var name := DeriveFilename(url);
    var dir := if year != "" then PathJoin(outputFolder, year) else outputFolder;
    assert ResolveFilename(url, None) == name;
    assert LinkTarget(outputFolder, year, url) == TargetPath(outputFolder, Some(year), name);
    assert TargetPath(outputFolder, Some(year), name) == PathJoin(dir, name);
    assert |name| >= 4 && '/' !in name;
    BasenameOfJoin(dir, name);
  }

  /** The target path of every link found on a year's page. */
  function LinkTargets(outputFolder: string, year: string, links: seq<string>): seq<string>
  {
    seq(|links|, i requires 0 <= i < |links| => LinkTarget(outputFolder, year, links[i]))
  }

  /** The i-th target, spelled as the path `download_pdf` computes. */
  lemma LinkTargetAt(outputFolder: string, year: string, links: seq<string>, i: nat)
    requires i < |links|
    ensures LinkTargets(outputFolder, year, links)[i] == DownloadTarget(outputFolder, Some(year), links[i], None)
  {
  }

  /** How the transfer of every link ends. */
  function Transfers(net: Network, links: seq<string>): seq<Transfer>
  {
    seq(|links|, i requires 0 <= i < |links| => net.download(links[i]))
  }

  /** The disk and the success count after the first `k` of a year's links,
      given the target path and the transfer outcome of each. */
  datatype Progress = Progress(files: set<string>, downloaded: nat)

  function Sweep(files: set<string>, targets: seq<string>, transfers: seq<Transfer>, k: nat): (r: Progress)
    requires |targets| == |transfers| && k <= |targets|
    ensures r.downloaded <= k
  {
    if k == 0 then Progress(files, 0)
    else
      var before := Sweep(files, targets, transfers, k - 1);
      var a := TryDownload(before.files, targets[k - 1], transfers[k - 1]);
      Progress(a.files, before.downloaded + if a.ok then 1 else 0)
  }

  /** One more link: the download of the k-th target on the disk reached so far. */
  lemma SweepStep(files: set<string>, targets: seq<string>, transfers: seq<Transfer>, k: nat)
    requires |targets| == |transfers| && k < |targets|
    ensures var before := Sweep(files, targets, transfers, k);
      var a := TryDownload(before.files, targets[k], transfers[k]);
      Sweep(files, targets, transfers, k + 1) == Progress(a.files, before.downloaded + if a.ok then 1 else 0)
  {
  }

  /** The targets of those of the first `k` links whose transfer completes. */
  function CompletedTargets(targets: seq<string>, transfers: seq<Transfer>, k: nat): set<string>
    requires |targets| == |transfers| && k <= |targets|
  {
    set i | 0 <= i < k && transfers[i].Completed? :: targets[i]
  }

  /** A download that fails leaves nothing behind and a file already there
      is never removed: after the first `k` links the disk holds exactly the
      files it held before plus the target of every completed transfer. */
  lemma {:induction false} SweepFiles(files: set<string>, targets: seq<string>, transfers: seq<Transfer>, k: nat)
    requires |targets| == |transfers| && k <= |targets|
    ensures Sweep(files, targets, transfers, k).files == files + CompletedTargets(targets, transfers, k)
  {
    if k > 0 {
      SweepFiles(files, targets, transfers, k - 1);
      var before := CompletedTargets(targets, transfers, k - 1);
      var t := if transfers[k - 1].Completed? then {targets[k - 1]} else {};
      assert CompletedTargets(targets, transfers, k) == before + t;
    }
  }

  /** How many of the first `k` transfers complete. */
  function CountCompleted(transfers: seq<Transfer>, k: nat): (n: nat)
    requires k <= |transfers|
    ensures n <= k
  {
    if k == 0 then 0
    else CountCompleted(transfers, k - 1) + if transfers[k - 1].Completed? then 1 else 0
  }

  /** A failed download never stops the rest: every completed transfer
      counts as a success, and so does every link whose file is already
      there; the count lies between the completed transfers and the links. */
  lemma {:induction false} SweepCountsCompleted(files: set<string>, targets: seq<string>, transfers: seq<Transfer>, k: nat)
    requires |targets| == |transfers| && k <= |targets|
    ensures CountCompleted(transfers, k) <= Sweep(files, targets, transfers, k).downloaded <= k
  {
    if k > 0 {
      SweepCountsCompleted(files, targets, transfers, k - 1);
    }
  }

  /** When the target of every link is already on disk, nothing is fetched
      or changed and every link counts as downloaded. */
  lemma {:induction false} SweepAllPresent(files: set<string>, targets: seq<string>, transfers: seq<Transfer>, k: nat)
    requires |targets| == |transfers| && k <= |targets|
    requires forall i :: 0 <= i < k ==> targets[i] in files
    ensures Sweep(files, targets, transfers, k) == Progress(files, k)
  {
    if k > 0 {
      SweepAllPresent(files, targets, transfers, k - 1);
    }
  }

  class PdfScraper {
    const baseUrl: string
    const outputFolder: string
    const maxWorkers: int
    const urljoin: Joiner
    const disk: FileSystem

    constructor (baseUrl: string, outputFolder: string, maxWorkers: int, urljoin: Joiner, disk: FileSystem)
      ensures this.baseUrl == baseUrl && this.outputFolder == outputFolder
      ensures this.maxWorkers == maxWorkers && this.disk == disk
      ensures this.urljoin == urljoin
    {
      this.baseUrl := baseUrl;
      this.outputFolder := outputFolder;
      this.maxWorkers := maxWorkers;
      this.urljoin := urljoin;
      this.disk := disk;
    }

    /** `extract_pdf_links`: the `.pdf` hrefs of the page, in document order
        and with repeats, each resolved against the base URL; no links for a
        missing or empty page. */
    method ExtractPdfLinks(content: Option<Html>) returns (links: seq<string>)
      ensures links == PdfLinks(baseUrl, urljoin, content)
    {
      if IsBlank(content) {
        return [];
      }
      var hrefs := content.value.hrefs;
      links := [];
      for i := 0 to |hrefs|
        invariant links == Resolve(baseUrl, urljoin, PdfHrefs(hrefs[..i]))
      {
        var href := hrefs[i];
        PdfLinksStep(baseUrl, urljoin, hrefs, i);
        if HasPdfSuffix(href) {
          links := links + [urljoin(baseUrl, href)];
        }
      }
      assert hrefs[..|hrefs|] == hrefs;
    }

    /** `download_pdf`: settle the file name and path, skip the request when
        the file exists, otherwise stream the PDF and remove whatever was
        written if the request fails. The ghost `fetched` records whether a request was
        made. */
    method DownloadPdf(url: string, year: Option<string>, filename: Option<string>, net: Network)
      returns (ok: bool, ghost fetched: bool)
      modifies disk
      ensures var a := TryDownload(old(disk.files), DownloadTarget(outputFolder, year, url, filename), net.download(url));
        disk.files == a.files && ok == a.ok && fetched == a.fetched
    {
      var name := ResolveFilename(url, filename);
      var path := TargetPath(outputFolder, year, name);
      if path in disk.files {
        return true, false;
      }
      fetched := true;
      match net.download(url) {
        case Completed =>
          disk.files := disk.files + {path};
          ok := true;
        case Failed(afterOpen) =>
          if afterOpen {
            disk.files := disk.files + {path};
          }
          if path in disk.files {
            disk.files := disk.files - {path};
          }
          ok := false;
      }
    }

    /** `download_pdfs_for_year`: `(0, 0)` when the listing page cannot be
        fetched, is empty or links no PDF; otherwise every link is tried in
        turn and the result is the number of links and of successes. */
    method DownloadPdfsForYear(school: string, year: string, net: Network) returns (total: nat, downloaded: nat)
      modifies disk
      ensures downloaded <= total
      ensures IsBlank(net.page(YearUrl(baseUrl, year, school))) ==>
        total == 0 && downloaded == 0 && disk.files == old(disk.files)
      ensures var links := PdfLinks(baseUrl, urljoin, net.page(YearUrl(baseUrl, year, school)));
        total == |links| &&
        Progress(disk.files, downloaded) ==
          Sweep(old(disk.files), LinkTargets(outputFolder, year, links), Transfers(net, links), |links|)
    {
      var content := net.page(YearUrl(baseUrl, year, school));
      if IsBlank(content) {
        return 0, 0;
      }
      var links := ExtractPdfLinks(content);
      if links == [] {
        return 0, 0;
      }
      downloaded := DownloadLinks(year, links, net);
      total := |links|;
    }

    /** The loop of `download_pdfs_for_year` over the links of one page:
        each link is downloaded into the year folder under its derived name,
        and the successes are counted. */
    method DownloadLinks(year: string, links: seq<string>, net: Network) returns (downloaded: nat)
      modifies disk
      ensures Progress(disk.files, downloaded) ==
        Sweep(old(disk.files), LinkTargets(outputFolder, year, links), Transfers(net, links), |links|)
    {
      ghost var targets := LinkTargets(outputFolder, year, links);
      ghost var transfers := Transfers(net, links);
      ghost var files0 := disk.files;
      downloaded := 0;
      for i := 0 to |links|
        invariant Progress(disk.files, downloaded) == Sweep(files0, targets, transfers, i)
      {
        LinkTargetAt(outputFolder, year, links, i);
        SweepStep(files0, targets, transfers, i);
        var ok, _ := DownloadPdf(links[i], Some(year), None, net);
        if ok {
          downloaded := downloaded + 1;
        }
      }
    }

    /** `download_all_years`: `job(y)` is how the job for year `y` ends.
        Threaded mode asks for a pool of `min(len(years), max_workers)`
        workers, which raises when that is not positive, and otherwise
        records every job, a raising one as an error entry. Sequential mode
        runs the years newest first and lets the first exception escape. */
    method DownloadAllYears(start: int, end: int, useThreads: bool, job: int -> JobOutcome)
      returns (r: Result<Summary, string>)
      ensures useThreads ==>
        r == if PoolSize(|Years(start, end)|, maxWorkers) <= 0 then Failure(PoolError)
             else Success(SummaryOf(start, end, job))
      ensures !useThreads && r.Success? ==>
        r.value == SummaryOf(start, end, job) && forall y :: start <= y <= end ==> job(y).Returned?
      ensures !useThreads && r.Failure? ==>
        exists y :: start <= y <= end && job(y) == Raised(r.error) &&
          forall z :: y < z <= end ==> job(z).Returned?
    {
      var years := Years(start, end);
      var summary: Summary := map[];
      if useThreads && PoolSize(|years|, maxWorkers) <= 0 {
        return Failure(PoolError);
      }
      for i := 0 to |years|
        invariant forall y :: y in summary <==> end - i < y <= end && start <= y
        invariant forall y :: y in summary ==> summary[y] == EntryFor(job(y))
        invariant !useThreads ==> forall y :: y in summary ==> job(y).Returned?
      {
        var year := years[i];
        match job(year) {
          case Returned(total, successful) =>
            summary := summary[year := YearEntry(total, successful, None)];
          case Raised(message) =>
            if !useThreads {
              return Failure(message);
            }
            summary := summary[year := YearEntry(0, 0, Some(message))];
        }
      }
      assert summary == SummaryOf(start, end, job);
      return Success(summary);
    }
  }
}

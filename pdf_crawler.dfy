/**
 * The crawl controller: selecting links by the user's filter option, the fallback
 * link search, preparing and collecting downloads, and the result record of one
 * crawl. The browser, the transport and the thread pool are inputs: what they
 * returned, and the order in which the downloads completed.
 */
module PdfCrawler {
  import opened Wrappers
  import opened Text
  import opened Seqs
  import opened Urls
  import UrlHandler
  import opened PlaywrightBrowser
  import FileManagement

  // ---------------------------------------------------------------------------
  // The link filter
  // ---------------------------------------------------------------------------

  /** The prefixes option "1" looks for: figure and table captions. */
  const CaptionPrefixes: seq<string> := ["圖", "表", "figure", "table"]

  /** `s.startswith(prefixes)` with a tuple of prefixes. */
  predicate StartsWithAny(s: string, prefixes: seq<string>) {
    exists k :: 0 <= k < |prefixes| && StartsWith(s, prefixes[k])
  }

  /** The lower-cased keyword occurs in the lower-cased filename or text. */
  predicate MatchesKeyword(link: PdfLink, keyword: string) {
    Contains(LowerStr(link.filename), LowerStr(keyword)) || Contains(LowerStr(link.text), LowerStr(keyword))
  }

  /**
   * Whether `_filter_pdf_links` keeps a link under an option other than "3". An
   * absent keyword list is the empty one: both are falsy.
   */
  predicate Keep(link: PdfLink, option: string, keywords: seq<string>) {
    if option == "1" then
      StartsWithAny(LowerStr(link.filename), CaptionPrefixes) || StartsWithAny(LowerStr(link.text), CaptionPrefixes)
    else if option == "2" && keywords != [] then
      exists k :: 0 <= k < |keywords| && MatchesKeyword(link, keywords[k])
    else false
  }

  function Keeper(option: string, keywords: seq<string>): PdfLink -> bool {
    link => Keep(link, option, keywords)
  }

  /** The links `_filter_pdf_links` returns: all of them for option "3", else those kept. */
  function FilterLinks(links: seq<PdfLink>, option: string, keywords: seq<string>): seq<PdfLink> {
    if option == "3" then links else Filter(links, Keeper(option, keywords))
  }

  /** The keyword loop with its `break`. */
  method AnyKeyword(link: PdfLink, keywords: seq<string>) returns (found: bool)
    ensures found <==> exists k :: 0 <= k < |keywords| && MatchesKeyword(link, keywords[k])
  {
    for k := 0 to |keywords|
      invariant forall m :: 0 <= m < k ==> !MatchesKeyword(link, keywords[m])
    {
      if MatchesKeyword(link, keywords[k]) {
        return true;
      }
    }
    return false;
  }

  /** `PDFCrawler._filter_pdf_links`. */
  method FilterPdfLinks(links: seq<PdfLink>, option: string, keywords: seq<string>) returns (filtered: seq<PdfLink>)
    ensures filtered == FilterLinks(links, option, keywords)
  {
    if option == "3" {
      return links;
    }
    ghost var keep := Keeper(option, keywords);
    filtered := [];
    for i := 0 to |links|
      invariant filtered == Filter(links[..i], keep)
    {
      var filename, text := LowerStr(links[i].filename), LowerStr(links[i].text);
      var matched := false;
      if option == "1" {
        matched := StartsWithAny(filename, CaptionPrefixes) || StartsWithAny(text, CaptionPrefixes);
      } else if option == "2" && keywords != [] {
        matched := AnyKeyword(links[i], keywords);
      }
      assert matched == keep(links[i]);
      FilterSnoc(links[..i], links[i], keep);
      assert links[..i + 1] == links[..i] + [links[i]];
      if matched {
        filtered := filtered + [links[i]];
      }
    }
    assert links[..|links|] == links;
  }

  /**
   * What the filter promises: option "3" keeps everything; any other option keeps
   * exactly the links `Keep` accepts, in their original order; option "2" without
   * keywords and an unknown option keep nothing.
   */
  lemma FilterLinksSpec(links: seq<PdfLink>, option: string, keywords: seq<string>)
    ensures var r := FilterLinks(links, option, keywords);
      && (option == "3" ==> r == links)
      && (option != "3" ==> forall l :: l in r <==> l in links && Keep(l, option, keywords))
      && IsSubsequence(r, links)
      && ((option == "2" && keywords == []) || (option != "1" && option != "2" && option != "3") ==> r == [])
  {
    if option == "3" {
      SubsequenceOfItself(links);
    } else {
      FilterIsSubsequence(links, Keeper(option, keywords));
      if (option == "2" && keywords == []) || (option != "1" && option != "2") {
        FilterNothing(links, Keeper(option, keywords));
      }
    }
  }

  /** Filtering the filtered list again changes nothing. */
  lemma FilterLinksIdempotent(links: seq<PdfLink>, option: string, keywords: seq<string>)
    ensures FilterLinks(FilterLinks(links, option, keywords), option, keywords) == FilterLinks(links, option, keywords)
  {
    if option != "3" {
      FilterIdempotent(links, Keeper(option, keywords));
    }
  }

  // ---------------------------------------------------------------------------
  // URL validation
  // ---------------------------------------------------------------------------

  /**
   * `PDFCrawler._validate_url`: a non-empty http(s) URL with a host, at most 2048
   * characters long. Unlike the URL handler's validator it does not ask for a PDF.
   */
  function ValidateUrl(url: string, lib: UrlLib): (r: bool)
    ensures r <==> (&& url != [] && |url| <= UrlHandler.MaxUrlLength
                    && lib.parse(url).netloc != [] && UrlHandler.IsHttpScheme(lib.parse(url).scheme))
  {
    if url == [] then false
    else
      var parsed := lib.parse(url);
      if parsed.scheme == [] || parsed.netloc == [] then false
      else if !UrlHandler.IsHttpScheme(parsed.scheme) then false
      else |url| <= UrlHandler.MaxUrlLength
  }

  /** The URL handler's validator is this one plus the PDF test. */
  lemma ValidatePdfUrlIsValidPdf(url: string, lib: UrlLib)
    ensures UrlHandler.ValidatePdfUrl(url, lib) <==> ValidateUrl(url, lib) && UrlHandler.IsPdfUrl(url, lib)
  {
  }

  function Validator(lib: UrlLib): string -> bool {
    url => ValidateUrl(url, lib)
  }

  /** `PDFCrawler._filter_valid_urls`: the valid URLs, in their original order. */
  function FilterValidUrls(urls: seq<string>, lib: UrlLib): (r: seq<string>)
    ensures forall u :: u in r <==> u in urls && ValidateUrl(u, lib)
    ensures IsSubsequence(r, urls)
  {
    FilterIsSubsequence(urls, Validator(lib));
    Filter(urls, Validator(lib))
  }

  // ---------------------------------------------------------------------------
  // The fallback search
  // ---------------------------------------------------------------------------

  /**
   * The list `_find_pdf_links_directly` returns when both queries succeed: every
   * `.pdf` anchor with an href, duplicates kept, then the `PDF`-text anchors whose
   * URL is not yet listed.
   */
  function DirectResult(ctx: Context, pdfAnchors: seq<Element>, textAnchors: seq<Element>): seq<PdfLink> {
    AddNew(Present(Contributions(pdfAnchors, DirectExtensionMatch, ctx)), Contributions(textAnchors, DirectTextMatch, ctx))
  }

  /**
   * `PDFCrawler._find_pdf_links_directly`. A missing page or a query that raises is
   * caught by the outer `try` and gives `[]`.
   */
  method FindPdfLinksDirectly(browser: Browser, pdfAnchors: Option<seq<Element>>, textAnchors: Option<seq<Element>>,
                              lib: UrlLib, now: nat) returns (links: seq<PdfLink>)
    ensures browser.page.None? || pdfAnchors.None? || textAnchors.None? ==> links == []
    ensures browser.page.Some? && pdfAnchors.Some? && textAnchors.Some? ==>
      links == DirectResult(Context(browser.page.value.url, lib, now), pdfAnchors.value, textAnchors.value)
  {
    if browser.page.None? || pdfAnchors.None? {
      return [];
    }
    var ctx := Context(browser.page.value.url, lib, now);
    links := CollectEach([], pdfAnchors.value, DirectExtensionMatch, ctx);
    if textAnchors.None? {
      return [];
    }
    links := AddEachNew(links, textAnchors.value, DirectTextMatch, ctx);
  }

  /**
   * The fallback list starts with every `.pdf` anchor's record, repeats allowed;
   * the text pass adds no URL twice and lists every URL it found.
   */
  lemma DirectResultShape(ctx: Context, pdfAnchors: seq<Element>, textAnchors: seq<Element>)
    ensures var pass1 := Present(Contributions(pdfAnchors, DirectExtensionMatch, ctx));
      var r := DirectResult(ctx, pdfAnchors, textAnchors);
      && |pass1| <= |r| && r[..|pass1|] == pass1
      && |pass1| == Count(Contributions(pdfAnchors, DirectExtensionMatch, ctx), IsPresent)
      && FreshFrom(r, |pass1|)
      && (forall k :: 0 <= k < |textAnchors| && AnchorLink(textAnchors[k], DirectTextMatch, ctx).Some? ==>
            HasUrl(r, AnchorLink(textAnchors[k], DirectTextMatch, ctx).value.url))
  {
    var c1 := Contributions(pdfAnchors, DirectExtensionMatch, ctx);
    var c2 := Contributions(textAnchors, DirectTextMatch, ctx);
    PresentCount(c1);
    AddNewExtends(Present(c1), c2);
    AddNewFresh(Present(c1), c2);
    AddNewCovers(Present(c1), c2);
    forall k | 0 <= k < |textAnchors| && AnchorLink(textAnchors[k], DirectTextMatch, ctx).Some?
      ensures HasUrl(DirectResult(ctx, pdfAnchors, textAnchors), AnchorLink(textAnchors[k], DirectTextMatch, ctx).value.url)
    {
      assert c2[k] == AnchorLink(textAnchors[k], DirectTextMatch, ctx);
    }
  }

  // ---------------------------------------------------------------------------
  // Downloads
  // ---------------------------------------------------------------------------

  datatype Status = AlreadyExists | Completed | Failed

  /** One entry of the download results: `success`, `url`, `filename`, `status`, `size`, `error_msg`. */
  datatype DownloadResult = DownloadResult(success: bool, url: string, filename: string, status: Status,
                                           size: nat, error: string)

  /** A download task: the URL, the file name to save under, and the link it came from. */
  datatype Task = Task(url: string, filename: string, link: PdfLink)

  /**
   * How one task ended: the file manager saved `size` bytes, it reported an error,
   * or the download raised.
   */
  datatype TaskOutcome = Saved(size: nat) | Refused(error: string) | Raised(error: string)

  /** `if 'valid' not in link_info: link_info['valid'] = True`. */
  function MarkValid(link: PdfLink): (r: PdfLink)
    ensures r.valid.Some?
    ensures r.valid.value <==> link.valid != Some(false)
    ensures r.(valid := link.valid) == link
  {
    if link.valid.None? then link.(valid := Some(true)) else link
  }

  /** A link the loop does not pass over: its `valid` key is absent or true. */
  predicate IsWanted(link: PdfLink) {
    link.valid != Some(false)
  }

  /** The link's own file name, else the one the URL handler derives from its URL. */
  function TaskName(link: PdfLink, lib: UrlLib, now: nat): (r: string)
    ensures r != []
    ensures link.filename != [] ==> r == link.filename
  {
    if link.filename != [] then link.filename else UrlHandler.ExtractFilename(link.url, "", now, lib)
  }

  /** The result recorded for a file that is already in the download directory. */
  function ExistingResult(url: string, filename: string): DownloadResult {
    DownloadResult(true, url, filename, AlreadyExists, 0, "")
  }

  /**
   * What the preparation loop of `_download_pdfs` collects from the links: the
   * `already_exists` results and the download tasks, each in link order.
   * `existing` is the set of names in the download directory.
   */
  function Plan(links: seq<PdfLink>, existing: set<string>, overwrite: bool, lib: UrlLib, now: nat)
    : (plan: (seq<DownloadResult>, seq<Task>))
    decreases |links|
  {
    if links == [] then ([], [])
    else
      var prev := Plan(links[..|links| - 1], existing, overwrite, lib, now);
      var link := MarkValid(links[|links| - 1]);
      if !link.valid.value then prev
      else
        var name := TaskName(link, lib, now);
        if !overwrite && name in existing then (prev.0 + [ExistingResult(link.url, name)], prev.1)
        else (prev.0, prev.1 + [Task(link.url, name, link)])
  }

  /**
   * `_download_single_pdf` and the `except` around `future.result()`: a saved file is
   * `completed` with its size, anything else `failed` with the error.
   */
  function TaskResult(task: Task, outcome: TaskOutcome): (r: DownloadResult)
    ensures r.url == task.url && r.filename == task.filename
    ensures r.success <==> outcome.Saved?
    ensures r.success ==> r.status == Completed && r.size == outcome.size
    ensures !r.success ==> r.status == Failed && r.size == 0 && r.error == outcome.error
  {
    match outcome
    case Saved(size) => DownloadResult(true, task.url, task.filename, Completed, size, "")
    case Refused(error) => DownloadResult(false, task.url, task.filename, Failed, 0, error)
    case Raised(error) => DownloadResult(false, task.url, task.filename, Failed, 0, error)
  }

  /** The task results in completion order. */
  function Completions(tasks: seq<Task>, outcome: Task -> TaskOutcome, order: seq<nat>): (r: seq<DownloadResult>)
    requires forall j :: 0 <= j < |order| ==> order[j] < |tasks|
    ensures |r| == |order|
    ensures forall j :: 0 <= j < |order| ==> r[j] == TaskResult(tasks[order[j]], outcome(tasks[order[j]]))
  {
    seq(|order|, j requires 0 <= j < |order| => TaskResult(tasks[order[j]], outcome(tasks[order[j]])))
  }

  /** One more link, for the loop of `_download_pdfs`. */
  lemma PlanStep(links: seq<PdfLink>, i: nat, existing: set<string>, overwrite: bool, lib: UrlLib, now: nat)
    requires i < |links|
    ensures var prev := Plan(links[..i], existing, overwrite, lib, now);
      var link := MarkValid(links[i]);
      var name := TaskName(link, lib, now);
      Plan(links[..i + 1], existing, overwrite, lib, now)
        == if !link.valid.value then prev
           else if !overwrite && name in existing then (prev.0 + [ExistingResult(link.url, name)], prev.1)
           else (prev.0, prev.1 + [Task(link.url, name, link)])
  {
    assert links[..i + 1][..i] == links[..i];
  }

  /**
   * The preparation loop of `_download_pdfs`: links lacking `valid` are marked valid
   * in place, links marked invalid are passed over, names already in the directory
   * become `already_exists` results unless overwriting, the rest become tasks.
   */
  method PrepareDownloads(links: seq<PdfLink>, existing: set<string>, overwrite: bool, lib: UrlLib, now: nat)
    returns (marked: seq<PdfLink>, skipped: seq<DownloadResult>, tasks: seq<Task>)
    ensures |marked| == |links| && forall k :: 0 <= k < |links| ==> marked[k] == MarkValid(links[k])
    ensures (skipped, tasks) == Plan(links, existing, overwrite, lib, now)
  {
    skipped, tasks, marked := [], [], [];
    for i := 0 to |links|
      invariant (skipped, tasks) == Plan(links[..i], existing, overwrite, lib, now)
      invariant |marked| == i && forall k :: 0 <= k < i ==> marked[k] == MarkValid(links[k])
    {
      PlanStep(links, i, existing, overwrite, lib, now);
      var link := MarkValid(links[i]);
      marked := marked + [link];
      if !link.valid.value {
        continue;
      }
      var filename := link.filename;
      if filename == [] {
        filename := UrlHandler.ExtractFilename(link.url, "", now, lib);
      }
      assert filename == TaskName(link, lib, now);
      if !overwrite && filename in existing {
        skipped := skipped + [ExistingResult(link.url, filename)];
        continue;
      }
      tasks := tasks + [Task(link.url, filename, link)];
    }
    assert links[..|links|] == links;
  }

  /**
   * `PDFCrawler._download_pdfs`. `outcome` is what each download ends with and
   * `order` the order in which the thread pool completes the tasks.
   */
  method DownloadPdfs(links: seq<PdfLink>, existing: set<string>, overwrite: bool, lib: UrlLib, now: nat,
                      outcome: Task -> TaskOutcome, order: seq<nat>)
    returns (marked: seq<PdfLink>, results: seq<DownloadResult>)
    requires IsPermutation(order, |Plan(links, existing, overwrite, lib, now).1|)
    ensures |marked| == |links| && forall k :: 0 <= k < |links| ==> marked[k] == MarkValid(links[k])
    ensures var plan := Plan(links, existing, overwrite, lib, now);
      results == plan.0 + Completions(plan.1, outcome, order)
  {
    var skipped, tasks;
    marked, skipped, tasks := PrepareDownloads(links, existing, overwrite, lib, now);
    results := skipped;
    if tasks == [] {
      assert results == results + [];
      return;
    }
    for j := 0 to |order|
      invariant results == skipped + Completions(tasks, outcome, order[..j])
    {
      var task := tasks[order[j]];
      results := results + [TaskResult(task, outcome(task))];
    }
    assert order[..|order|] == order;
  }

  /** Every link whose `valid` key is absent or true ends up as exactly one skip or one task. */
  lemma {:induction false} PlanPartition(links: seq<PdfLink>, existing: set<string>, overwrite: bool, lib: UrlLib, now: nat)
    ensures var plan := Plan(links, existing, overwrite, lib, now);
      |plan.0| + |plan.1| == Count(links, IsWanted)
    decreases |links|
  {
    if links != [] {
      var init, last := links[..|links| - 1], links[|links| - 1];
      PlanPartition(init, existing, overwrite, lib, now);
      assert links == init + [last];
      CountAppend(init, [last], IsWanted);
    }
  }

  /** Each skip is a successful `already_exists` result for a name in the directory, recorded without `overwrite`. */
  predicate SkipsAreExisting(skipped: seq<DownloadResult>, existing: set<string>, overwrite: bool) {
    forall k :: 0 <= k < |skipped| ==>
      && !overwrite && skipped[k].filename in existing
      && skipped[k].success && skipped[k].status == AlreadyExists
  }

  /** Each task has a non-empty name, new to the directory unless overwriting, and a link marked valid. */
  predicate TasksAreNew(tasks: seq<Task>, existing: set<string>, overwrite: bool) {
    forall k :: 0 <= k < |tasks| ==>
      && (!overwrite ==> tasks[k].filename !in existing)
      && tasks[k].filename != [] && tasks[k].link.valid == Some(true)
  }

  /**
   * Skips only happen without `overwrite_existing` and only for names already in
   * the directory; without it no task targets an existing name.
   */
  lemma {:induction false} PlanEntries(links: seq<PdfLink>, existing: set<string>, overwrite: bool, lib: UrlLib, now: nat)
    ensures SkipsAreExisting(Plan(links, existing, overwrite, lib, now).0, existing, overwrite)
    ensures TasksAreNew(Plan(links, existing, overwrite, lib, now).1, existing, overwrite)
    decreases |links|
  {
    if links != [] {
      var prev := Plan(links[..|links| - 1], existing, overwrite, lib, now);
      PlanEntries(links[..|links| - 1], existing, overwrite, lib, now);
      var link := MarkValid(links[|links| - 1]);
      if link.valid.value {
        var name := TaskName(link, lib, now);
        if !overwrite && name in existing {
          var skipped := prev.0 + [ExistingResult(link.url, name)];
          assert forall k :: 0 <= k < |prev.0| ==> skipped[k] == prev.0[k];
        } else {
          var tasks := prev.1 + [Task(link.url, name, link)];
          assert forall k :: 0 <= k < |prev.1| ==> tasks[k] == prev.1[k];
        }
      }
    }
  }

  predicate Succeeded(r: DownloadResult) {
    r.success
  }

  /**
   * The number of successful results (`pdf_downloaded`) counts every `already_exists`
   * skip and every task whose file was saved.
   */
  lemma DownloadedCount(links: seq<PdfLink>, existing: set<string>, overwrite: bool, lib: UrlLib, now: nat,
                        outcome: Task -> TaskOutcome, order: seq<nat>)
    requires IsPermutation(order, |Plan(links, existing, overwrite, lib, now).1|)
    ensures var plan := Plan(links, existing, overwrite, lib, now);
      var done := Completions(plan.1, outcome, order);
      && Count(plan.0 + done, Succeeded) == |plan.0| + Count(done, Succeeded)
      && |plan.0 + done| == Count(links, IsWanted)
  {
    var plan := Plan(links, existing, overwrite, lib, now);
    var done := Completions(plan.1, outcome, order);
    PlanEntries(links, existing, overwrite, lib, now);
    PlanPartition(links, existing, overwrite, lib, now);
    CountAll(plan.0, Succeeded);
    CountAppend(plan.0, done, Succeeded);
  }

  /** Every task is reported exactly once among the completions. */
  lemma EachTaskReportedOnce(tasks: seq<Task>, outcome: Task -> TaskOutcome, order: seq<nat>, t: nat)
    requires IsPermutation(order, |tasks|)
    requires t < |tasks|
    ensures var done := Completions(tasks, outcome, order);
      && (exists j :: 0 <= j < |done| && order[j] == t && done[j] == TaskResult(tasks[t], outcome(tasks[t])))
      && (forall j, k :: 0 <= j < k < |done| && order[j] == t && order[k] == t ==> false)
  {
    assert t in order;
    var j :| 0 <= j < |order| && order[j] == t;
  }

  // ---------------------------------------------------------------------------
  // One crawl
  // ---------------------------------------------------------------------------

  /**
   * The result record of `crawl_website`: `success`, `url`, `pdf_links_found`,
   * `pdf_links_filtered`, `pdf_downloaded`, `filter_option`, `custom_keywords`,
   * `errors` and `downloads`.
   */
  datatype CrawlResult = CrawlResult(success: bool, url: string, found: nat, filtered: nat, downloaded: nat,
                                     option: string, keywords: seq<string>, errors: seq<string>,
                                     downloads: seq<DownloadResult>)

  /** The one error a crawl records for an exception that ends it. */
  function CrawlError(message: string): string {
    "爬取過程中發生錯誤: " + message
  }

  /** The error recorded when the page cannot be opened. */
  function NavigationError(url: string): string {
    CrawlError("無法導航到頁面: " + url)
  }

  /** The links the crawl goes on with: the search result, or the fallback's when the search found none. */
  function Chosen(found: seq<PdfLink>, direct: seq<PdfLink>): seq<PdfLink> {
    if found == [] then direct else found
  }

  /**
   * `PDFCrawler.crawl_website`. `navigated` is what `navigate_to` returned, `found`
   * what `find_pdf_links` returned, `direct` what the fallback search would return,
   * `download` what `_download_pdfs` returns for the links it is given, and `raised`
   * the message of the exception it raises instead, if it does. The download folder
   * is chosen first, whatever happens afterwards.
   */
  method CrawlWebsite(fm: FileManagement.FileManager, url: string, option: string, keywords: seq<string>,
                      lib: UrlLib, navigated: bool, found: seq<PdfLink>, direct: seq<PdfLink>,
                      download: seq<PdfLink> -> seq<DownloadResult>, raised: Option<string>)
    returns (result: CrawlResult)
    modifies fm`downloadDir
    ensures !fm.createSubfolder || url == [] ==> fm.downloadDir == fm.baseDir
    ensures fm.createSubfolder && url != [] ==>
      fm.downloadDir == FileManagement.SubDir(fm.baseDir, FileManagement.CleanDomain(lib.parse(url).netloc))
    ensures result.url == url && result.option == option && result.keywords == keywords
    ensures var selected := FilterLinks(Chosen(found, direct), option, keywords);
      result.success <==> navigated && (selected == [] || raised.None?)
    ensures !navigated ==>
      && result.errors == [NavigationError(url)]
      && result.found == 0 && result.filtered == 0 && result.downloads == []
    ensures navigated ==>
      && result.found == |Chosen(found, direct)|
      && result.filtered == |FilterLinks(Chosen(found, direct), option, keywords)|
    ensures var selected := FilterLinks(Chosen(found, direct), option, keywords);
      navigated ==> result.errors == if selected != [] && raised.Some? then [CrawlError(raised.value)] else []
    ensures var selected := FilterLinks(Chosen(found, direct), option, keywords);
      result.downloads == if navigated && selected != [] && raised.None? then download(selected) else []
    ensures result.downloaded == Count(result.downloads, Succeeded)
  {
    fm.SetDownloadDir(url, lib);
    result := CrawlResult(false, url, 0, 0, 0, option, keywords, [], []);
    if !navigated {
      result := result.(errors := result.errors + [NavigationError(url)]);
      return;
    }
    var links := found;
    if links == [] {
      links := direct;
    }
    result := result.(found := |links|);
    if links == [] {
      assert FilterLinks(links, option, keywords) == [];
      result := result.(success := true);
      return;
    }
    var filtered := FilterPdfLinks(links, option, keywords);
    result := result.(filtered := |filtered|);
    if filtered == [] {
      result := result.(success := true);
      return;
    }
    if raised.Some? {
      result := result.(errors := result.errors + [CrawlError(raised.value)]);
      return;
    }
    var downloads := download(filtered);
    result := result.(downloads := downloads);
    result := result.(downloaded := Count(downloads, Succeeded));
    result := result.(success := true);
  }
}

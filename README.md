# pdf-downloader, modelled in Dafny

This project models the core of **pdf-downloader**. That program opens a web page in a headless browser and finds the links to PDF files on it. It filters them by file name or link text, downloads them into a folder and can merge the downloaded files into one PDF. The model covers the following parts:

- **File-name and URL utilities** (`URLHandler`): the file-name sanitiser, the PDF-URL classifier and validator, the ordered file-name fallback chain, the URL normaliser, the search-URL builder and the de-duplication of page texts.
- **Link discovery** (`PlaywrightBrowser.find_pdf_links` and `PDFCrawler._find_pdf_links_directly`): list builders over abstract DOM query results. The first pass keeps duplicates; later passes add only URLs not yet listed. This part also covers the link file-name rule, `navigate_to`, and the ordered, first-failure-stops release in `close`.
- **The crawler** (`PDFCrawler`):
  - the three-way link filter;
  - URL validation;
  - the download plan, which marks links valid, skips names already present and builds tasks;
  - the sequentialised completion of those tasks;
  - the result record of `crawl_website`.
- **The file manager** (`FileManager`), a class over a map from paths to file entries. It covers the download folder, unique names, `download_file`'s skip, write and clean-up paths, duplicate detection by an abstract hash, the age/size clean-up and the per-extension statistics.
- **The PDF merger** (`PDFMerger`), a class over a map from paths to documents. Each document is encrypted, unreadable or a list of pages. It covers validity filtering, page collection, the failure cases, the deletion of originals, the directory collection with its filters and sort, and `get_merge_info`.
- **Dynamic configuration** (`DynamicConfigGenerator`):
  - user-agent generation;
  - the layering of headers;
  - the network section of a generated configuration;
  - configuration templates;
  - section updates.
- **The command line** (`main.py`): the folder-name check, the keyword list, the worker-count clamp and `merge_config_with_args`.

Python's dictionaries are association lists (`seq<(string, V)>`). Lookup takes the last binding and assignment replaces in place or appends, so key order is kept as Python keeps it (module `Dicts`). `urllib.parse` is a record of functions passed in (module `Urls`). The clock, the random choices, the HTTP transport, the page's DOM queries, the directory walk and the hash function are also parameters.

## Model

| member | source | states |
|---|---|---|
| UrlHandler.ReplaceIllegal | src/url_handler.py:229-230 | same length; each of `< > : " \| ? * \ /` becomes `_`, every other character is kept |
| UrlHandler.UnderscoredChars | src/url_handler.py:229-233 | once illegal characters and runs of whitespace/underscores are replaced, no illegal or whitespace character is left |
| UrlHandler.StripUnderscoresEnds | src/url_handler.py:234 | stripping `_` leaves no `_` at either end and adds no character |
| UrlHandler.StripUnderscoresNoDoubled | src/url_handler.py:234 | stripping `_` keeps a name free of `__` |
| UrlHandler.UnderscoredNoDoubled | src/url_handler.py:233 | collapsing whitespace/underscore runs leaves no `__` |
| UrlHandler.DotStageShape | src/url_handler.py:237 | collapsing runs of dots keeps the safe characters and the `_` rules and leaves no `..` |
| UrlHandler.StripAndDotStages | src/url_handler.py:234-237 | the strip and dot stages together yield safe characters, no `_` at the ends, no `__`, no `..` |
| UrlHandler.CleanUncappedIsClean | src/url_handler.py:229-237 | the uncapped cleaning of any string is safe, has no `_` at either end, and has no `__` or `..` |
| UrlHandler.CleanFilename | src/url_handler.py:213-243 | empty maps to empty; otherwise the result is clean: at most 200 characters, no illegal or whitespace character, no leading `_`, no `__`, no `..`, and a trailing `_` only where the 200 cap cut (the same code is `FileManager._clean_filename`, src/file_manager.py:103-124) |
| UrlHandler.ReplaceIllegalFixesSafe | src/url_handler.py:229-230 | a name with only safe characters passes the illegal-character step unchanged |
| UrlHandler.UnderscoreSqueezeFixesSafe | src/url_handler.py:233 | a safe name without `__` passes the run-collapsing step unchanged |
| UrlHandler.DotSqueezeFixes | src/url_handler.py:237 | a name without `..` passes the dot step unchanged |
| UrlHandler.CleanFilenameFixesCleanNames | src/url_handler.py:223-243 | cleaning is idempotent: a clean name under 200 characters is returned unchanged |
| UrlHandler.IsPdfUrl | src/url_handler.py:135-155 | true iff (the lower-cased URL contains `.pdf` and the lower-cased path ends with `.pdf`) or it contains `type=pdf`, `format=pdf` or `file=pdf` or it contains `/pdf/` or `/document/` |
| UrlHandler.QueryMarkerImpliesPdf | src/url_handler.py:148 | each query marker contains `pdf`, so the extra `'pdf' in url` test never decides |
| UrlHandler.ContainsLower | src/url_handler.py:137-143 | lower-casing keeps substring occurrences |
| UrlHandler.IsPdfUrlCharacterised | src/url_handler.py:137-155 | when the path occurs in the URL, the classifier is true iff the path ends with `.pdf` (any case), or a query marker, or a path marker is present |
| UrlHandler.ValidatePdfUrl | src/url_handler.py:96-132 | true iff the URL is non-empty, has scheme and host, the scheme is `http` or `https`, it is a PDF URL and it is at most 2048 characters |
| UrlHandler.LookupLast | src/url_handler.py:186 | `dict(parse_qsl(...))[key]`: present iff some pair has the key, and then the value of its last pair |
| UrlHandler.CleanedCandidate | src/url_handler.py:176-182 | a candidate name accepted from a path segment or query value is non-empty and clean |
| UrlHandler.NameFromPath | src/url_handler.py:174-182 | a name taken from the last path segment is non-empty and clean |
| UrlHandler.NameFromQueryKeys | src/url_handler.py:187-194 | a name taken from `file`, `filename` or `name` (first that yields one) is non-empty and clean |
| UrlHandler.NameFromQuery | src/url_handler.py:185-194 | a name taken from the query is non-empty and clean |
| UrlHandler.NameFromText | src/url_handler.py:196-203 | a name from the fallback text has safe characters and ends with `.pdf` in any case; there is none iff the cleaned text is empty |
| UrlHandler.WithPdfExtension | src/url_handler.py:201-202 | appending `.pdf` to a safe name keeps it safe and gives the extension |
| UrlHandler.TimestampName | src/url_handler.py:206 | the last resort is `document_<ts>.pdf`, with safe characters |
| UrlHandler.ExtractFilename | src/url_handler.py:158-210 | the fallback chain in order: exactly the path's name if any, else exactly the query's, else exactly the fallback text's name (ending `.pdf`), else `document_<ts>.pdf`; the result is never empty and has safe characters |
| UrlHandler.SplitOnce | src/url_handler.py:51 | `split('/', 1)`: the head has no `/` and head, `/` and tail rebuild the path |
| UrlHandler.AddScheme | src/url_handler.py:47-61 | a present scheme leaves the record unchanged; a missing one becomes `http`; a bare `host.tld/rest` moves `host.tld` into the host with the rest as a path (or `/`); params, query and fragment are untouched |
| UrlHandler.NormalizePath | src/url_handler.py:64-71 | the path becomes non-empty, starts with `/` and has no `//`; its non-`/` characters are the input's, in order; it ends with `/` iff the input was empty or ended with `/` |
| UrlHandler.Rooted | src/url_handler.py:65-68 | an empty path becomes `/`, a path without a leading `/` gets one; the non-`/` characters and the trailing `/` are kept |
| UrlHandler.SqueezeSlashes | src/url_handler.py:71 | collapsing `/` runs of the rooted path keeps it rooted, its non-`/` characters in order and its trailing `/`, and leaves no `//` |
| Text.SqueezeKeepsOthers | src/url_handler.py:71 | `re.sub(r'/+', '/', …)` neither adds, drops nor reorders any character other than `/` |
| UrlHandler.NormalizeParts | src/url_handler.py:47-81 | the record handed to `urlunparse` is in normal form: scheme (`http` if missing) and host lower-cased, the path is the normalised path of the scheme-repaired record, other parts kept |
| UrlHandler.NormalizePartsIdempotent | src/url_handler.py:47-81 | normalising a normalised record changes nothing |
| UrlHandler.NormalizeUrl | src/url_handler.py:21-88 | empty in, empty out; otherwise the result is `urlunparse` of the normalised record of the stripped URL, joined to the base only when a base is given and the URL has no scheme; that record is in normal form |
| UrlHandler.BuildSearchUrls | src/url_handler.py:353-385 | exactly four URLs per term, in term order: `base?q=`, `?search=`, `?keyword=`, `?query=` followed by the quoted term |
| UrlHandler.DedupTexts | src/url_handler.py:338-343 | the loop with its `seen_texts` set yields the first-occurrence de-duplication |
| UrlHandler.UniqueByTextTexts | src/url_handler.py:338-343 | the kept texts are exactly the input texts not seen before |
| UrlHandler.UniqueByTextDistinct | src/url_handler.py:338-343 | no two kept items share a text |
| UrlHandler.UniqueByTextFirst | src/url_handler.py:338-343 | each kept item is the first input item with its text |
| UrlHandler.UniqueByTextOrder | src/url_handler.py:338-343 | the kept items are a subsequence of the input, in order |
| PlaywrightBrowser.CleanLinkText | src/playwright_browser.py:278-279 | link text with illegal characters and whitespace runs replaced has only safe characters |
| PlaywrightBrowser.LinkFilename | src/playwright_browser.py:250-287 | a path ending in `.pdf` gives its percent-decoded last segment, unsanitised; otherwise the result ends with `.pdf` and has safe characters, and non-empty text gives the cleaned stripped text plus `.pdf` |
| PlaywrightBrowser.AnchorLink | src/playwright_browser.py:139-152 | an anchor contributes a record iff it reads without error and has a non-empty href; the record holds the joined URL, the stripped text, the link file name and the pass kind |
| PlaywrightBrowser.ElementLink | src/playwright_browser.py:186-207 | an element contributes iff it reads, is a `button`, `div` or `span` with a descendant anchor with a non-empty href; the record carries the joined URL, the element's own stripped text, the file name derived from that URL and text, and no `valid` flag |
| PlaywrightBrowser.Contributions | src/playwright_browser.py:136-211 | one candidate per queried element, each what that element contributes to the pass |
| PlaywrightBrowser.PresentCount | src/playwright_browser.py:138-152 | the unchecked pass lists exactly as many records as elements that contribute |
| PlaywrightBrowser.FirstPassKeepsDuplicates | src/playwright_browser.py:138-152 | the first pass keeps two records with the same URL |
| PlaywrightBrowser.CheckedPassDropsDuplicates | src/playwright_browser.py:171-177 | a checked pass keeps only one of two records with the same URL |
| PlaywrightBrowser.AddNewExtends | src/playwright_browser.py:161-211 | a checked pass only appends: the earlier list is a prefix of the result |
| PlaywrightBrowser.AddNewFresh | src/playwright_browser.py:171 | records a checked pass appends have URLs not listed before and distinct from each other |
| PlaywrightBrowser.AddNewCovers | src/playwright_browser.py:171 | after a checked pass every contributed URL is listed |
| PlaywrightBrowser.AddNewFromCandidates | src/playwright_browser.py:171-177 | every appended record is one of the pass's candidates |
| PlaywrightBrowser.AddNewKeepsDistinct | src/playwright_browser.py:171 | a list without repeated URLs stays so after a checked pass |
| PlaywrightBrowser.SearchResultShape | src/playwright_browser.py:134-214 | the result starts with the first pass unchanged, adds only new distinct URLs, and lists every URL passes 2 and 3 contribute |
| PlaywrightBrowser.ReleaseRunStopsAtFailure | src/playwright_browser.py:79-92 | the released handles are a prefix of the held ones in page, context, browser, engine order; none of them failed, and the first failing one ends the run |
| PlaywrightBrowser.Browser.constructor | src/playwright_browser.py:19-34 | a session with the given handles and nothing released |
| PlaywrightBrowser.Browser.ReleaseIfHeld | src/playwright_browser.py:82-89 | one `if handle: close` step: raises iff the held handle fails, otherwise records its release |
| PlaywrightBrowser.Browser.Close | src/playwright_browser.py:79-92 | the handles released are exactly the run up to the first failure |
| PlaywrightBrowser.Browser.NavigateTo | src/playwright_browser.py:94-120 | true iff there is a page and the response exists and is ok |
| PlaywrightBrowser.Browser.FindPdfLinks | src/playwright_browser.py:122-218 | no page is an error (`None`); a failing query gives `[]`; otherwise the three-pass result |
| PlaywrightBrowser.SearchPage | src/playwright_browser.py:134-218 | a failing query gives `[]`, otherwise the three-pass result |
| PlaywrightBrowser.CollectEach | src/playwright_browser.py:138-156 | the unchecked loop appends every contributed record in order |
| PlaywrightBrowser.ListsUrl | src/playwright_browser.py:171 | the `any(...)` scan is true iff the URL is listed |
| PlaywrightBrowser.AddEachNew | src/playwright_browser.py:161-181 | the checked loop yields the checked-pass specification |
| PdfCrawler.AnyKeyword | src/pdf_crawler.py:305-309 | the loop with `break` finds a keyword iff some keyword, lower-cased, is in the lower-cased file name or text |
| PdfCrawler.FilterPdfLinks | src/pdf_crawler.py:271-318 | the filtering loop computes the three-way filter |
| PdfCrawler.FilterLinksSpec | src/pdf_crawler.py:285-318 | option `3` returns the list; otherwise a link is kept iff it qualifies (caption prefix for `1`, keyword for `2`); the result is an ordered subsequence; `2` without keywords or an unknown option gives `[]` |
| PdfCrawler.FilterLinksIdempotent | src/pdf_crawler.py:288-318 | filtering twice is filtering once |
| PdfCrawler.ValidateUrl | src/pdf_crawler.py:530-561 | true iff the URL is non-empty, at most 2048 characters, has a host and an `http`/`https` scheme |
| PdfCrawler.ValidatePdfUrlIsValidPdf | src/pdf_crawler.py:541-558 | the URL handler's validator is the crawler's validator plus the PDF-URL test |
| PdfCrawler.FilterValidUrls | src/pdf_crawler.py:563-573 | keeps exactly the valid URLs, in their order |
| PdfCrawler.FindPdfLinksDirectly | src/pdf_crawler.py:192-269 | a missing page or failing query gives `[]`; otherwise the unchecked `.pdf` pass then the checked text pass |
| PdfCrawler.DirectResultShape | src/pdf_crawler.py:210-265 | the first pass is kept whole as a prefix, one record per contributing anchor; the second adds only new distinct URLs and covers every URL it sees |
| PdfCrawler.MarkValid | src/pdf_crawler.py:340-343 | a link without `valid` becomes valid; an existing flag is kept; nothing else changes |
| PdfCrawler.TaskName | src/pdf_crawler.py:346-350 | the link's file name when it has one, else the one derived from the URL; never empty |
| PdfCrawler.TaskResult | src/pdf_crawler.py:405-457 | one result per task with its URL and name: `completed` with the size iff saved, else `failed` with size 0 and the error |
| PdfCrawler.Completions | src/pdf_crawler.py:379-401 | the results in completion order, each the result of its task |
| PdfCrawler.PrepareDownloads | src/pdf_crawler.py:337-373 | every link is marked valid in place; the skips and tasks are the download plan |
| PdfCrawler.DownloadPdfs | src/pdf_crawler.py:320-403 | the results are the skip results followed by one result per task in the completion order |
| PdfCrawler.PlanPartition | src/pdf_crawler.py:338-370 | every wanted link gives exactly one skip or one task |
| PdfCrawler.PlanEntries | src/pdf_crawler.py:353-370 | a skip happens only without overwrite and for an existing name, as an `already_exists` success; without overwrite no task targets an existing name |
| PdfCrawler.DownloadedCount | src/pdf_crawler.py:173-175 | `pdf_downloaded` counts every skip plus every saved task; one result per wanted link |
| PdfCrawler.EachTaskReportedOnce | src/pdf_crawler.py:381-401 | every task is reported exactly once, with its own result |
| PdfCrawler.CrawlWebsite | src/pdf_crawler.py:89-190 | the download folder is set first, as `set_download_dir` does; navigation failure gives one error, `success` false and zeros; otherwise the direct links are used only when the browser found none, the counts are found and filtered, downloads happen only for a non-empty selection, an exception from the download step gives one error and `success` false with the counts kept, and `pdf_downloaded` counts successful results |
| FileManagement.SubDir | src/file_manager.py:83 | `base / name`: an empty or `.` name leaves the base |
| FileManagement.CleanDomain | src/file_manager.py:79-80 | same length; each character outside word characters, `-` and `.` becomes `_` |
| FileManagement.CleanDomainIdempotent | src/file_manager.py:79-80 | cleaning a cleaned host changes nothing |
| FileManagement.CleanDomainKeepsHostNames | src/file_manager.py:79-80 | a host of letters, digits, `_`, `-`, `.` is kept unchanged |
| FileManagement.SplitExt | src/file_manager.py:143 | `os.path.splitext`: the parts rebuild the name and the extension is empty or a dot-led segment without `/` |
| FileManagement.CandidatePathInjective | src/file_manager.py:146-153 | different counters give different candidate paths |
| FileManagement.JoinedSkipsEmpty | src/file_manager.py:253-255 | skipping empty chunks writes the same bytes as writing them all |
| FileManagement.BucketsAreSound | src/file_manager.py:388-396 | hash buckets have distinct non-empty hashes, are non-empty, and hold only files with that hash |
| FileManagement.BucketsCover | src/file_manager.py:388-396 | every walked file with a non-empty hash is in its bucket |
| FileManagement.DuplicateBucketsFrom | src/file_manager.py:399-401 | each reported group is a bucket with at least two files |
| FileManagement.DuplicateBucketsDistinct | src/file_manager.py:399-401 | reported groups keep distinct hashes |
| FileManagement.DuplicateBucketsSound | src/file_manager.py:399-401 | reported groups stay sound and each holds at least two files |
| FileManagement.DuplicateGroupsDisjoint | src/file_manager.py:385-401 | no path is in two groups; the files of a group share one non-empty hash |
| FileManagement.DuplicateFilesSpec | src/file_manager.py:371-404 | groups have at least two paths sharing a non-empty hash, are disjoint, and hold every walked file with that hash |
| FileManagement.DuplicateBucketsComplete | src/file_manager.py:399-401 | every bucket with at least two files is reported |
| FileManagement.DuplicatesReported | src/file_manager.py:389-401 | two distinct walked files with the same non-empty hash are reported together |
| FileManagement.DuplicateGroupsSpec | src/file_manager.py:389-404 | the groups have at least two files sharing one non-empty hash, and cover every pair of distinct walked files with the same non-empty hash |
| FileManagement.SweepSpec | src/file_manager.py:426-446 | a file is deleted iff it is walked, old or small, and its unlink succeeds; kept files are unchanged; no file is deleted twice |
| FileManagement.ListedFiles | src/file_manager.py:470-471 | the walked paths that are files |
| FileManagement.Suffixes | src/file_manager.py:476 | one extension per listed file |
| FileManagement.Suffix | src/file_manager.py:476 | an extension is empty or starts with `.` |
| FileManagement.StatsStep | src/file_manager.py:470-473 | one walked path is added to the listed files, and its size to the total, iff it is a file |
| FileManagement.StatsAdvance | src/file_manager.py:470-477 | one loop iteration keeps the count, the total size and the per-extension counts equal to those of the paths walked so far |
| FileManagement.GroupsOf | src/file_manager.py:399-401 | the groups are the buckets' path lists |
| FileManagement.TallySum | src/file_manager.py:477 | the per-extension counts sum to the number of files counted |
| FileManagement.TallyDistinct | src/file_manager.py:477 | each extension has one entry |
| FileManagement.TallyCounts | src/file_manager.py:477 | each entry counts its extension's occurrences; an absent extension never occurs |
| FileManagement.DownloadStatsSpec | src/file_manager.py:466-477 | the per-extension counts sum to `total_files`, have distinct keys and count each extension exactly |
| FileManagement.FileManager.constructor | src/file_manager.py:24-35 | the download folder starts as the base folder |
| FileManagement.FileManager.SetDownloadDir | src/file_manager.py:61-91 | the base folder unless subfolders are on and a URL is given; then the base plus the cleaned host |
| FileManagement.FileManager.GetUniqueFilename | src/file_manager.py:126-157 | the name itself when free, else `name_k + ext` for the least free k ≥ 1; never an existing path |
| FileManagement.FileManager.DownloadFile | src/file_manager.py:208-288 | an existing target is a success that changes nothing; a full stream writes the joined chunks and succeeds; any failure reports size 0 and the error; a refused request leaves no file, and a broken stream leaves the partial file only when its `unlink` fails |
| FileManagement.FileManager.FindDuplicateFiles | src/file_manager.py:371-408 | the walk and grouping loops yield the duplicate groups: each has at least two files sharing one non-empty hash, and any two distinct walked files with the same non-empty hash are in one group |
| FileManagement.FileManager.CleanupDownloads | src/file_manager.py:410-456 | the files become the sweep's survivors; the count and size are those of exactly the deleted files |
| FileManagement.FileManager.GetDownloadStats | src/file_manager.py:458-489 | file count, total size, per-extension counts of the walked files, and the folder |
| PdfMerging.ValidPdfs | src/pdf_merger.py:48-55 | the inputs that exist and have the lower-cased suffix `.pdf`, in order |
| PdfMerging.RemoveOriginalsSpec | src/pdf_merger.py:115-128 | deletes exactly the valid inputs still present, not spared and whose unlink succeeds, once each and in input order; all else unchanged |
| PdfMerging.MergedPagesFromReadable | src/pdf_merger.py:77-98 | every merged page comes from a readable, unencrypted valid input |
| PdfMerging.MergeFailures | src/pdf_merger.py:41-105 | the merge fails iff no page was collected, and then nothing on disk changes |
| PdfMerging.MergeSuccess | src/pdf_merger.py:29-138 | otherwise it writes all pages to `<dir>/<name or merged_pdfs>.pdf`, reports the total pages and `len(valid)` as merged, deletes exactly the deletable valid inputs other than the output, and leaves every other file unchanged |
| PdfMerging.OutputDeletedAsWritten | src/pdf_merger.py:115-135 | as written, when the output path is itself a valid input, the delete loop removes the output and the final `stat` fails: the merge reports failure and the output and inputs are gone |
| PdfMerging.MergeInfoPredictsMerge | src/pdf_merger.py:221-236 | `total_pages` equals the pages a merge would collect and `valid_files` is at most the number of valid inputs |
| PdfMerging.CollectedFiles | src/pdf_merger.py:173-198 | the collected files are sorted, a permutation of the walk's matches, exactly the `.pdf` files passing the filter; filters other than `1` and `2` with keywords keep all |
| PdfMerging.InfoStep | src/pdf_merger.py:221-230 | one file adds to the counters iff it is an existing, readable, unencrypted `.pdf` |
| PdfMerging.PdfMerger.constructor | src/pdf_merger.py:19-27 | the merger writes into the given folder |
| PdfMerging.PdfMerger.CollectValid | src/pdf_merger.py:49-55 | the loop yields the valid inputs |
| PdfMerging.PdfMerger.ReadPages | src/pdf_merger.py:72-98 | the loop collects the merged pages and counts them |
| PdfMerging.PdfMerger.DeleteOriginals | src/pdf_merger.py:115-128 | the delete loop, sparing the output, yields the removal specification |
| PdfMerging.PdfMerger.MergePdfs | src/pdf_merger.py:29-147 | the merge outcome with the output protected from deletion |
| PdfMerging.PdfMerger.AnyKeywordIn | src/pdf_merger.py:185 | true iff some lower-cased keyword is in the name |
| PdfMerging.PdfMerger.CollectPdfFiles | src/pdf_merger.py:174-188 | the walk loop keeps exactly the matching `.pdf` files |
| PdfMerging.PdfMerger.MergePdfsInDirectory | src/pdf_merger.py:149-205 | a missing folder or no match fails; otherwise the sorted matches are merged with the output protected from deletion (the corrected merge of the finding below) |
| PdfMerging.PdfMerger.GetMergeInfo | src/pdf_merger.py:207-240 | the file count, readable count, pages and size over the inputs |
| UserAgents.UserAgentTemplates | src/dynamic_config.py:26-43 | every browser type has at least one template |
| UserAgents.VersionRange | src/dynamic_config.py:46-51 | each version range is non-empty: 100–120, safari 15–17 |
| UserAgents.PickTemplate | src/dynamic_config.py:113 | the chosen template is one of the type's templates |
| UserAgents.PickVersion | src/dynamic_config.py:114 | the chosen version is in the type's range |
| UserAgents.ResolveBrowserSpec | src/dynamic_config.py:107-111 | the type used is a known one: the named one when known, `chrome` for an unknown name |
| UserAgents.UserAgentShape | src/dynamic_config.py:97-116 | the user agent is one of the type's templates filled with a version from its range |
| DynamicConfig.FirstSiteSpec | src/dynamic_config.py:130-135 | the site is the first entry whose domain occurs in the URL; none iff no domain occurs |
| DynamicConfig.BaseHeadersDistinct | src/dynamic_config.py:145-152 | the base headers have distinct names |
| DynamicConfig.LayeredSpec | src/dynamic_config.py:145-165 | `User-Agent` is the generated one; else a site header wins, else a language header, else the base header; names stay distinct |
| DynamicConfig.HeadersLayering | src/dynamic_config.py:118-167 | the smart headers layer base, language (explicit, else the site's, else `zh-TW`), site and `User-Agent` in that order |
| DynamicConfig.GetConfigTemplate | src/dynamic_config.py:306-337 | a template names each section once |
| DynamicConfig.TemplateSpec | src/dynamic_config.py:316-337 | every template has the sections download, output, network, browser; an unknown name gives `minimal` |
| DynamicConfig.ApplyTemplateFails | src/dynamic_config.py:355-358 | applying fails iff some template section is present and not a dict |
| DynamicConfig.ApplyTemplateSections | src/dynamic_config.py:355-358 | on success each template section is its old entries updated with the template's, and every other section is unchanged |
| DynamicConfig.ApplyTemplateFailureSticks | src/dynamic_config.py:355-358 | once a section fails, applying the whole template fails |
| DynamicConfig.UpdateConfigSection | src/dynamic_config.py:256-281 | the saved configuration is the section update; success iff it did not raise and the save succeeded |
| DynamicConfig.ApplyConfigTemplate | src/dynamic_config.py:339-364 | the loop over sections yields the template application; success iff no section raised and the save succeeded |
| DynamicConfig.HeadersJson | src/dynamic_config.py:190 | headers become a JSON object of strings, in order |
| DynamicConfig.DynamicNetworkGet | src/dynamic_config.py:187-191 | the dynamic network dict holds exactly `user_agent`, `verify_ssl` and `headers` |
| DynamicConfig.DynamicConfigSpec | src/dynamic_config.py:186-206 | fails iff `network` is present and not a dict; otherwise it sets user agent and headers, keeps `verify_ssl` (default false), keeps other network keys, adds `_dynamic_config`, and leaves every other section unchanged |
| DynamicConfig.FindSiteConfig | src/dynamic_config.py:129-135 | the loop with `break` finds the first matching site |
| DynamicConfig.GenerateSmartHeaders | src/dynamic_config.py:118-167 | the successive `update`s yield the layered headers |
| DynamicConfig.GenerateDynamicConfig | src/dynamic_config.py:169-208 | the generated configuration is the network update of the base with a fresh user agent, the smart headers and the metadata |
| ConfigValues.SectionEntries | src/dynamic_config.py:272-275 | an update raises iff the section is present and not a dict |
| ConfigValues.UpdateSectionSpec | src/dynamic_config.py:272-275 | fails iff the section is present and not a dict; otherwise the section holds updated keys with new values and other keys as before; other sections and the section order are unchanged |
| ConfigValues.AddSectionSpec | main.py:501-506 | a missing section becomes `{}`; a present one, other sections, all settings and the order are unchanged |
| ConfigValues.AssignSettingSpec | main.py:509-512 | assignment succeeds iff the section is a dict; then the key holds the value and every other setting, section and the order are unchanged |
| ConfigValues.AddSectionsSpec | main.py:501-506 | adding three sections where missing creates only those and changes no setting |
| ConfigArgs.AddMissingSections | main.py:501-506 | missing `output`, `download`, `browser` become `{}`; nothing else changes |
| ConfigArgs.AssignOutput | main.py:509-510 | sets `output.base_dir` and `output.create_subfolder`; fails iff `output` is not a dict; nothing else changes |
| ConfigArgs.AssignRunOptions | main.py:511-512 | sets `download.max_workers` and `browser.headless`; fails iff either section is not a dict; nothing else changes |
| ConfigArgs.MergeConfigWithArgs | main.py:486-514 | fails iff one of the three sections is present and not a dict; otherwise `base_dir` is `downloads/<folder>`, `create_subfolder` false, `max_workers` and `headless` are the user's, every other setting and section is unchanged; the input is a value, so it is not modified |
| Cli.WithoutSeparators | main.py:377 | removes exactly the `_` and `-` characters |
| Cli.AcceptFolderNameSpec | main.py:372-381 | an empty answer gives `auto_generated`; a non-empty one is accepted, unchanged, iff it has only letters, digits, `_`, `-` and at least one letter or digit |
| Cli.StripAll | main.py:412 | each piece stripped, in order |
| Cli.ParseKeywordsSpec | main.py:412 | the keywords are the non-empty stripped comma pieces, in typed order; each is non-empty, has no comma and no whitespace at its ends |
| Cli.MaxWorkers | main.py:438-443 | the worker count is always between 1 and 10 |
| Cli.ParseIntRoundTrip | main.py:440 | `int` reads back `str(n)` and `-str(n)` |
| Cli.MaxWorkersOfNumber | main.py:440-441 | a typed number is clamped to 1..10; a negative gives 1 |
| Cli.MaxWorkersNotNumber | main.py:439-443 | an answer with a character other than digits and signs gives 5 |
| Dicts.SetSpec | main.py:509 | `d[k] = v`: the key maps to `v`, every other key keeps its value, the existing keys keep their order and distinct keys stay distinct |
| Dicts.UpdateSpec | src/dynamic_config.py:275 | `d.update(other)`: each key of `other` takes its value, other keys keep theirs |
| Text.SplitJoinRoundTrip | main.py:412 | `str.split(',')` pieces joined back with `,` give the answer |
| Sorting.SortSorts | src/pdf_merger.py:198 | `list.sort()` gives a sorted permutation of the list |

## Left out

- Character classes are ASCII. Python's `str.lower`, `\w` and `str.isalnum` are Unicode-aware; here lower-casing maps only `A`–`Z`, and word and alphanumeric characters are ASCII letters, digits and `_`. Whitespace is Python's full `str.isspace` set.
- Cli.AcceptFolderNameSpec: states acceptance for ASCII letters and digits only; Python's `isalnum` also accepts non-ASCII letters and digits.
- Cli.MaxWorkers: `int()` also accepts `_` between digits and non-ASCII digits; the model reads an optional sign and ASCII digits only.
- `urllib.parse` (`urlparse`, `urlunparse`, `urljoin`, `quote`, `unquote`, `parse_qsl`) is a record of functions passed in, not a parser. An exception inside it is not modelled, so the `except` branches of `normalize_url`, `validate_pdf_url`, `extract_filename_from_url` and `_extract_filename_from_url` do not appear.
- The browser (`start`, `wait_for_page_load`, `click_pdf_link`, `get_page_content`, `take_screenshot`, the fixed sleeps) is outside the model. Each DOM query is an input: a list of element records, or none for a query that raises.
- `check_url_accessible`, the regex scraping in `find_pdf_text_in_html` (only its de-duplication is modelled), `generate_report` and `save_report` are not modelled: they are network I/O and text formatting.
- Times and floating point (`execution_time`, `download_time`, `total_size_mb`, `output_size_mb`, the 0.95 estimate, `min_size_mb`) are not modelled. Timestamps are natural numbers passed in and the minimum size is whole bytes.
- The thread pool of `_download_pdfs` is a sequential loop over a given completion order, which must be a permutation of the tasks. `download_files_batch` and `create_backup` are not modelled.
- `download_file`'s retry decorator is not modelled, because its body catches every exception. The HTTP response is an input: a refusal, or a stream of chunks that may break.
- `calculate_file_hash` is a function passed in; an unreadable file is one whose hash is empty.
- The recursive directory walk (`rglob`) is a listing passed in. Paths are strings joined with `/`, without normalisation, and `rglob`'s case handling is not modelled.
- `mkdir` in `set_download_dir` and in the `PDFMerger` constructor always succeeds, so the `except` fallback to the base folder does not appear. The `get_unique_filename` fallback name on an exception does not appear either.
- A PDF is encrypted, unreadable or a list of pages; pages read before a failure part-way through a file are not modelled. The written output's size is an input.
- Failing `unlink` calls in `cleanup_downloads`, in `download_file`'s clean-up and in the merge's delete loop are a set of paths passed in.
- Configuration file I/O (`load_config`, `save_config`, backups, `hot_reload_config`, `get_config_info`, `_get_default_config`, `create_dynamic_config`) is not modelled. The loaded configuration is an input, the save outcome is a boolean, and a top-level configuration that is not an object is not modelled.
- `random.choice` and `datetime.now` are inputs: choice indices taken modulo the list length, and a timestamp string.
- UserAgents.UserAgentShape: states the result is a template filled with an in-range version; it does not state that no `{version}` placeholder is left, as a property of the template text.
- ConfigArgs.MergeConfigWithArgs: does not state the order of sections and keys in its contract; ConfigValues.AddSectionSpec and ConfigValues.AssignSettingSpec state that order for each step.
- The interactive menus and prompt loops of `main.py` are not modelled; a rejected answer is `None` where the program asks again.
- The `PlaywrightBrowser` constructor's options (headless, slow motion, user agent, headers) and `PDFCrawler`'s constructor and logging setup are not modelled; only the handles `close` releases are state.

## Findings

| source | as written | input that shows it | evidently intended | confidence | as-written member | corrected member |
|---|---|---|---|---|---|---|
| src/pdf_merger.py:115-135 | with `delete_originals`, every valid input that still exists is unlinked after the output is written, and then the output's size is read with `stat` | a folder already holding `<name>.pdf` merged again into the same folder under the output name `<name>` (what `main.py` does by building `PDFMerger(folder)` and calling `merge_pdfs_in_directory(folder)`): the output is one of the inputs, so it is deleted and `stat` raises | the freshly written output is never deleted as an original, and the merge succeeds | not executed | PdfMerging.OutputDeletedAsWritten | PdfMerging.MergeSuccess |

/**
 * `PDFMerger` (src/pdf_merger.py): merging the pages of several PDF files into one
 * file in an output directory, optionally deleting the originals afterwards.
 *
 * The file system is a map from path to what PyPDF2 makes of the file there:
 * encrypted, unreadable, or a sequence of pages. Paths are strings joined with
 * `/` as `pathlib` prints them.
 */
module PdfMerging {
  import opened Seqs
  import opened Text
  import opened Sorting
  import FileManagement
  import PdfCrawler

  /** One page, identified by the file it was first read from and its number there. */
  datatype Page = Page(source: string, number: nat)

  /** What `PdfReader` finds in a file. */
  datatype PdfBody = Encrypted | Unreadable | Pages(pages: seq<Page>)

  /** A file on disk: its content and `stat().st_size`. */
  datatype PdfFile = PdfFile(body: PdfBody, size: nat)

  type Disk = map<string, PdfFile>

  /** The result dict of `merge_pdfs` (`output_size_mb` is left out). */
  datatype MergeResult =
    | MergeFailed(error: string)
    | Merged(outputFile: string, totalPages: nat, filesMerged: nat, deletedOriginals: bool, deletedFiles: seq<string>)

  /** The result dict of `get_merge_info`, with sizes in bytes. */
  datatype MergeInfo = MergeInfo(totalFiles: nat, validFiles: nat, totalPages: nat, totalSize: nat)

  const NoFilesError: string := "沒有PDF文件可以合併"
  const NoValidFilesError: string := "沒有找到有效的PDF文件"
  const NoPagesError: string := "沒有成功讀取任何PDF頁面"
  const MergeErrorPrefix: string := "PDF合併過程中發生錯誤: "
  const DefaultOutputName: string := "merged_pdfs"

  /** The text of the `FileNotFoundError` that `stat` raises on a missing path. */
  function MissingFileError(path: string): string {
    "[Errno 2] No such file or directory: '" + path + "'"
  }

  /** `pdf_path.exists() and pdf_path.suffix.lower() == '.pdf'`. */
  function IsValidPdf(disk: Disk): string -> bool {
    f => f in disk && FileManagement.Suffix(f) == ".pdf"
  }

  /** `valid_pdfs`: the inputs that exist and end in `.pdf`, in input order. */
  function ValidPdfs(files: seq<string>, disk: Disk): (valid: seq<string>)
    ensures forall f :: f in valid <==> f in files && f in disk && FileManagement.Suffix(f) == ".pdf"
  {
    Filter(files, IsValidPdf(disk))
  }

  /** The pages `merge_pdfs` takes from one file: none from a missing, encrypted or unreadable one. */
  function PagesOf(disk: Disk, f: string): seq<Page> {
    if f in disk && disk[f].body.Pages? then disk[f].body.pages else []
  }

  /** The pages of the writer after reading `valid` in order. */
  function MergedPages(valid: seq<string>, disk: Disk): seq<Page>
    decreases |valid|
  {
    if valid == [] then [] else MergedPages(valid[..|valid| - 1], disk) + PagesOf(disk, valid[|valid| - 1])
  }

  /** `output_dir / f"{output_filename}.pdf"`, `merged_pdfs` when no name is given. */
  function OutputPath(outputDir: string, outputFilename: string): string {
    FileManagement.Join(outputDir, (if outputFilename == [] then DefaultOutputName else outputFilename) + ".pdf")
  }

  /**
   * The delete loop of `merge_pdfs` over `valid`: each path that still exists is
   * unlinked and listed, unless unlinking it fails (`undeletable`, only logged) or
   * it is `spared`. Returns the disk afterwards and `deleted_files`.
   */
  function RemoveOriginals(valid: seq<string>, disk: Disk, undeletable: set<string>, spared: set<string>): (Disk, seq<string>)
    decreases |valid|
  {
    if valid == [] then (disk, [])
    else
      var prev := RemoveOriginals(valid[..|valid| - 1], disk, undeletable, spared);
      var f := valid[|valid| - 1];
      if f in prev.0 && f !in undeletable && f !in spared then (prev.0 - {f}, prev.1 + [f]) else prev
  }

  /**
   * What `merge_pdfs` returns and leaves on disk. `writtenSize` is the size of the
   * file PyPDF2 writes. With `spareOutput` false this is the code as written, whose
   * delete loop may unlink the file it has just written; with `spareOutput` true the
   * output path is kept out of the deletion.
   */
  function MergeOutcome(disk: Disk, outputDir: string, files: seq<string>, outputFilename: string,
                        deleteOriginals: bool, undeletable: set<string>, writtenSize: nat, spareOutput: bool): (MergeResult, Disk)
  {
    if files == [] then (MergeFailed(NoFilesError), disk)
    else
      var valid := ValidPdfs(files, disk);
      if valid == [] then (MergeFailed(NoValidFilesError), disk)
      else
        var pages := MergedPages(valid, disk);
        if pages == [] then (MergeFailed(NoPagesError), disk)
        else
          var out := OutputPath(outputDir, outputFilename);
          var written := disk[out := PdfFile(Pages(pages), writtenSize)];
          var after := if deleteOriginals then RemoveOriginals(valid, written, undeletable, if spareOutput then {out} else {}) else (written, []);
          if out !in after.0 then (MergeFailed(MergeErrorPrefix + MissingFileError(out)), after.0)
          else (Merged(out, |pages|, |valid|, deleteOriginals, after.1), after.0)
  }

  /** Readable by `get_merge_info`: exists, ends in `.pdf`, opens and is not encrypted. */
  predicate IsReadablePdf(disk: Disk, f: string) {
    f in disk && FileManagement.Suffix(f) == ".pdf" && disk[f].body.Pages?
  }

  function Readable(disk: Disk): string -> bool {
    f => IsReadablePdf(disk, f)
  }

  /** `total_pages` of `get_merge_info`. */
  function InfoPages(files: seq<string>, disk: Disk): nat
    decreases |files|
  {
    if files == [] then 0
    else
      var f := files[|files| - 1];
      InfoPages(files[..|files| - 1], disk) + (if IsReadablePdf(disk, f) then |disk[f].body.pages| else 0)
  }

  /** `total_size` of `get_merge_info`, in bytes. */
  function InfoSize(files: seq<string>, disk: Disk): nat
    decreases |files|
  {
    if files == [] then 0
    else
      var f := files[|files| - 1];
      InfoSize(files[..|files| - 1], disk) + (if IsReadablePdf(disk, f) then disk[f].size else 0)
  }

  /** The last component of a path. */
  function Basename(p: string): string {
    p[FileManagement.LastIndexOf(p, '/') + 1..]
  }

  /** Some lower-cased keyword occurs in `name`. */
  predicate HasKeyword(name: string, keywords: seq<string>) {
    exists k :: 0 <= k < |keywords| && Contains(name, LowerStr(keywords[k]))
  }

  /** Whether `merge_pdfs_in_directory` takes a `.pdf` file, by its lower-cased name. */
  predicate Selected(name: string, fileFilter: string, keywords: seq<string>) {
    if fileFilter == "1" then PdfCrawler.StartsWithAny(name, PdfCrawler.CaptionPrefixes)
    else if fileFilter == "2" && keywords != [] then HasKeyword(name, keywords)
    else true
  }

  /** A walked path that `rglob("*.pdf")` yields, that is a file, and that the filter selects. */
  predicate IsCollected(disk: Disk, fileFilter: string, keywords: seq<string>, p: string) {
    EndsWith(Basename(p), ".pdf") && p in disk && Selected(LowerStr(Basename(p)), fileFilter, keywords)
  }

  function Collects(disk: Disk, fileFilter: string, keywords: seq<string>): string -> bool {
    p => IsCollected(disk, fileFilter, keywords, p)
  }

  /**
   * What `merge_pdfs_in_directory` returns and leaves on disk. `listing` is every
   * path under the directory (the walk of `rglob`), `isDirectory` whether the
   * directory exists and is one.
   */
  function InDirectoryOutcome(disk: Disk, outputDir: string, directory: string, isDirectory: bool, listing: seq<string>,
                              outputFilename: string, fileFilter: string, keywords: seq<string>,
                              deleteOriginals: bool, undeletable: set<string>, writtenSize: nat): (MergeResult, Disk)
  {
    if !isDirectory then (MergeFailed("目錄不存在: " + directory), disk)
    else
      var found := Filter(listing, Collects(disk, fileFilter, keywords));
      if found == [] then (MergeFailed("在目錄 " + directory + " 中沒有找到符合條件的PDF文件"), disk)
      else MergeOutcome(disk, outputDir, Sort(found), outputFilename, deleteOriginals, undeletable, writtenSize, true)
  }

  // ----- Properties -----

  /** The delete loop removes exactly the listed paths, each once, and nothing else. */
  lemma {:induction false} RemoveOriginalsSpec(valid: seq<string>, disk: Disk, undeletable: set<string>, spared: set<string>)
    ensures var r := RemoveOriginals(valid, disk, undeletable, spared);
      && (forall f :: f in r.1 <==> f in valid && f in disk && f !in undeletable && f !in spared)
      && (forall f :: f in r.0 <==> f in disk && f !in r.1)
      && (forall f :: f in r.0 ==> r.0[f] == disk[f])
      && (forall i, j :: 0 <= i < j < |r.1| ==> r.1[i] != r.1[j])
      && IsSubsequence(r.1, valid)
    decreases |valid|
  {
    if valid != [] {
      var init := valid[..|valid| - 1];
      var f := valid[|valid| - 1];
      assert valid == init + [f];
      RemoveOriginalsSpec(init, disk, undeletable, spared);
      var prev := RemoveOriginals(init, disk, undeletable, spared);
      SubsequenceExtend(prev.1, init, f);
      if f in prev.0 && f !in undeletable && f !in spared {
        SubsequenceSnoc(prev.1, init, f);
      }
    }
  }

  /** Every page of the output was read, in order, from a valid input that opened and is not encrypted. */
  lemma {:induction false} MergedPagesFromReadable(valid: seq<string>, disk: Disk)
    ensures forall pg :: pg in MergedPages(valid, disk) ==>
      exists f :: f in valid && f in disk && disk[f].body.Pages? && pg in disk[f].body.pages
    decreases |valid|
  {
    if valid != [] {
      var init := valid[..|valid| - 1];
      var f := valid[|valid| - 1];
      MergedPagesFromReadable(init, disk);
      forall pg | pg in MergedPages(valid, disk)
        ensures exists g :: g in valid && g in disk && disk[g].body.Pages? && pg in disk[g].body.pages
      {
        if pg in MergedPages(init, disk) {
          var g :| g in init && g in disk && disk[g].body.Pages? && pg in disk[g].body.pages;
          assert g in valid;
        } else {
          assert pg in PagesOf(disk, f);
          assert f in valid;
        }
      }
    }
  }

  /**
   * `merge_pdfs` fails exactly for an empty list, for no valid input and for no
   * readable page, and then leaves the disk as it was.
   */
  lemma MergeFailures(disk: Disk, outputDir: string, files: seq<string>, outputFilename: string,
                      deleteOriginals: bool, undeletable: set<string>, writtenSize: nat)
    ensures var (r, after) := MergeOutcome(disk, outputDir, files, outputFilename, deleteOriginals, undeletable, writtenSize, true);
      && (r.MergeFailed? <==> MergedPages(ValidPdfs(files, disk), disk) == [])
      && (r.MergeFailed? ==> after == disk)
  {
    var out := OutputPath(outputDir, outputFilename);
    var valid := ValidPdfs(files, disk);
    if files == [] {
      assert valid == [];
    }
    if valid != [] && MergedPages(valid, disk) != [] {
      var written := disk[out := PdfFile(Pages(MergedPages(valid, disk)), writtenSize)];
      RemoveOriginalsSpec(valid, written, undeletable, {out});
    }
  }

  /**
   * With the output path spared, a merge with at least one readable page succeeds:
   * the output holds every readable page in input order, `files_merged` counts every
   * valid input (encrypted and unreadable ones included), every valid input other
   * than the output is deleted unless unlinking it fails, and nothing else changes.
   */
  lemma MergeSuccess(disk: Disk, outputDir: string, files: seq<string>, outputFilename: string,
                     deleteOriginals: bool, undeletable: set<string>, writtenSize: nat)
    requires MergedPages(ValidPdfs(files, disk), disk) != []
    ensures var (r, after) := MergeOutcome(disk, outputDir, files, outputFilename, deleteOriginals, undeletable, writtenSize, true);
      var valid := ValidPdfs(files, disk);
      var out := OutputPath(outputDir, outputFilename);
      && r.Merged?
      && r.outputFile == out
      && r.totalPages == |MergedPages(valid, disk)|
      && r.filesMerged == |valid|
      && r.deletedOriginals == deleteOriginals
      && out in after && after[out].body == Pages(MergedPages(valid, disk))
      && (forall f :: f in r.deletedFiles <==> deleteOriginals && f in valid && f != out && f !in undeletable)
      && (forall f :: f != out ==> (f in after <==> f in disk && f !in r.deletedFiles))
      && (forall f :: f in after && f != out ==> after[f] == disk[f])
      && IsSubsequence(r.deletedFiles, valid)
  {
    var valid := ValidPdfs(files, disk);
    var out := OutputPath(outputDir, outputFilename);
    var written := disk[out := PdfFile(Pages(MergedPages(valid, disk)), writtenSize)];
    RemoveOriginalsSpec(valid, written, undeletable, {out});
  }

  /**
   * As written, when the output path is itself one of the valid inputs (merging a
   * folder into itself when it already holds `merged_pdfs.pdf`), the delete loop
   * unlinks the file just written and the closing `stat` raises: the merge fails
   * with every deletable input and the output gone.
   */
  lemma OutputDeletedAsWritten(disk: Disk, outputDir: string, files: seq<string>, outputFilename: string,
                               undeletable: set<string>, writtenSize: nat)
    requires MergedPages(ValidPdfs(files, disk), disk) != []
    requires OutputPath(outputDir, outputFilename) in ValidPdfs(files, disk)
    requires OutputPath(outputDir, outputFilename) !in undeletable
    ensures var (r, after) := MergeOutcome(disk, outputDir, files, outputFilename, true, undeletable, writtenSize, false);
      var out := OutputPath(outputDir, outputFilename);
      && r == MergeFailed(MergeErrorPrefix + MissingFileError(out))
      && out !in after
      && (forall f :: f in ValidPdfs(files, disk) && f !in undeletable ==> f !in after)
  {
    var valid := ValidPdfs(files, disk);
    var out := OutputPath(outputDir, outputFilename);
    var written := disk[out := PdfFile(Pages(MergedPages(valid, disk)), writtenSize)];
    RemoveOriginalsSpec(valid, written, undeletable, {});
  }

  /** `get_merge_info` predicts the merge: the same page total, and no more readable files than merged ones. */
  lemma {:induction false} MergeInfoPredictsMerge(files: seq<string>, disk: Disk)
    ensures InfoPages(files, disk) == |MergedPages(ValidPdfs(files, disk), disk)|
    ensures Count(files, Readable(disk)) <= |ValidPdfs(files, disk)|
    decreases |files|
  {
    if files != [] {
      var init := files[..|files| - 1];
      var f := files[|files| - 1];
      assert files == init + [f];
      MergeInfoPredictsMerge(init, disk);
      FilterSnoc(init, f, IsValidPdf(disk));
      CountAppend(init, [f], Readable(disk));
      var valid := ValidPdfs(files, disk);
      if IsValidPdf(disk)(f) {
        assert valid[..|valid| - 1] == ValidPdfs(init, disk);
        assert MergedPages(valid, disk) == MergedPages(ValidPdfs(init, disk), disk) + PagesOf(disk, f);
      } else {
        assert valid == ValidPdfs(init, disk);
      }
    }
  }

  /**
   * `merge_pdfs_in_directory` hands `merge_pdfs` the selected `.pdf` files under the
   * directory, each once per walk entry, in ascending order; a filter other than
   * `"1"`, or `"2"` without keywords, selects every `.pdf` file.
   */
  lemma CollectedFiles(disk: Disk, listing: seq<string>, fileFilter: string, keywords: seq<string>)
    ensures var found := Filter(listing, Collects(disk, fileFilter, keywords));
      && Sorted(Sort(found))
      && multiset(Sort(found)) == multiset(found)
      && (forall p :: p in Sort(found) <==>
            p in listing && p in disk && EndsWith(Basename(p), ".pdf") && Selected(LowerStr(Basename(p)), fileFilter, keywords))
      && (fileFilter != "1" && (fileFilter != "2" || keywords == []) ==>
            forall p :: p in found <==> p in listing && p in disk && EndsWith(Basename(p), ".pdf"))
  {
    SortSorts(Filter(listing, Collects(disk, fileFilter, keywords)));
  }

  /** One more input, for the loop of `get_merge_info`. */
  lemma InfoStep(prefix: seq<string>, f: string, disk: Disk)
    ensures Count(prefix + [f], Readable(disk)) == Count(prefix, Readable(disk)) + (if IsReadablePdf(disk, f) then 1 else 0)
    ensures InfoPages(prefix + [f], disk) == InfoPages(prefix, disk) + (if IsReadablePdf(disk, f) then |disk[f].body.pages| else 0)
    ensures InfoSize(prefix + [f], disk) == InfoSize(prefix, disk) + (if IsReadablePdf(disk, f) then disk[f].size else 0)
  {
    CountAppend(prefix, [f], Readable(disk));
    assert (prefix + [f])[..|prefix|] == prefix;
  }

  // ----- The merger -----

  class PdfMerger {
    const outputDir: string
    var disk: Disk

    /** `PDFMerger(output_dir)` over the files on `disk`. */
    constructor(outputDir: string, disk: Disk)
      ensures this.outputDir == outputDir && this.disk == disk
    {
      this.outputDir := outputDir;
      this.disk := disk;
    }

    /** The first loop of `merge_pdfs`: the inputs that exist and end in `.pdf`. */
    method CollectValid(pdfFiles: seq<string>) returns (validPdfs: seq<string>)
      ensures validPdfs == ValidPdfs(pdfFiles, disk)
    {
      validPdfs := [];
      for i := 0 to |pdfFiles|
        invariant validPdfs == Filter(pdfFiles[..i], IsValidPdf(disk))
      {
        assert pdfFiles[..i + 1] == pdfFiles[..i] + [pdfFiles[i]];
        FilterSnoc(pdfFiles[..i], pdfFiles[i], IsValidPdf(disk));
        var pdfFile := pdfFiles[i];
        if pdfFile in disk && FileManagement.Suffix(pdfFile) == ".pdf" {
          validPdfs := validPdfs + [pdfFile];
        }
      }
      assert pdfFiles[..|pdfFiles|] == pdfFiles;
    }

    /**
     * The reading loop of `merge_pdfs`: every page of each readable, unencrypted
     * file, in order; encrypted and unreadable files are skipped.
     */
    method ReadPages(validPdfs: seq<string>) returns (writer: seq<Page>, totalPages: nat)
      ensures writer == MergedPages(validPdfs, disk)
      ensures totalPages == |writer|
    {
      writer, totalPages := [], 0;
      for i := 0 to |validPdfs|
        invariant writer == MergedPages(validPdfs[..i], disk) && totalPages == |writer|
      {
        assert validPdfs[..i + 1][..i] == validPdfs[..i];
        var pdfFile := validPdfs[i];
        if pdfFile in disk {
          match disk[pdfFile].body
          case Encrypted =>
          case Unreadable =>
          case Pages(pages) =>
            for j := 0 to |pages|
              invariant writer == MergedPages(validPdfs[..i], disk) + pages[..j] && totalPages == |writer|
            {
              assert pages[..j + 1] == pages[..j] + [pages[j]];
              writer := writer + [pages[j]];
              totalPages := totalPages + 1;
            }
            assert pages[..|pages|] == pages;
        }
      }
      assert validPdfs[..|validPdfs|] == validPdfs;
    }

    /**
     * The delete loop of `merge_pdfs`, sparing `outputPath`: unlinks each valid
     * input that still exists, unless unlinking it fails.
     */
    method DeleteOriginals(validPdfs: seq<string>, outputPath: string, undeletable: set<string>)
      returns (deletedFiles: seq<string>)
      modifies this`disk
      ensures (disk, deletedFiles) == RemoveOriginals(validPdfs, old(disk), undeletable, {outputPath})
    {
      deletedFiles := [];
      for i := 0 to |validPdfs|
        invariant (disk, deletedFiles) == RemoveOriginals(validPdfs[..i], old(disk), undeletable, {outputPath})
      {
        assert validPdfs[..i + 1][..i] == validPdfs[..i];
        var pdfFile := validPdfs[i];
        if pdfFile in disk && pdfFile !in undeletable && pdfFile != outputPath {
          disk := disk - {pdfFile};
          deletedFiles := deletedFiles + [pdfFile];
        }
      }
      assert validPdfs[..|validPdfs|] == validPdfs;
    }

    /**
     * `PDFMerger.merge_pdfs`, with the output path kept out of the deletion of the
     * originals. An empty `outputFilename` stands for `None`.
     */
    method MergePdfs(pdfFiles: seq<string>, outputFilename: string, deleteOriginals: bool,
                     undeletable: set<string>, writtenSize: nat) returns (result: MergeResult)
      modifies this`disk
      ensures (result, disk) == MergeOutcome(old(disk), outputDir, pdfFiles, outputFilename,
                                             deleteOriginals, undeletable, writtenSize, true)
    {
      if pdfFiles == [] {
        return MergeFailed(NoFilesError);
      }
      var validPdfs := CollectValid(pdfFiles);
      if validPdfs == [] {
        return MergeFailed(NoValidFilesError);
      }
      var name := if outputFilename == [] then DefaultOutputName else outputFilename;
      var outputPath := FileManagement.Join(outputDir, name + ".pdf");
      var writer, totalPages := ReadPages(validPdfs);
      if totalPages == 0 {
        return MergeFailed(NoPagesError);
      }
      disk := disk[outputPath := PdfFile(Pages(writer), writtenSize)];
      ghost var written := disk;
      var deletedFiles: seq<string> := [];
      if deleteOriginals {
        deletedFiles := DeleteOriginals(validPdfs, outputPath, undeletable);
        RemoveOriginalsSpec(validPdfs, written, undeletable, {outputPath});
      }
      result := Merged(outputPath, totalPages, |validPdfs|, deleteOriginals, deletedFiles);
    }

    /** `any(keyword.lower() in filename for keyword in custom_keywords)`. */
    static method AnyKeywordIn(name: string, keywords: seq<string>) returns (found: bool)
      ensures found <==> HasKeyword(name, keywords)
    {
      for k := 0 to |keywords|
        invariant forall m :: 0 <= m < k ==> !Contains(name, LowerStr(keywords[m]))
      {
        if Contains(name, LowerStr(keywords[k])) {
          return true;
        }
      }
      return false;
    }

    /** The collecting loop of `merge_pdfs_in_directory`, in walk order. */
    method CollectPdfFiles(listing: seq<string>, fileFilter: string, keywords: seq<string>) returns (pdfFiles: seq<string>)
      ensures pdfFiles == Filter(listing, Collects(disk, fileFilter, keywords))
    {
      ghost var collects := Collects(disk, fileFilter, keywords);
      pdfFiles := [];
      for i := 0 to |listing|
        invariant pdfFiles == Filter(listing[..i], collects)
      {
        assert listing[..i + 1] == listing[..i] + [listing[i]];
        FilterSnoc(listing[..i], listing[i], collects);
        var filePath := listing[i];
        if EndsWith(Basename(filePath), ".pdf") && filePath in disk {
          var filename := LowerStr(Basename(filePath));
          var includeFile := true;
          if fileFilter == "1" {
            includeFile := PdfCrawler.StartsWithAny(filename, PdfCrawler.CaptionPrefixes);
          } else if fileFilter == "2" && keywords != [] {
            includeFile := AnyKeywordIn(filename, keywords);
          }
          assert includeFile == IsCollected(disk, fileFilter, keywords, filePath);
          if includeFile {
            pdfFiles := pdfFiles + [filePath];
          }
        }
      }
      assert listing[..|listing|] == listing;
    }

    /**
     * `PDFMerger.merge_pdfs_in_directory` over `listing`, the paths under
     * `directory`; `isDirectory` says whether it exists and is a directory.
     */
    method MergePdfsInDirectory(directory: string, isDirectory: bool, listing: seq<string>, outputFilename: string,
                                fileFilter: string, keywords: seq<string>, deleteOriginals: bool,
                                undeletable: set<string>, writtenSize: nat) returns (result: MergeResult)
      modifies this`disk
      ensures (result, disk) == InDirectoryOutcome(old(disk), outputDir, directory, isDirectory, listing, outputFilename,
                                                   fileFilter, keywords, deleteOriginals, undeletable, writtenSize)
    {
      if !isDirectory {
        return MergeFailed("目錄不存在: " + directory);
      }
      var pdfFiles := CollectPdfFiles(listing, fileFilter, keywords);
      if pdfFiles == [] {
        return MergeFailed("在目錄 " + directory + " 中沒有找到符合條件的PDF文件");
      }
      pdfFiles := Sort(pdfFiles);
      result := MergePdfs(pdfFiles, outputFilename, deleteOriginals, undeletable, writtenSize);
    }

    /** `PDFMerger.get_merge_info`, with sizes in bytes. */
    method GetMergeInfo(pdfFiles: seq<string>) returns (info: MergeInfo)
      ensures info.totalFiles == |pdfFiles|
      ensures info.validFiles == Count(pdfFiles, Readable(disk))
      ensures info.totalPages == InfoPages(pdfFiles, disk)
      ensures info.totalSize == InfoSize(pdfFiles, disk)
    {
      var totalSize, totalPages, validFiles := 0, 0, 0;
      for i := 0 to |pdfFiles|
        invariant validFiles == Count(pdfFiles[..i], Readable(disk))
        invariant totalPages == InfoPages(pdfFiles[..i], disk)
        invariant totalSize == InfoSize(pdfFiles[..i], disk)
      {
        assert pdfFiles[..i + 1] == pdfFiles[..i] + [pdfFiles[i]];
        InfoStep(pdfFiles[..i], pdfFiles[i], disk);
        var pdfFile := pdfFiles[i];
        if pdfFile in disk && FileManagement.Suffix(pdfFile) == ".pdf" {
          match disk[pdfFile].body
          case Pages(pages) =>
            totalPages := totalPages + |pages|;
            totalSize := totalSize + disk[pdfFile].size;
            validFiles := validFiles + 1;
          case _ =>
        }
      }
      assert pdfFiles[..|pdfFiles|] == pdfFiles;
      info := MergeInfo(|pdfFiles|, validFiles, totalPages, totalSize);
    }
  }
}

/**
 * The file manager: where downloads go, how a free name is found, what one
 * download leaves on disk, and the scans over the download directory (duplicate
 * groups, the age and size clean-up, the statistics). The disk is a map from full
 * paths to file entries; the network response, the directory walk, the clock and
 * the hash function are inputs.
 */
module FileManagement {
  import opened Wrappers
  import opened Text
  import opened Seqs
  import opened Urls
  import opened Dicts

  type Bytes = seq<bv8>

  /** A regular file: its bytes and its modification time in whole seconds. */
  datatype FileEntry = FileEntry(content: Bytes, mtime: int)

  /** `directory / name` for a non-empty name. */
  function Join(dir: string, name: string): string {
    dir + "/" + name
  }

  /** `base / name` as `pathlib` builds it: an empty or `.` component leaves the path as it is. */
  function SubDir(base: string, name: string): (r: string)
    ensures name == [] || name == "." ==> r == base
    ensures name != [] && name != "." ==> r == Join(base, name)
  {
    if name == [] || name == "." then base else Join(base, name)
  }

  // ---------------------------------------------------------------------------
  // The per-site sub-directory
  // ---------------------------------------------------------------------------

  /** A character `[\w\-_.]` matches: an ASCII letter or digit, `_`, `-` or `.`. */
  predicate IsDomainChar(c: char) {
    IsAsciiLetter(c) || IsAsciiDigit(c) || c == '_' || c == '-' || c == '.'
  }

  /** `re.sub(r'[<>:"|?*\\/]', '_', ...)` then `re.sub(r'[^\w\-_.]', '_', ...)`, on the host. */
  function CleanDomain(domain: string): (r: string)
    ensures |r| == |domain|
    ensures forall i :: 0 <= i < |r| ==> IsDomainChar(r[i])
    ensures forall i :: 0 <= i < |r| ==> r[i] == if IsDomainChar(domain[i]) then domain[i] else '_'
  {
    var first := seq(|domain|, i requires 0 <= i < |domain| =>
      if IllegalInName(domain[i]) then '_' else domain[i]);
    seq(|first|, i requires 0 <= i < |first| => if IsDomainChar(first[i]) then first[i] else '_')
  }

  /** The characters of the first substitution. */
  predicate IllegalInName(c: char) {
    c == '<' || c == '>' || c == ':' || c == '"' || c == '|' || c == '?' || c == '*' || c == '\\' || c == '/'
  }

  /** A cleaned host is its own cleaning. */
  lemma CleanDomainIdempotent(domain: string)
    ensures CleanDomain(CleanDomain(domain)) == CleanDomain(domain)
  {
  }

  /** A host made of `[\w\-_.]` characters is kept as it is. */
  lemma CleanDomainKeepsHostNames(domain: string)
    requires forall i :: 0 <= i < |domain| ==> IsDomainChar(domain[i])
    ensures CleanDomain(domain) == domain
  {
  }

  // ---------------------------------------------------------------------------
  // Free names
  // ---------------------------------------------------------------------------

  /** The index of the last `c` in `s`, or -1. */
  function LastIndexOf(s: string, c: char): (r: int)
    ensures -1 <= r < |s|
    ensures r >= 0 ==> s[r] == c
    ensures forall k :: r < k < |s| ==> s[k] != c
    decreases |s|
  {
    if s == [] then -1
    else if s[|s| - 1] == c then |s| - 1
    else LastIndexOf(s[..|s| - 1], c)
  }

  /**
   * `os.path.splitext` with `/` as separator: the extension starts at the last dot of
   * the last component, unless every character before that dot is a dot.
   */
  function SplitExt(p: string): (r: (string, string))
    ensures r.0 + r.1 == p
    ensures r.1 == [] || (r.1[0] == '.' && '/' !in r.1)
  {
    var dot := LastIndexOf(p, '.');
    var sep := LastIndexOf(p, '/');
    if dot > sep && exists k :: sep + 1 <= k < dot && p[k] != '.' then
      assert p[..dot] + p[dot..] == p;
      (p[..dot], p[dot..])
    else
      assert p + [] == p;
      (p, [])
  }

  /** `f"{name}_{counter}{ext}"`. */
  function Candidate(name: string, ext: string, counter: nat): string {
    name + "_" + NatToString(counter) + ext
  }

  /** Different counters give different names in the same directory. */
  lemma CandidatePathInjective(dir: string, name: string, ext: string, a: nat, b: nat)
    requires Join(dir, Candidate(name, ext, a)) == Join(dir, Candidate(name, ext, b))
    ensures a == b
  {
    var sa, sb := NatToString(a), NatToString(b);
    var pa, pb := Join(dir, Candidate(name, ext, a)), Join(dir, Candidate(name, ext, b));
    var start := |dir| + 1 + |name| + 1;
    assert |sa| == |sb|;
    assert pa == dir + "/" + name + "_" + sa + ext;
    assert pb == dir + "/" + name + "_" + sb + ext;
    assert pa[start..start + |sa|] == sa;
    assert pb[start..start + |sb|] == sb;
    NatToStringInjective(a, b);
  }

  lemma SubsetCardinality<T>(a: set<T>, b: set<T>)
    requires a <= b
    ensures |a| <= |b|
  {
    if a != {} {
      var x :| x in a;
      SubsetCardinality(a - {x}, b - {x});
    }
  }

  /** One chunk sequence written out in order. */
  function Joined(chunks: seq<Bytes>): (r: Bytes)
    decreases |chunks|
  {
    if chunks == [] then [] else chunks[0] + Joined(chunks[1..])
  }

  lemma {:induction false} JoinedSnoc(chunks: seq<Bytes>, c: Bytes)
    ensures Joined(chunks + [c]) == Joined(chunks) + c
    decreases |chunks|
  {
    if chunks == [] {
      assert [] + [c] == [c];
      assert [c][1..] == [];
    } else {
      assert (chunks + [c])[1..] == chunks[1..] + [c];
      JoinedSnoc(chunks[1..], c);
    }
  }

  predicate NonEmptyChunk(c: Bytes) {
    c != []
  }

  /** Skipping empty chunks (`if chunk:`) writes the same bytes as writing them all. */
  lemma {:induction false} JoinedSkipsEmpty(chunks: seq<Bytes>)
    ensures Joined(Filter(chunks, NonEmptyChunk)) == Joined(chunks)
    decreases |chunks|
  {
    if chunks != [] {
      JoinedSkipsEmpty(chunks[1..]);
      if chunks[0] == [] {
        assert Filter(chunks, NonEmptyChunk) == Filter(chunks[1..], NonEmptyChunk);
      } else {
        var f := Filter(chunks, NonEmptyChunk);
        assert f == [chunks[0]] + Filter(chunks[1..], NonEmptyChunk);
        assert f[0] == chunks[0] && f[1..] == Filter(chunks[1..], NonEmptyChunk);
      }
    }
  }

  /**
   * What the transport does for one request: `get` or `raise_for_status` raises
   * before any byte arrives, or the body streams as `chunks` and then possibly
   * breaks with an error.
   */
  datatype Response = RequestFailed(error: string) | Streamed(chunks: seq<Bytes>, broken: Option<string>)

  /** The result of `download_file`: `success`, `filepath`, `size`, `error` (empty when none). */
  datatype FileResult = FileResult(success: bool, filepath: string, size: nat, error: string)

  /** The error a failed response reports. */
  function ResponseError(response: Response): string {
    match response
    case RequestFailed(error) => error
    case Streamed(_, broken) => broken.GetOr([])
  }

  // ---------------------------------------------------------------------------
  // Directory scans
  // ---------------------------------------------------------------------------

  /**
   * The `file_hashes` dict of `find_duplicate_files` after walking `listing`: for each
   * non-empty hash, in order of first appearance, the files that have it. `hash`
   * gives "" when hashing fails.
   */
  function Buckets(listing: seq<string>, files: map<string, FileEntry>, hash: Bytes -> string)
    : seq<(string, seq<string>)>
    decreases |listing|
  {
    if listing == [] then []
    else
      var prev := Buckets(listing[..|listing| - 1], files, hash);
      var p := listing[|listing| - 1];
      if p !in files || hash(files[p].content) == [] then prev
      else
        var h := hash(files[p].content);
        var k := IndexOfKey(prev, h);
        if k >= 0 then prev[k := (h, prev[k].1 + [p])] else prev + [(h, [p])]
  }

  /** Each bucket holds files whose hash is its non-empty key, and keys are distinct. */
  predicate BucketsSound(bs: seq<(string, seq<string>)>, files: map<string, FileEntry>, hash: Bytes -> string) {
    && KeysDistinct(bs)
    && (forall i :: 0 <= i < |bs| ==> bs[i].0 != [] && bs[i].1 != [])
    && (forall i, p :: 0 <= i < |bs| && p in bs[i].1 ==> p in files && hash(files[p].content) == bs[i].0)
  }

  lemma {:induction false} BucketsAreSound(listing: seq<string>, files: map<string, FileEntry>, hash: Bytes -> string)
    ensures BucketsSound(Buckets(listing, files, hash), files, hash)
    decreases |listing|
  {
    if listing != [] {
      var prev := Buckets(listing[..|listing| - 1], files, hash);
      BucketsAreSound(listing[..|listing| - 1], files, hash);
      var p := listing[|listing| - 1];
      if p in files && hash(files[p].content) != [] {
        var h := hash(files[p].content);
        var k := IndexOfKey(prev, h);
        var r := Buckets(listing, files, hash);
        if k >= 0 {
          assert r == prev[k := (h, prev[k].1 + [p])];
          forall i, q | 0 <= i < |r| && q in r[i].1 ensures q in files && hash(files[q].content) == r[i].0 {
            if i == k && q !in prev[k].1 {
              assert q == p;
            }
          }
        } else {
          assert r == prev + [(h, [p])];
        }
      }
    }
  }

  /** Every walked file with a non-empty hash is in the bucket of its hash. */
  predicate CoversListing(bs: seq<(string, seq<string>)>, listing: seq<string>, files: map<string, FileEntry>,
                          hash: Bytes -> string) {
    forall p :: p in listing && p in files && hash(files[p].content) != [] ==>
      exists i :: 0 <= i < |bs| && bs[i].0 == hash(files[p].content) && p in bs[i].1
  }

  lemma {:induction false} BucketsCover(listing: seq<string>, files: map<string, FileEntry>, hash: Bytes -> string)
    ensures CoversListing(Buckets(listing, files, hash), listing, files, hash)
    decreases |listing|
  {
    if listing != [] {
      var init := listing[..|listing| - 1];
      var prev := Buckets(init, files, hash);
      BucketsCover(init, files, hash);
      var last := listing[|listing| - 1];
      var bs := Buckets(listing, files, hash);
      forall p | p in listing && p in files && hash(files[p].content) != []
        ensures exists i :: 0 <= i < |bs| && bs[i].0 == hash(files[p].content) && p in bs[i].1
      {
        var h := hash(files[p].content);
        if last in files && hash(files[last].content) != [] {
          var hl := hash(files[last].content);
          var k := IndexOfKey(prev, hl);
          if p == last {
            if k >= 0 {
              assert bs[k].0 == h && p in bs[k].1;
            } else {
              assert bs[|prev|].0 == h && p in bs[|prev|].1;
            }
          } else {
            assert p in init by {
              assert listing == init + [last];
            }
            var i :| 0 <= i < |prev| && prev[i].0 == h && p in prev[i].1;
            assert bs[i].0 == h && p in bs[i].1;
          }
        } else {
          assert p in init by {
            assert listing == init + [last];
          }
        }
      }
    }
  }

  /** The buckets `find_duplicate_files` reports: those with more than one file, in dict order. */
  function DuplicateBuckets(bs: seq<(string, seq<string>)>): seq<(string, seq<string>)>
    decreases |bs|
  {
    if bs == [] then []
    else
      var last := bs[|bs| - 1];
      DuplicateBuckets(bs[..|bs| - 1]) + (if |last.1| > 1 then [last] else [])
  }

  /** Every entry of `d` has at least two files and is an entry of `bs`. */
  predicate DrawnFrom(d: seq<(string, seq<string>)>, bs: seq<(string, seq<string>)>) {
    forall i :: 0 <= i < |d| ==> |d[i].1| >= 2 && exists m :: 0 <= m < |bs| && d[i] == bs[m]
  }

  /** The reported buckets are buckets of the walk with at least two files. */
  lemma {:induction false} DuplicateBucketsFrom(bs: seq<(string, seq<string>)>)
    ensures DrawnFrom(DuplicateBuckets(bs), bs)
    decreases |bs|
  {
    if bs != [] {
      var init, last := bs[..|bs| - 1], bs[|bs| - 1];
      DuplicateBucketsFrom(init);
      var prev := DuplicateBuckets(init);
      var d := DuplicateBuckets(bs);
      forall i | 0 <= i < |d| ensures |d[i].1| >= 2 && exists m :: 0 <= m < |bs| && d[i] == bs[m] {
        if i < |prev| {
          var m :| 0 <= m < |init| && prev[i] == init[m];
          assert d[i] == bs[m];
        } else {
          assert d[i] == bs[|bs| - 1];
        }
      }
    }
  }

  /** `b` is one of the entries of `d`. */
  predicate Reported(d: seq<(string, seq<string>)>, b: (string, seq<string>)) {
    exists i :: 0 <= i < |d| && d[i] == b
  }

  /** Every bucket with at least two files is reported. */
  lemma {:induction false} DuplicateBucketsComplete(bs: seq<(string, seq<string>)>)
    ensures forall m :: 0 <= m < |bs| && |bs[m].1| >= 2 ==> Reported(DuplicateBuckets(bs), bs[m])
    decreases |bs|
  {
    if bs != [] {
      var init := bs[..|bs| - 1];
      DuplicateBucketsComplete(init);
      var prev, d := DuplicateBuckets(init), DuplicateBuckets(bs);
      forall m | 0 <= m < |bs| && |bs[m].1| >= 2 ensures Reported(d, bs[m]) {
        if m < |init| {
          assert init[m] == bs[m];
          assert Reported(prev, init[m]);
          var i :| 0 <= i < |prev| && prev[i] == init[m];
          assert d[i] == bs[m];
        } else {
          assert d == prev + [bs[m]];
          assert d[|prev|] == bs[m];
        }
      }
    }
  }

  /** The reported buckets have distinct hashes. */
  lemma {:induction false} DuplicateBucketsDistinct(bs: seq<(string, seq<string>)>)
    requires KeysDistinct(bs)
    ensures KeysDistinct(DuplicateBuckets(bs))
    decreases |bs|
  {
    if bs != [] {
      var init, last := bs[..|bs| - 1], bs[|bs| - 1];
      assert KeysDistinct(init) by {
        assert forall i :: 0 <= i < |init| ==> init[i] == bs[i];
      }
      DuplicateBucketsDistinct(init);
      DuplicateBucketsFrom(init);
      var prev := DuplicateBuckets(init);
      if |last.1| > 1 {
        var d := prev + [last];
        assert DuplicateBuckets(bs) == d;
        forall i, j | 0 <= i < j < |d| ensures d[i].0 != d[j].0 {
          if j == |prev| {
            var m :| 0 <= m < |init| && prev[i] == init[m];
            assert bs[m].0 != bs[|bs| - 1].0;
          } else {
            assert d[i] == prev[i] && d[j] == prev[j];
          }
        }
      }
    }
  }

  /** The reported buckets are themselves sound, each with at least two files. */
  lemma DuplicateBucketsSound(bs: seq<(string, seq<string>)>, files: map<string, FileEntry>, hash: Bytes -> string)
    requires BucketsSound(bs, files, hash)
    ensures BucketsSound(DuplicateBuckets(bs), files, hash)
    ensures forall i :: 0 <= i < |DuplicateBuckets(bs)| ==> |DuplicateBuckets(bs)[i].1| >= 2
  {
    DuplicateBucketsFrom(bs);
    DuplicateBucketsDistinct(bs);
  }

  /** No file lies in two reported groups, and each group's files share one non-empty hash. */
  lemma DuplicateGroupsDisjoint(d: seq<(string, seq<string>)>, files: map<string, FileEntry>, hash: Bytes -> string)
    requires BucketsSound(d, files, hash)
    ensures forall i, j, p :: 0 <= i < |d| && 0 <= j < |d| && p in d[i].1 && p in d[j].1 ==> i == j
    ensures forall i, p, q :: 0 <= i < |d| && p in d[i].1 && q in d[i].1 ==>
      hash(files[p].content) == hash(files[q].content) != []
  {
    forall i, j, p | 0 <= i < |d| && 0 <= j < |d| && p in d[i].1 && p in d[j].1 ensures i == j {
      assert d[i].0 == hash(files[p].content) == d[j].0;
    }
  }

  /**
   * `cleanup_downloads`' rule: older than `max_age_days` days, or smaller than the
   * minimum size in bytes.
   */
  predicate Expired(e: FileEntry, now: int, maxAgeDays: int, minSizeBytes: int) {
    now - e.mtime > maxAgeDays * 24 * 3600 || |e.content| < minSizeBytes
  }

  /**
   * The disk after the clean-up walk over `listing`, and the files deleted, in order.
   * A file in `locked` cannot be unlinked and stays.
   */
  function Sweep(listing: seq<string>, files: map<string, FileEntry>, now: int, maxAgeDays: int, minSizeBytes: int,
                 locked: set<string>): (r: (map<string, FileEntry>, seq<string>))
    decreases |listing|
  {
    if listing == [] then (files, [])
    else
      var prev := Sweep(listing[..|listing| - 1], files, now, maxAgeDays, minSizeBytes, locked);
      var p := listing[|listing| - 1];
      if p in prev.0 && Expired(prev.0[p], now, maxAgeDays, minSizeBytes) && p !in locked then
        (prev.0 - {p}, prev.1 + [p])
      else prev
  }

  /** A file is deleted exactly when it was walked, is expired and could be unlinked. */
  predicate Doomed(p: string, listing: seq<string>, files: map<string, FileEntry>, now: int, maxAgeDays: int,
                   minSizeBytes: int, locked: set<string>) {
    p in files && p in listing && Expired(files[p], now, maxAgeDays, minSizeBytes) && p !in locked
  }

  /**
   * The clean-up keeps every other file unchanged, deletes each doomed file once,
   * and nothing else.
   */
  lemma {:induction false} SweepSpec(listing: seq<string>, files: map<string, FileEntry>, now: int, maxAgeDays: int,
                                     minSizeBytes: int, locked: set<string>)
    ensures var r := Sweep(listing, files, now, maxAgeDays, minSizeBytes, locked);
      && (forall p :: p in r.0 <==> p in files && !Doomed(p, listing, files, now, maxAgeDays, minSizeBytes, locked))
      && (forall p :: p in r.0 ==> r.0[p] == files[p])
      && (forall p :: p in r.1 <==> Doomed(p, listing, files, now, maxAgeDays, minSizeBytes, locked))
      && (forall i, j :: 0 <= i < j < |r.1| ==> r.1[i] != r.1[j])
    decreases |listing|
  {
    if listing != [] {
      var init, last := listing[..|listing| - 1], listing[|listing| - 1];
      SweepSpec(init, files, now, maxAgeDays, minSizeBytes, locked);
      assert listing == init + [last];
      assert forall p :: p in listing <==> p in init || p == last;
    }
  }

  /** One more walked path, for the loop of `cleanup_downloads`. */
  lemma SweepStep(listing: seq<string>, i: nat, files: map<string, FileEntry>, now: int, maxAgeDays: int,
                  minSizeBytes: int, locked: set<string>)
    requires i < |listing|
    ensures var prev := Sweep(listing[..i], files, now, maxAgeDays, minSizeBytes, locked);
      var p := listing[i];
      && (p in prev.0 ==> p in files && prev.0[p] == files[p])
      && Sweep(listing[..i + 1], files, now, maxAgeDays, minSizeBytes, locked)
        == if p in prev.0 && Expired(prev.0[p], now, maxAgeDays, minSizeBytes) && p !in locked
           then (prev.0 - {p}, prev.1 + [p]) else prev
  {
    assert listing[..i + 1][..i] == listing[..i];
    SweepSpec(listing[..i], files, now, maxAgeDays, minSizeBytes, locked);
  }

  /** The sum of the sizes of the given files. */
  function TotalSize(paths: seq<string>, files: map<string, FileEntry>): nat
    decreases |paths|
  {
    if paths == [] then 0
    else
      var p := paths[|paths| - 1];
      TotalSize(paths[..|paths| - 1], files) + (if p in files then |files[p].content| else 0)
  }

  function InFiles(files: map<string, FileEntry>): string -> bool {
    p => p in files
  }

  /** The walked paths that are files (`file_path.is_file()`), in walk order. */
  function ListedFiles(listing: seq<string>, files: map<string, FileEntry>): (r: seq<string>)
    ensures forall p :: p in r <==> p in listing && p in files
  {
    Filter(listing, InFiles(files))
  }

  /** The suffix of each path. */
  function Suffixes(paths: seq<string>): (r: seq<string>)
    ensures |r| == |paths| && forall i :: 0 <= i < |paths| ==> r[i] == Suffix(paths[i])
  {
    seq(|paths|, i requires 0 <= i < |paths| => Suffix(paths[i]))
  }

  /** One more walked path, for the loop of `get_download_stats`: it is listed, and its size counted, iff it is a file. */
  lemma StatsStep(listing: seq<string>, i: nat, files: map<string, FileEntry>)
    requires i < |listing|
    ensures listing[i] in files ==> ListedFiles(listing[..i + 1], files) == ListedFiles(listing[..i], files) + [listing[i]]
    ensures listing[i] !in files ==> ListedFiles(listing[..i + 1], files) == ListedFiles(listing[..i], files)
    ensures TotalSize(listing[..i + 1], files)
      == TotalSize(listing[..i], files) + (if listing[i] in files then |files[listing[i]].content| else 0)
  {
    assert listing[..i + 1] == listing[..i] + [listing[i]];
    FilterSnoc(listing[..i], listing[i], InFiles(files));
    assert ListedFiles(listing[..i], files) + [] == ListedFiles(listing[..i], files);
  }

  /** Tallying the suffixes of one more path is one `TallyAdd`. */
  lemma TallySnoc(paths: seq<string>, p: string)
    ensures Tally(Suffixes(paths + [p])) == TallyAdd(Tally(Suffixes(paths)), Suffix(p))
  {
    var keys, more := Suffixes(paths), Suffixes(paths + [p]);
    assert more[..|keys|] == keys;
  }

  /** The running totals of `get_download_stats` after the first `i` walked paths. */
  predicate StatsAfter(listing: seq<string>, i: nat, files: map<string, FileEntry>, count: int, size: int,
                       types: seq<(string, nat)>)
    requires i <= |listing|
  {
    && count == |ListedFiles(listing[..i], files)|
    && size == TotalSize(listing[..i], files)
    && types == Tally(Suffixes(ListedFiles(listing[..i], files)))
  }

  /** One iteration of the loop of `get_download_stats` keeps the totals right. */
  lemma StatsAdvance(listing: seq<string>, i: nat, files: map<string, FileEntry>, count: int, size: int,
                     types: seq<(string, nat)>)
    requires i < |listing| && StatsAfter(listing, i, files, count, size, types)
    ensures var p := listing[i];
      if p in files then StatsAfter(listing, i + 1, files, count + 1, size + |files[p].content|, TallyAdd(types, Suffix(p)))
      else StatsAfter(listing, i + 1, files, count, size, types)
  {
    StatsStep(listing, i, files);
    TallySnoc(ListedFiles(listing[..i], files), listing[i]);
  }

  /** The hash groups `find_duplicate_files` returns. */
  function GroupsOf(d: seq<(string, seq<string>)>): (groups: seq<seq<string>>)
    ensures |groups| == |d| && forall i :: 0 <= i < |d| ==> groups[i] == d[i].1
  {
    seq(|d|, i requires 0 <= i < |d| => d[i].1)
  }

  /** `Path(p).suffix.lower()`: from the last dot of the last component, if that dot is neither first nor last. */
  function Suffix(p: string): (r: string)
    ensures r == [] || r[0] == '.'
  {
    var name := p[LastIndexOf(p, '/') + 1..];
    var dot := LastIndexOf(name, '.');
    if 0 < dot < |name| - 1 then LowerStr(name[dot..]) else []
  }

  /** The `file_types` dict: each suffix with its number of occurrences, in order of first appearance. */
  function Tally(keys: seq<string>): seq<(string, nat)>
    decreases |keys|
  {
    if keys == [] then [] else TallyAdd(Tally(keys[..|keys| - 1]), keys[|keys| - 1])
  }

  /** Counts one more `x`: bumps its entry, or appends a new one. */
  function TallyAdd(prev: seq<(string, nat)>, x: string): seq<(string, nat)> {
    var k := IndexOfKey(prev, x);
    if k >= 0 then prev[k := (x, prev[k].1 + 1)] else prev + [(x, 1)]
  }

  /** How often `x` occurs in `keys`. */
  function Occurrences(keys: seq<string>, x: string): nat
    decreases |keys|
  {
    if keys == [] then 0
    else Occurrences(keys[..|keys| - 1], x) + (if keys[|keys| - 1] == x then 1 else 0)
  }

  function SumCounts(entries: seq<(string, nat)>): nat
    decreases |entries|
  {
    if entries == [] then 0 else SumCounts(entries[..|entries| - 1]) + entries[|entries| - 1].1
  }

  lemma {:induction false} SumCountsUpdate(entries: seq<(string, nat)>, k: nat, x: string, n: nat)
    requires k < |entries|
    ensures SumCounts(entries[k := (x, n)]) == SumCounts(entries) - entries[k].1 + n
    decreases |entries|
  {
    var u := entries[k := (x, n)];
    if k < |entries| - 1 {
      assert u[..|u| - 1] == entries[..|entries| - 1][k := (x, n)];
      SumCountsUpdate(entries[..|entries| - 1], k, x, n);
    } else {
      assert u[..|u| - 1] == entries[..|entries| - 1];
    }
  }

  /** The counts add up to the number of keys counted. */
  lemma {:induction false} TallySum(keys: seq<string>)
    ensures SumCounts(Tally(keys)) == |keys|
    decreases |keys|
  {
    if keys != [] {
      var init, x := keys[..|keys| - 1], keys[|keys| - 1];
      var prev := Tally(init);
      TallySum(init);
      var k := IndexOfKey(prev, x);
      if k >= 0 {
        SumCountsUpdate(prev, k, x, prev[k].1 + 1);
      } else {
        var t := prev + [(x, 1)];
        assert t[..|t| - 1] == prev;
      }
    }
  }

  /** Each count is its key's number of occurrences, and a key without entry does not occur. */
  ghost predicate CountsMatch(t: seq<(string, nat)>, keys: seq<string>) {
    && (forall i :: 0 <= i < |t| ==> t[i].1 == Occurrences(keys, t[i].0))
    && (forall x :: IndexOfKey(t, x) < 0 ==> Occurrences(keys, x) == 0)
  }

  /** Each suffix has one entry. */
  lemma {:induction false} TallyDistinct(keys: seq<string>)
    ensures KeysDistinct(Tally(keys))
    decreases |keys|
  {
    if keys != [] {
      var init, x := keys[..|keys| - 1], keys[|keys| - 1];
      var prev := Tally(init);
      TallyDistinct(init);
      var k := IndexOfKey(prev, x);
      var t := Tally(keys);
      if k >= 0 {
        assert t == prev[k := (x, prev[k].1 + 1)];
        assert forall i :: 0 <= i < |t| ==> t[i].0 == prev[i].0;
      } else {
        assert t == prev + [(x, 1)];
      }
    }
  }

  /** Each entry counts exactly the files with that suffix. */
  lemma {:induction false} TallyCounts(keys: seq<string>)
    ensures CountsMatch(Tally(keys), keys)
    decreases |keys|
  {
    if keys != [] {
      var init, x := keys[..|keys| - 1], keys[|keys| - 1];
      var prev := Tally(init);
      TallyCounts(init);
      TallyDistinct(init);
      var k := IndexOfKey(prev, x);
      var t := Tally(keys);
      assert forall m :: 0 <= m < |prev| ==> t[m].0 == prev[m].0;
      forall y | IndexOfKey(t, y) < 0 ensures Occurrences(keys, y) == 0 {
        assert y != x by {
          if k >= 0 {
            assert t[k].0 == x;
          } else {
            assert t[|prev|].0 == x;
          }
        }
      }
      forall i | 0 <= i < |t| ensures t[i].1 == Occurrences(keys, t[i].0) {
        if i < |prev| && prev[i].0 != x {
          assert t[i] == prev[i];
        } else if i < |prev| {
          assert k >= 0 && i == k;
        } else {
          assert k < 0 && t[i] == (x, 1);
        }
      }
    }
  }

  /** The result of `get_download_stats` (the size in megabytes is left out). */
  datatype Stats = Stats(totalFiles: nat, totalSize: nat, fileTypes: seq<(string, nat)>, downloadDir: string)

  /**
   * What `find_duplicate_files` promises: every group has at least two files, all
   * with one non-empty hash, no file is in two groups, and every walked file whose
   * hash is shared by a group lies in it.
   */
  lemma DuplicateFilesSpec(listing: seq<string>, files: map<string, FileEntry>, hash: Bytes -> string)
    ensures var d := DuplicateBuckets(Buckets(listing, files, hash));
      && (forall i :: 0 <= i < |d| ==> |d[i].1| >= 2 && d[i].0 != [])
      && (forall i, p :: 0 <= i < |d| && p in d[i].1 ==> p in files && hash(files[p].content) == d[i].0)
      && (forall i, j, p :: 0 <= i < |d| && 0 <= j < |d| && p in d[i].1 && p in d[j].1 ==> i == j)
      && (forall i, p :: 0 <= i < |d| && p in listing && p in files && hash(files[p].content) == d[i].0 ==> p in d[i].1)
  {
    var bs := Buckets(listing, files, hash);
    var d := DuplicateBuckets(bs);
    BucketsAreSound(listing, files, hash);
    BucketsCover(listing, files, hash);
    DuplicateBucketsSound(bs, files, hash);
    DuplicateBucketsFrom(bs);
    DuplicateGroupsDisjoint(d, files, hash);
    forall i, p | 0 <= i < |d| && p in listing && p in files && hash(files[p].content) == d[i].0
      ensures p in d[i].1
    {
      var m :| 0 <= m < |bs| && d[i] == bs[m];
      var n :| 0 <= n < |bs| && bs[n].0 == hash(files[p].content) && p in bs[n].1;
      assert m == n;
    }
  }

  /** A sequence holding two different values has at least two elements. */
  lemma TwoMembers(s: seq<string>, p: string, q: string)
    requires p in s && q in s && p != q
    ensures |s| >= 2
  {
    var i :| 0 <= i < |s| && s[i] == p;
    var j :| 0 <= j < |s| && s[j] == q;
    assert i != j;
  }

  /** `p` and `q` are two different walked files with the same non-empty hash. */
  predicate SharedHash(p: string, q: string, listing: seq<string>, files: map<string, FileEntry>, hash: Bytes -> string) {
    p in listing && q in listing && p != q && p in files && q in files
    && hash(files[p].content) == hash(files[q].content) != []
  }

  /** Some group of `d` holds both `p` and `q`. */
  predicate Together(d: seq<(string, seq<string>)>, p: string, q: string) {
    exists i :: 0 <= i < |d| && p in d[i].1 && q in d[i].1
  }

  /**
   * Every two different walked files that share a non-empty hash are reported
   * together in one group.
   */
  lemma DuplicatesReported(listing: seq<string>, files: map<string, FileEntry>, hash: Bytes -> string)
    ensures var d := DuplicateBuckets(Buckets(listing, files, hash));
      forall p, q :: SharedHash(p, q, listing, files, hash) ==> Together(d, p, q)
  {
    var bs := Buckets(listing, files, hash);
    var d := DuplicateBuckets(bs);
    BucketsAreSound(listing, files, hash);
    BucketsCover(listing, files, hash);
    DuplicateBucketsComplete(bs);
    forall p, q | SharedHash(p, q, listing, files, hash) ensures Together(d, p, q) {
      var m :| 0 <= m < |bs| && bs[m].0 == hash(files[p].content) && p in bs[m].1;
      var n :| 0 <= n < |bs| && bs[n].0 == hash(files[q].content) && q in bs[n].1;
      assert m == n;
      TwoMembers(bs[m].1, p, q);
      assert Reported(d, bs[m]);
      var i :| 0 <= i < |d| && d[i] == bs[m];
      assert p in d[i].1 && q in d[i].1;
    }
  }

  /** Each group has at least two files, all with the non-empty hash of its first file. */
  predicate GroupsShareHash(groups: seq<seq<string>>, files: map<string, FileEntry>, hash: Bytes -> string) {
    forall i :: 0 <= i < |groups| ==>
      && |groups[i]| >= 2 && groups[i][0] in files
      && (forall p :: p in groups[i] ==> p in files && hash(files[p].content) == hash(files[groups[i][0]].content) != [])
  }

  /** Every two different walked files with the same non-empty hash lie in one group. */
  ghost predicate GroupsCoverShared(groups: seq<seq<string>>, listing: seq<string>, files: map<string, FileEntry>,
                              hash: Bytes -> string) {
    forall p, q :: SharedHash(p, q, listing, files, hash) ==>
      exists i :: 0 <= i < |groups| && p in groups[i] && q in groups[i]
  }

  /** The groups `find_duplicate_files` returns are exactly sound and complete. */
  lemma DuplicateGroupsSpec(listing: seq<string>, files: map<string, FileEntry>, hash: Bytes -> string)
    ensures var groups := GroupsOf(DuplicateBuckets(Buckets(listing, files, hash)));
      GroupsShareHash(groups, files, hash) && GroupsCoverShared(groups, listing, files, hash)
  {
    var d := DuplicateBuckets(Buckets(listing, files, hash));
    var groups := GroupsOf(d);
    DuplicateFilesSpec(listing, files, hash);
    DuplicatesReported(listing, files, hash);
    forall i | 0 <= i < |groups|
      ensures |groups[i]| >= 2 && groups[i][0] in files
      ensures forall p :: p in groups[i] ==> p in files && hash(files[p].content) == hash(files[groups[i][0]].content) != []
    {
      assert groups[i] == d[i].1 && groups[i][0] in d[i].1;
    }
    forall p, q | SharedHash(p, q, listing, files, hash)
      ensures exists i :: 0 <= i < |groups| && p in groups[i] && q in groups[i]
    {
      assert Together(d, p, q);
      var i :| 0 <= i < |d| && p in d[i].1 && q in d[i].1;
      assert groups[i] == d[i].1;
    }
  }

  /** The suffix counts add up to the number of files, one entry per suffix, each with its number of files. */
  lemma DownloadStatsSpec(listing: seq<string>, files: map<string, FileEntry>)
    ensures var t := Tally(Suffixes(ListedFiles(listing, files)));
      && SumCounts(t) == |ListedFiles(listing, files)|
      && KeysDistinct(t)
      && CountsMatch(t, Suffixes(ListedFiles(listing, files)))
  {
    TallySum(Suffixes(ListedFiles(listing, files)));
    TallyDistinct(Suffixes(ListedFiles(listing, files)));
    TallyCounts(Suffixes(ListedFiles(listing, files)));
  }

  // ---------------------------------------------------------------------------
  // The manager
  // ---------------------------------------------------------------------------

  class FileManager {
    const baseDir: string
    const createSubfolder: bool
    /** Where downloads go: the base directory or a per-site sub-directory of it. */
    var downloadDir: string
    /** The files on disk, by full path. */
    var files: map<string, FileEntry>

    constructor (baseDir: string, createSubfolder: bool, files: map<string, FileEntry>)
      ensures this.baseDir == baseDir && this.createSubfolder == createSubfolder
      ensures downloadDir == baseDir && this.files == files
    {
      this.baseDir := baseDir;
      this.createSubfolder := createSubfolder;
      downloadDir := baseDir;
      this.files := files;
    }

    /**
     * `FileManager.set_download_dir`: the base directory, unless sub-folders are on and
     * a URL is given, in which case the sub-directory named after the cleaned host.
     */
    method SetDownloadDir(url: string, lib: UrlLib)
      modifies this`downloadDir
      ensures !createSubfolder || url == [] ==> downloadDir == baseDir
      ensures createSubfolder && url != [] ==> downloadDir == SubDir(baseDir, CleanDomain(lib.parse(url).netloc))
    {
      if !createSubfolder || url == [] {
        downloadDir := baseDir;
        return;
      }
      var domain := lib.parse(url).netloc;
      var cleanDomain := CleanDomain(domain);
      downloadDir := SubDir(baseDir, cleanDomain);
    }

    /**
     * `FileManager.get_unique_filename`: the name itself when it is free, else
     * `name_k + ext` for the least `k >= 1` whose path is free.
     */
    method GetUniqueFilename(filename: string) returns (r: string)
      ensures Join(downloadDir, r) !in files
      ensures Join(downloadDir, filename) !in files ==> r == filename
      ensures Join(downloadDir, filename) in files ==>
        exists k :: k >= 1 && r == Candidate(SplitExt(filename).0, SplitExt(filename).1, k)
          && forall j :: 1 <= j < k ==> Join(downloadDir, Candidate(SplitExt(filename).0, SplitExt(filename).1, j)) in files
    {
      var fs, dir := files, downloadDir;
      if Join(dir, filename) !in fs {
        return filename;
      }
      var parts := SplitExt(filename);
      var name, ext := parts.0, parts.1;
      var counter := 1;
      ghost var tried: set<string> := {};
      while true
        invariant counter >= 1
        invariant tried <= fs.Keys && |tried| == counter - 1
        invariant forall j :: 1 <= j < counter ==> Join(dir, Candidate(name, ext, j)) in tried
        invariant forall p :: p in tried ==> exists j :: 1 <= j < counter && p == Join(dir, Candidate(name, ext, j))
        decreases |fs.Keys| - |tried|
      {
        SubsetCardinality(tried, fs.Keys);
        var newFilename := Candidate(name, ext, counter);
        var path := Join(dir, newFilename);
        if path !in fs {
          return newFilename;
        }
        if path in tried {
          var j :| 1 <= j < counter && path == Join(dir, Candidate(name, ext, j));
          CandidatePathInjective(dir, name, ext, j, counter);
          assert false;
        }
        ghost var more := tried + {path};
        forall j | 1 <= j <= counter ensures Join(dir, Candidate(name, ext, j)) in more {
          if j < counter {
            assert Join(dir, Candidate(name, ext, j)) in tried;
          }
        }
        tried := more;
        counter := counter + 1;
        SubsetCardinality(tried, fs.Keys);
      }
    }

    /** `FileManager.check_file_exists`. */
    predicate FileExists(filename: string)
      reads this
    {
      Join(downloadDir, filename) in files
    }

    /**
     * `FileManager.download_file`, one attempt. An existing target is reported with
     * its size and left alone; otherwise the file is created and every non-empty chunk
     * is appended in order. When the stream breaks, the partial file is removed unless
     * its path is in `failingUnlinks`, the paths whose `unlink` raises; then it stays.
     */
    method DownloadFile(url: string, filename: string, response: Response, now: int, failingUnlinks: set<string>)
      returns (result: FileResult)
      modifies this`files
      ensures result.filepath == Join(downloadDir, filename)
      ensures Join(downloadDir, filename) in old(files) ==>
        && files == old(files)
        && result == FileResult(true, Join(downloadDir, filename), |old(files)[Join(downloadDir, filename)].content|, [])
      ensures Join(downloadDir, filename) !in old(files) && response.Streamed? && response.broken.None? ==>
        && files == old(files)[Join(downloadDir, filename) := FileEntry(Joined(response.chunks), now)]
        && result == FileResult(true, Join(downloadDir, filename), |Joined(response.chunks)|, [])
      ensures Join(downloadDir, filename) !in old(files) && !(response.Streamed? && response.broken.None?) ==>
        result == FileResult(false, Join(downloadDir, filename), 0, ResponseError(response))
      ensures Join(downloadDir, filename) !in old(files) && response.RequestFailed? ==> files == old(files)
      ensures Join(downloadDir, filename) !in old(files) && response.Streamed? && response.broken.Some? ==>
        files == if Join(downloadDir, filename) in failingUnlinks
                 then old(files)[Join(downloadDir, filename) := FileEntry(Joined(response.chunks), now)]
                 else old(files)
    {
      var path := Join(downloadDir, filename);
      if path in files {
        return FileResult(true, path, |files[path].content|, []);
      }
      match response
      case RequestFailed(error) =>
        return FileResult(false, path, 0, error);
      case Streamed(chunks, broken) =>
        files := files[path := FileEntry([], now)];
        for i := 0 to |chunks|
          invariant files == old(files)[path := FileEntry(Joined(chunks[..i]), now)]
        {
          JoinedSnoc(chunks[..i], chunks[i]);
          assert chunks[..i + 1] == chunks[..i] + [chunks[i]];
          if chunks[i] != [] {
            files := files[path := FileEntry(files[path].content + chunks[i], now)];
          } else {
            assert Joined(chunks[..i]) + chunks[i] == Joined(chunks[..i]);
          }
        }
        assert chunks[..|chunks|] == chunks;
        if broken.Some? {
          if path !in failingUnlinks {
            files := files - {path};
            assert files == old(files);
          }
          return FileResult(false, path, 0, broken.value);
        }
        result := FileResult(true, path, |files[path].content|, []);
    }

    /**
     * `FileManager.find_duplicate_files` over the walk `listing`; `hash` is
     * `calculate_file_hash` on a file's bytes, "" when hashing fails.
     */
    method FindDuplicateFiles(listing: seq<string>, hash: Bytes -> string) returns (groups: seq<seq<string>>)
      ensures groups == GroupsOf(DuplicateBuckets(Buckets(listing, files, hash)))
      ensures GroupsShareHash(groups, files, hash)
      ensures GroupsCoverShared(groups, listing, files, hash)
    {
      var fileHashes: seq<(string, seq<string>)> := [];
      for i := 0 to |listing|
        invariant fileHashes == Buckets(listing[..i], files, hash)
      {
        assert listing[..i + 1][..i] == listing[..i];
        var p := listing[i];
        if p in files {
          var h := hash(files[p].content);
          if h != [] {
            var k := IndexOfKey(fileHashes, h);
            if k >= 0 {
              fileHashes := fileHashes[k := (h, fileHashes[k].1 + [p])];
            } else {
              fileHashes := fileHashes + [(h, [p])];
            }
          }
        }
      }
      assert listing[..|listing|] == listing;
      groups := [];
      for i := 0 to |fileHashes|
        invariant groups == GroupsOf(DuplicateBuckets(fileHashes[..i]))
      {
        assert fileHashes[..i + 1][..i] == fileHashes[..i];
        if |fileHashes[i].1| > 1 {
          groups := groups + [fileHashes[i].1];
        }
      }
      assert fileHashes[..|fileHashes|] == fileHashes;
      DuplicateGroupsSpec(listing, files, hash);
    }

    /**
     * `FileManager.cleanup_downloads` over the walk `listing` at time `now`, with the
     * minimum size in whole bytes. Returns the count and byte total it logs.
     */
    method CleanupDownloads(listing: seq<string>, now: int, maxAgeDays: int, minSizeBytes: int, locked: set<string>)
      returns (deletedCount: nat, deletedSize: nat)
      modifies this`files
      ensures var sweep := Sweep(listing, old(files), now, maxAgeDays, minSizeBytes, locked);
        && files == sweep.0
        && deletedCount == |sweep.1|
        && deletedSize == TotalSize(sweep.1, old(files))
    {
      deletedCount, deletedSize := 0, 0;
      ghost var removed: seq<string> := [];
      for i := 0 to |listing|
        invariant (files, removed) == Sweep(listing[..i], old(files), now, maxAgeDays, minSizeBytes, locked)
        invariant deletedCount == |removed| && deletedSize == TotalSize(removed, old(files))
      {
        SweepStep(listing, i, old(files), now, maxAgeDays, minSizeBytes, locked);
        var p := listing[i];
        if p in files {
          var entry := files[p];
          if Expired(entry, now, maxAgeDays, minSizeBytes) && p !in locked {
            files := files - {p};
            assert (removed + [p])[..|removed|] == removed;
            removed := removed + [p];
            deletedCount := deletedCount + 1;
            deletedSize := deletedSize + |entry.content|;
          }
        }
      }
      assert listing[..|listing|] == listing;
    }

    /** `FileManager.get_download_stats` over the walk `listing`. */
    method GetDownloadStats(listing: seq<string>) returns (stats: Stats)
      ensures stats.totalFiles == |ListedFiles(listing, files)|
      ensures stats.totalSize == TotalSize(listing, files)
      ensures stats.fileTypes == Tally(Suffixes(ListedFiles(listing, files)))
      ensures stats.downloadDir == downloadDir
    {
      var fs := files;
      var totalFiles, totalSize := 0, 0;
      var fileTypes: seq<(string, nat)> := [];
      for i := 0 to |listing|
        invariant StatsAfter(listing, i, fs, totalFiles, totalSize, fileTypes)
      {
        StatsAdvance(listing, i, fs, totalFiles, totalSize, fileTypes);
        var p := listing[i];
        if p in fs {
          totalFiles := totalFiles + 1;
          totalSize := totalSize + |fs[p].content|;
          fileTypes := TallyAdd(fileTypes, Suffix(p));
        }
      }
      assert listing[..|listing|] == listing;
      stats := Stats(totalFiles, totalSize, fileTypes, downloadDir);
    }
  }
}

/**
 * The URL handler: filename sanitising, the "is this a PDF URL" classifier and
 * validator, the filename-extraction fallback chain, URL normalisation, search-URL
 * construction and the de-duplication of PDF-related page texts.
 */
module UrlHandler {
  import opened Wrappers
  import opened Text
  import opened Seqs
  import opened Urls

  // ---------------------------------------------------------------------------
  // Filename sanitising
  // ---------------------------------------------------------------------------

  const MaxFilenameLength: nat := 200

  /** Characters refused in file names: `< > : " | ? * \` on Windows, `/` on Unix. */
  predicate IsIllegal(c: char) {
    c == '<' || c == '>' || c == ':' || c == '"' || c == '|' || c == '?' || c == '*' || c == '\\' || c == '/'
  }

  predicate IsSpaceOrUnderscore(c: char) {
    IsSpace(c) || c == '_'
  }

  predicate IsUnderscore(c: char) {
    c == '_'
  }

  predicate IsDot(c: char) {
    c == '.'
  }

  /** A character a cleaned file name may hold. */
  predicate SafeChar(c: char) {
    !IsIllegal(c) && !IsSpace(c)
  }

  /** What the sanitiser promises about its output. */
  predicate IsCleanName(r: string) {
    && |r| <= MaxFilenameLength
    && (forall c :: c in r ==> SafeChar(c))
    && (r != [] ==> r[0] != '_')
    && NoDoubled(r, '_')
    && NoDoubled(r, '.')
    // a trailing `_` survives only where the length cap cut the name
    && (r != [] && r[|r| - 1] == '_' ==> |r| == MaxFilenameLength)
  }

  /** Every illegal character becomes `_`. */
  function ReplaceIllegal(s: string): (r: string)
    ensures |r| == |s|
    ensures forall i :: 0 <= i < |s| ==> r[i] == if IsIllegal(s[i]) then '_' else s[i]
  {
    seq(|s|, i requires 0 <= i < |s| => if IsIllegal(s[i]) then '_' else s[i])
  }

  /** The name before the length cap: illegal characters, whitespace/underscore runs and dot runs collapsed. */
  function CleanUncapped(s: string): string {
    var underscored := Squeeze(ReplaceIllegal(s), IsSpaceOrUnderscore, '_');
    Squeeze(TrimEnd(TrimStart(underscored, IsUnderscore), IsUnderscore), IsDot, '.')
  }

  /** After the first two substitutions no character is illegal or whitespace. */
  lemma {:induction false} UnderscoredChars(s: string)
    ensures forall c :: c in Squeeze(ReplaceIllegal(s), IsSpaceOrUnderscore, '_') ==> SafeChar(c)
  {
    var s1 := ReplaceIllegal(s);
    SqueezeChars(s1, IsSpaceOrUnderscore, '_');
    assert forall c :: c in s1 ==> !IsIllegal(c);
  }

  /** `strip('_')` of a string without `__` leaves no `__`. */
  lemma StripUnderscoresNoDoubled(s2: string)
    requires NoDoubled(s2, '_')
    ensures NoDoubled(TrimEnd(TrimStart(s2, IsUnderscore), IsUnderscore), '_')
  {
    var t := TrimStart(s2, IsUnderscore);
    var s3 := TrimEnd(t, IsUnderscore);
    NoDoubledSlice(s2, '_', |s2| - |t|, |s2|);
    NoDoubledSlice(t, '_', 0, |s3|);
  }

  /** `strip('_')` leaves no underscore at either end and adds no character. */
  lemma StripUnderscoresEnds(s2: string)
    ensures var s3 := TrimEnd(TrimStart(s2, IsUnderscore), IsUnderscore);
      s3 != [] ==> s3[0] != '_' && s3[|s3| - 1] != '_'
    ensures forall c :: c in TrimEnd(TrimStart(s2, IsUnderscore), IsUnderscore) ==> c in s2
  {
    var t := TrimStart(s2, IsUnderscore);
    var s3 := TrimEnd(t, IsUnderscore);
    if s3 != [] {
      assert s3[0] == t[0];
    }
    assert forall c :: c in s3 ==> c in t;
  }

  /** Collapsing dot runs keeps every earlier guarantee and adds "no `..`". */
  lemma DotStageShape(s3: string)
    requires forall c :: c in s3 ==> SafeChar(c)
    requires NoDoubled(s3, '_') && (s3 != [] ==> s3[0] != '_' && s3[|s3| - 1] != '_')
    ensures var u := Squeeze(s3, IsDot, '.');
      && (forall c :: c in u ==> SafeChar(c))
      && (u != [] ==> u[0] != '_' && u[|u| - 1] != '_')
      && NoDoubled(u, '_') && NoDoubled(u, '.')
  {
    SqueezeChars(s3, IsDot, '.');
    SqueezeKeepsNoDoubled(s3, IsDot, '.', '_');
    SqueezeNoAdjacentRuns(s3, IsDot, '.');
    SqueezeHead(s3, IsDot, '.');
    if s3 != [] {
      SqueezeLast(s3, IsDot, '.');
    }
  }

  lemma UnderscoredNoDoubled(s: string)
    ensures NoDoubled(Squeeze(ReplaceIllegal(s), IsSpaceOrUnderscore, '_'), '_')
  {
    var s2 := Squeeze(ReplaceIllegal(s), IsSpaceOrUnderscore, '_');
    SqueezeNoAdjacentRuns(ReplaceIllegal(s), IsSpaceOrUnderscore, '_');
    forall i | 0 <= i < |s2| - 1 ensures s2[i] != '_' || s2[i + 1] != '_' {
      assert !IsSpaceOrUnderscore(s2[i]) || !IsSpaceOrUnderscore(s2[i + 1]);
    }
  }

  /** The last two stages, given what the first two guarantee. */
  lemma StripAndDotStages(s2: string)
    requires forall c :: c in s2 ==> SafeChar(c)
    requires NoDoubled(s2, '_')
    ensures var u := Squeeze(TrimEnd(TrimStart(s2, IsUnderscore), IsUnderscore), IsDot, '.');
      && (forall c :: c in u ==> SafeChar(c))
      && (u != [] ==> u[0] != '_' && u[|u| - 1] != '_')
      && NoDoubled(u, '_') && NoDoubled(u, '.')
  {
    StripUnderscoresNoDoubled(s2);
    StripUnderscoresEnds(s2);
    DotStageShape(TrimEnd(TrimStart(s2, IsUnderscore), IsUnderscore));
  }

  lemma CleanUncappedIsClean(s: string)
    ensures var u := CleanUncapped(s);
      && (forall c :: c in u ==> SafeChar(c))
      && (u != [] ==> u[0] != '_' && u[|u| - 1] != '_')
      && NoDoubled(u, '_') && NoDoubled(u, '.')
  {
    var s2 := Squeeze(ReplaceIllegal(s), IsSpaceOrUnderscore, '_');
    UnderscoredChars(s);
    UnderscoredNoDoubled(s);
    StripAndDotStages(s2);
  }

  /** `URLHandler._clean_filename`: a name safe on Windows and Unix, at most 200 characters. */
  function CleanFilename(filename: string): (r: string)
    ensures filename == [] ==> r == []
    ensures IsCleanName(r)
  {
    if filename == [] then []
    else
      var u := CleanUncapped(filename);
      CleanUncappedIsClean(filename);
      if |u| > MaxFilenameLength then
        NoDoubledSlice(u, '_', 0, MaxFilenameLength);
        NoDoubledSlice(u, '.', 0, MaxFilenameLength);
        u[..MaxFilenameLength]
      else u
  }

  lemma ReplaceIllegalFixesSafe(name: string)
    requires forall c :: c in name ==> SafeChar(c)
    ensures ReplaceIllegal(name) == name
  {
    forall i | 0 <= i < |name| ensures ReplaceIllegal(name)[i] == name[i] {
      assert SafeChar(name[i]);
    }
  }

  lemma UnderscoreSqueezeFixesSafe(name: string)
    requires forall c :: c in name ==> SafeChar(c)
    requires NoDoubled(name, '_')
    ensures Squeeze(name, IsSpaceOrUnderscore, '_') == name
  {
    forall i | 0 <= i < |name| && IsSpaceOrUnderscore(name[i]) ensures name[i] == '_' {
      assert SafeChar(name[i]);
    }
    forall i | 0 <= i < |name| - 1 ensures !IsSpaceOrUnderscore(name[i]) || !IsSpaceOrUnderscore(name[i + 1]) {
      assert SafeChar(name[i]) && SafeChar(name[i + 1]);
    }
    SqueezeFixpoint(name, IsSpaceOrUnderscore, '_');
  }

  lemma DotSqueezeFixes(name: string)
    requires NoDoubled(name, '.')
    ensures Squeeze(name, IsDot, '.') == name
  {
    forall i | 0 <= i < |name| - 1 ensures !IsDot(name[i]) || !IsDot(name[i + 1]) {
      assert name[i] != '.' || name[i + 1] != '.';
    }
    SqueezeFixpoint(name, IsDot, '.');
  }

  /** A name that is already clean and short of the cap is left as it is. */
  lemma CleanFilenameFixesCleanNames(name: string)
    requires IsCleanName(name) && |name| < MaxFilenameLength
    ensures CleanFilename(name) == name
  {
    if name != [] {
      ReplaceIllegalFixesSafe(name);
      UnderscoreSqueezeFixesSafe(name);
      assert TrimStart(name, IsUnderscore) == name;
      assert TrimEnd(name, IsUnderscore) == name;
      DotSqueezeFixes(name);
    }
  }

  // ---------------------------------------------------------------------------
  // Classification and validation
  // ---------------------------------------------------------------------------

  const MaxUrlLength: nat := 2048

  /** Query markers that announce a PDF. */
  predicate HasPdfQueryMarker(lowerUrl: string) {
    Contains(lowerUrl, "type=pdf") || Contains(lowerUrl, "format=pdf") || Contains(lowerUrl, "file=pdf")
  }

  /** Path markers that announce a PDF. */
  predicate HasPdfPathMarker(lowerUrl: string) {
    Contains(lowerUrl, "/pdf/") || Contains(lowerUrl, "/document/")
  }

  /** `URLHandler._is_pdf_url`, branch by branch. */
  function IsPdfUrl(url: string, lib: UrlLib): (r: bool)
    ensures r <==>
      || (Contains(LowerStr(url), ".pdf") && EndsWith(LowerStr(lib.parse(url).path), ".pdf"))
      || HasPdfQueryMarker(LowerStr(url))
      || HasPdfPathMarker(LowerStr(url))
  {
    var lowerUrl := LowerStr(url);
    if Contains(lowerUrl, ".pdf") && EndsWith(LowerStr(lib.parse(url).path), ".pdf") then true
    else if Contains(lowerUrl, "pdf") && HasPdfQueryMarker(lowerUrl) then true
    else
      QueryMarkerImpliesPdf(lowerUrl);
      HasPdfPathMarker(lowerUrl)
  }

  /** Each query marker contains `pdf`, so the source's extra `'pdf' in url` test never decides anything. */
  lemma QueryMarkerImpliesPdf(lowerUrl: string)
    ensures HasPdfQueryMarker(lowerUrl) ==> Contains(lowerUrl, "pdf")
  {
    assert OccursAt("type=pdf", "pdf", 5);
    assert OccursAt("format=pdf", "pdf", 7);
    assert OccursAt("file=pdf", "pdf", 5);
    if Contains(lowerUrl, "type=pdf") {
      ContainsTransitive(lowerUrl, "type=pdf", "pdf");
    } else if Contains(lowerUrl, "format=pdf") {
      ContainsTransitive(lowerUrl, "format=pdf", "pdf");
    } else if Contains(lowerUrl, "file=pdf") {
      ContainsTransitive(lowerUrl, "file=pdf", "pdf");
    }
  }

  lemma ContainsLower(s: string, sub: string)
    requires Contains(s, sub)
    ensures Contains(LowerStr(s), LowerStr(sub))
  {
    var i :| 0 <= i <= |s| - |sub| && OccursAt(s, sub, i);
    assert LowerStr(s)[i..i + |sub|] == LowerStr(sub) by {
      forall k | 0 <= k < |sub| ensures LowerStr(s)[i..i + |sub|][k] == LowerStr(sub)[k] {
        assert s[i + k] == sub[k];
      }
    }
    assert OccursAt(LowerStr(s), LowerStr(sub), i);
  }

  lemma EndsWithContains(s: string, suffix: string)
    requires EndsWith(s, suffix)
    ensures Contains(s, suffix)
  {
    assert OccursAt(s, suffix, |s| - |suffix|);
  }

  /**
   * When the parser returns a path that is a piece of the URL (as `urlparse` does), the
   * classifier is exactly: the path ends in `.pdf`, or a query marker, or a path marker.
   */
  lemma IsPdfUrlCharacterised(url: string, lib: UrlLib)
    requires Contains(url, lib.parse(url).path)
    ensures IsPdfUrl(url, lib) <==>
      || EndsWith(LowerStr(lib.parse(url).path), ".pdf")
      || HasPdfQueryMarker(LowerStr(url))
      || HasPdfPathMarker(LowerStr(url))
  {
    var lowerPath := LowerStr(lib.parse(url).path);
    if EndsWith(lowerPath, ".pdf") {
      EndsWithContains(lowerPath, ".pdf");
      ContainsLower(url, lib.parse(url).path);
      ContainsTransitive(LowerStr(url), lowerPath, ".pdf");
    }
  }

  predicate IsHttpScheme(scheme: string) {
    scheme == "http" || scheme == "https"
  }

  /** `URLHandler.validate_pdf_url`. */
  function ValidatePdfUrl(url: string, lib: UrlLib): (r: bool)
    ensures r <==>
      && url != []
      && lib.parse(url).scheme != [] && lib.parse(url).netloc != []
      && IsHttpScheme(lib.parse(url).scheme)
      && IsPdfUrl(url, lib)
      && |url| <= MaxUrlLength
  {
    if url == [] then false
    else
      var parsed := lib.parse(url);
      if parsed.scheme == [] || parsed.netloc == [] then false
      else if !IsHttpScheme(parsed.scheme) then false
      else if !IsPdfUrl(url, lib) then false
      else |url| <= MaxUrlLength
  }

  // ---------------------------------------------------------------------------
  // Filename extraction
  // ---------------------------------------------------------------------------

  /** `s.split('/')[-1]`. */
  function LastSegment(path: string): string {
    var parts := Split(path, '/');
    parts[|parts| - 1]
  }

  /** `dict(pairs).get(key)`: a later pair overrides an earlier one. */
  function LookupLast(pairs: seq<(string, string)>, key: string): (r: Option<string>)
    ensures r.Some? <==> exists i :: 0 <= i < |pairs| && pairs[i].0 == key
    ensures r.Some? ==>
      exists i :: 0 <= i < |pairs| && pairs[i] == (key, r.value) && forall j :: i < j < |pairs| ==> pairs[j].0 != key
    decreases |pairs|
  {
    if pairs == [] then None
    else if pairs[|pairs| - 1].0 == key then Some(pairs[|pairs| - 1].1)
    else LookupLast(pairs[..|pairs| - 1], key)
  }

  /** A decoded and cleaned candidate, kept only when it is non-empty. */
  function CleanedCandidate(raw: string, lib: UrlLib): (r: Option<string>)
    ensures r.Some? ==> r.value != [] && IsCleanName(r.value)
  {
    if raw != [] && '.' in raw then
      var name := CleanFilename(lib.unquote(raw));
      if name != [] then Some(name) else None
    else None
  }

  /** First source: the last path segment, when it has a dot. */
  function NameFromPath(parsed: Url, lib: UrlLib): (r: Option<string>)
    ensures r.Some? ==> r.value != [] && IsCleanName(r.value)
  {
    if parsed.path == [] then None else CleanedCandidate(LastSegment(parsed.path), lib)
  }

  const QueryFileKeys: seq<string> := ["file", "filename", "name"]

  /** Second source: the first of the keys in `keys` whose query value yields a name. */
  function NameFromQueryKeys(params: seq<(string, string)>, keys: seq<string>, lib: UrlLib): (r: Option<string>)
    ensures r.Some? ==> r.value != [] && IsCleanName(r.value)
    decreases |keys|
  {
    if keys == [] then None
    else
      var here := match LookupLast(params, keys[0])
        case Some(v) => CleanedCandidate(v, lib)
        case None => None;
      if here.Some? then here else NameFromQueryKeys(params, keys[1..], lib)
  }

  function NameFromQuery(parsed: Url, lib: UrlLib): (r: Option<string>)
    ensures r.Some? ==> r.value != [] && IsCleanName(r.value)
  {
    if parsed.query == [] then None
    else NameFromQueryKeys(lib.parseQuery(parsed.query), QueryFileKeys, lib)
  }

  /** Third source: the cleaned fallback text, given a `.pdf` extension when it lacks one. */
  function NameFromText(fallback: string): (r: Option<string>)
    ensures r.Some? ==> r.value != [] && forall c :: c in r.value ==> SafeChar(c)
    ensures r.Some? ==> EndsWith(LowerStr(r.value), ".pdf")
    ensures r.None? <==> CleanFilename(fallback) == []
  {
    if fallback == [] then None
    else
      var name := CleanFilename(fallback);
      if name == [] then None
      else if EndsWith(LowerStr(name), ".pdf") then Some(name)
      else
        WithPdfExtension(name);
        Some(name + ".pdf")
  }

  lemma WithPdfExtension(name: string)
    requires forall c :: c in name ==> SafeChar(c)
    ensures forall c :: c in name + ".pdf" ==> SafeChar(c)
    ensures EndsWith(name + ".pdf", ".pdf") && EndsWith(LowerStr(name + ".pdf"), ".pdf")
  {
    SafeAppend(name, ".pdf");
    LowerKeepsPdfExtension(name);
  }

  lemma SafeAppend(a: string, b: string)
    requires forall c :: c in a ==> SafeChar(c)
    requires forall c :: c in b ==> SafeChar(c)
    ensures forall c :: c in a + b ==> SafeChar(c)
  {
  }

  lemma LowerKeepsPdfExtension(name: string)
    ensures EndsWith(LowerStr(name + ".pdf"), ".pdf")
  {
    var full := name + ".pdf";
    var r := LowerStr(full);
    forall k | 0 <= k < 4 ensures r[|r| - 4..][k] == ".pdf"[k] {
      assert full[|name| + k] == ".pdf"[k];
    }
  }

  /** `f"document_{int(time.time())}.pdf"`, the timestamp given. */
  function TimestampName(now: nat): (r: string)
    ensures EndsWith(r, ".pdf") && StartsWith(r, "document_")
    ensures forall c :: c in r ==> SafeChar(c)
  {
    var digits := NatToString(now);
    assert forall c :: c in digits ==> SafeChar(c);
    "document_" + digits + ".pdf"
  }

  /**
   * `URLHandler.extract_filename_from_url`: the path segment, else a query value,
   * else the fallback text, else a timestamped name.
   */
  function ExtractFilename(url: string, fallback: string, now: nat, lib: UrlLib): (r: string)
    ensures r != [] && forall c :: c in r ==> SafeChar(c)
    ensures NameFromPath(lib.parse(url), lib).Some? ==> r == NameFromPath(lib.parse(url), lib).value
    ensures NameFromPath(lib.parse(url), lib).None? && NameFromQuery(lib.parse(url), lib).Some? ==>
      r == NameFromQuery(lib.parse(url), lib).value
    // a name not taken from the URL always carries the `.pdf` extension
    ensures NameFromPath(lib.parse(url), lib).None? && NameFromQuery(lib.parse(url), lib).None? ==>
      EndsWith(LowerStr(r), ".pdf")
    ensures (NameFromPath(lib.parse(url), lib).None? && NameFromQuery(lib.parse(url), lib).None?
      && NameFromText(fallback).Some?) ==> r == NameFromText(fallback).value
    ensures (NameFromPath(lib.parse(url), lib).None? && NameFromQuery(lib.parse(url), lib).None?
      && CleanFilename(fallback) == []) ==> r == TimestampName(now)
  {
    var parsed := lib.parse(url);
    var timestamped := TimestampName(now);
    assert EndsWith(LowerStr(timestamped), ".pdf") by {
      LowerStrAppend("document_" + NatToString(now), ".pdf");
    }
    NameFromPath(parsed, lib).GetOr(NameFromQuery(parsed, lib).GetOr(NameFromText(fallback).GetOr(timestamped)))
  }

  // ---------------------------------------------------------------------------
  // Normalisation
  // ---------------------------------------------------------------------------

  /** `path.split('/', 1)`: the text before the first `/`, and the rest if there is a `/`. */
  function SplitOnce(path: string): (r: (string, Option<string>))
    ensures '/' !in r.0
    ensures r.1.None? ==> r.0 == path
    ensures r.1.Some? ==> path == r.0 + "/" + r.1.value
    decreases |path|
  {
    if path == [] then ("", None)
    else if path[0] == '/' then ("", Some(path[1..]))
    else
      var rest := SplitOnce(path[1..]);
      ([path[0]] + rest.0, rest.1)
  }

  /** A scheme-less URL whose host was parsed as the start of its path (`example.com/a`). */
  predicate IsBareHost(parsed: Url) {
    parsed.scheme == [] && parsed.netloc == [] && parsed.path != [] && '.' in parsed.path
  }

  /** The missing-scheme repair: `example.com/a` becomes host `example.com`, path `/a`. */
  function AddScheme(parsed: Url): (r: Url)
    ensures parsed.scheme != [] ==> r == parsed
    ensures parsed.scheme == [] ==> r.scheme == "http"
    ensures IsBareHost(parsed) ==>
      && '/' !in r.netloc
      && r.netloc + r.path == (if '/' in parsed.path then parsed.path else parsed.path + "/")
    ensures parsed.scheme == [] && !IsBareHost(parsed) ==> r == parsed.(scheme := "http")
    ensures r.params == parsed.params && r.query == parsed.query && r.fragment == parsed.fragment
  {
    if parsed.scheme != [] then parsed
    else if parsed.netloc == [] && parsed.path != [] && '.' in parsed.path then
      var (host, rest) := SplitOnce(parsed.path);
      match rest
      case Some(tail) => parsed.(scheme := "http", netloc := host, path := if tail != [] then "/" + tail else "/")
      case None => parsed.(scheme := "http", netloc := host, path := "/")
    else parsed.(scheme := "http")
  }

  predicate IsSlash(c: char) {
    c == '/'
  }

  predicate NotSlash(c: char) {
    c != '/'
  }

  /**
   * The path made non-empty and rooted, with runs of `/` collapsed: the segments
   * keep their text and order, and a trailing `/` survives exactly when there was one
   * (an empty path counts as `/`).
   */
  function NormalizePath(path: string): (r: string)
    ensures StartsWith(r, "/") && NoDoubled(r, '/')
    ensures Filter(r, NotSlash) == Filter(path, NotSlash)
    ensures r[|r| - 1] == '/' <==> path == [] || path[|path| - 1] == '/'
  {
    SqueezeSlashes(path);
    Squeeze(Rooted(path), IsSlash, '/')
  }

  /** Collapsing the `/` runs of a rooted path keeps it rooted, its segments and its trailing `/`. */
  lemma SqueezeSlashes(path: string)
    ensures var r := Squeeze(Rooted(path), IsSlash, '/');
      && StartsWith(r, "/") && NoDoubled(r, '/')
      && Filter(r, NotSlash) == Filter(path, NotSlash)
      && (r[|r| - 1] == '/' <==> path == [] || path[|path| - 1] == '/')
  {
    var rooted := Rooted(path);
    SqueezeHead(rooted, IsSlash, '/');
    SqueezeNoAdjacentRuns(rooted, IsSlash, '/');
    SqueezeKeepsOthers(rooted, IsSlash, '/', NotSlash);
    SqueezeLast(rooted, IsSlash, '/');
  }

  /** The path given a leading `/` when it has none; an empty path becomes `/`. */
  function Rooted(path: string): (r: string)
    ensures r != [] && r[0] == '/'
    ensures Filter(r, NotSlash) == Filter(path, NotSlash)
    ensures r[|r| - 1] == '/' <==> path == [] || path[|path| - 1] == '/'
  {
    if path == [] then "/"
    else if path[0] != '/' then
      assert ("/" + path)[1..] == path;
      "/" + path
    else path
  }

  /** The shape every normalised URL has. */
  predicate IsNormalForm(u: Url) {
    && u.scheme != [] && LowerStr(u.scheme) == u.scheme
    && LowerStr(u.netloc) == u.netloc
    && StartsWith(u.path, "/") && NoDoubled(u.path, '/')
  }

  /** The record `normalize_url` hands to `urlunparse`. */
  function NormalizeParts(parsed: Url): (r: Url)
    ensures IsNormalForm(r)
    ensures r.scheme == if parsed.scheme == [] then "http" else LowerStr(parsed.scheme)
    ensures r.netloc == LowerStr(AddScheme(parsed).netloc)
    ensures !IsBareHost(parsed) ==> r.netloc == LowerStr(parsed.netloc)
    ensures r.path == NormalizePath(AddScheme(parsed).path)
    ensures r.params == parsed.params && r.query == parsed.query && r.fragment == parsed.fragment
  {
    var withScheme := AddScheme(parsed);
    LowerStrIdempotent(withScheme.scheme);
    LowerStrIdempotent(withScheme.netloc);
    HttpIsLower();
    Url(LowerStr(withScheme.scheme), LowerStr(withScheme.netloc), NormalizePath(withScheme.path),
        withScheme.params, withScheme.query, withScheme.fragment)
  }

  /** The scheme `normalize_url` supplies is already lower case. */
  lemma HttpIsLower()
    ensures LowerStr("http") == "http"
  {
    LowerStrFixesLower("http");
  }

  /** Normalising a normalised record changes nothing. */
  lemma NormalizePartsIdempotent(parsed: Url)
    ensures NormalizeParts(NormalizeParts(parsed)) == NormalizeParts(parsed)
  {
    var r := NormalizeParts(parsed);
    assert AddScheme(r) == r;
    var p := r.path;
    assert forall i :: 0 <= i < |p| && IsSlash(p[i]) ==> p[i] == '/';
    SqueezeFixpoint(p, IsSlash, '/');
  }

  /** The stripped URL, resolved against the base only when there is a base and the URL has no scheme. */
  function AbsoluteUrl(url: string, baseUrl: string, lib: UrlLib): string {
    var stripped := Strip(url);
    if baseUrl != [] && lib.parse(stripped).scheme == [] then lib.join(baseUrl, stripped) else stripped
  }

  /** `URLHandler.normalize_url`. */
  function NormalizeUrl(url: string, baseUrl: string, lib: UrlLib): (r: string)
    ensures url == [] ==> r == []
    ensures url != [] ==> r == lib.unparse(NormalizeParts(lib.parse(AbsoluteUrl(url, baseUrl, lib))))
    ensures url != [] ==> exists u :: IsNormalForm(u) && r == lib.unparse(u)
  {
    if url == [] then []
    else
      var u := NormalizeParts(lib.parse(AbsoluteUrl(url, baseUrl, lib)));
      lib.unparse(u)
  }

  // ---------------------------------------------------------------------------
  // Search URLs
  // ---------------------------------------------------------------------------

  /** The query parameters tried for every search term, in order. */
  const SearchKeys: seq<string> := ["q", "search", "keyword", "query"]

  /** `URLHandler.build_search_urls`: four URLs per term, in term order. */
  method BuildSearchUrls(baseUrl: string, terms: seq<string>, lib: UrlLib) returns (urls: seq<string>)
    ensures |urls| == |SearchKeys| * |terms|
    ensures forall j :: 0 <= j < |urls| ==>
      urls[j] == baseUrl + "?" + SearchKeys[j % 4] + "=" + lib.quote(terms[j / 4])
  {
    urls := [];
    for i := 0 to |terms|
      invariant |urls| == 4 * i
      invariant forall j :: 0 <= j < |urls| ==>
        urls[j] == baseUrl + "?" + SearchKeys[j % 4] + "=" + lib.quote(terms[j / 4])
    {
      var encoded := lib.quote(terms[i]);
      var params := seq(4, k requires 0 <= k < 4 => SearchKeys[k] + "=" + encoded);
      for k := 0 to 4
        invariant |urls| == 4 * i + k
        invariant forall j :: 0 <= j < |urls| ==>
          urls[j] == baseUrl + "?" + SearchKeys[j % 4] + "=" + lib.quote(terms[j / 4])
      {
        assert (4 * i + k) / 4 == i && (4 * i + k) % 4 == k;
        urls := urls + [baseUrl + "?" + params[k]];
      }
    }
  }

  // ---------------------------------------------------------------------------
  // De-duplication of PDF texts found in a page
  // ---------------------------------------------------------------------------

  datatype TextKind = LinkText | ButtonText | ElementText

  /** One text hit of `find_pdf_text_in_html`: the stripped text and where it was found. */
  datatype TextHit = TextHit(text: string, kind: TextKind)

  /** The hits whose text was not seen before, first occurrence kept. */
  function UniqueByText(hits: seq<TextHit>, seen: set<string>): seq<TextHit>
    decreases |hits|
  {
    if hits == [] then []
    else if hits[0].text in seen then UniqueByText(hits[1..], seen)
    else [hits[0]] + UniqueByText(hits[1..], seen + {hits[0].text})
  }

  /** The de-duplication loop of `find_pdf_text_in_html`. */
  method DedupTexts(hits: seq<TextHit>) returns (unique: seq<TextHit>)
    ensures unique == UniqueByText(hits, {})
  {
    unique := [];
    var seen: set<string> := {};
    var i := 0;
    while i < |hits|
      invariant 0 <= i <= |hits|
      invariant unique + UniqueByText(hits[i..], seen) == UniqueByText(hits, {})
    {
      assert hits[i..][1..] == hits[i + 1..];
      if hits[i].text !in seen {
        unique := unique + [hits[i]];
        seen := seen + {hits[i].text};
      }
      i := i + 1;
    }
  }

  function Texts(hits: seq<TextHit>): set<string> {
    set h | h in hits :: h.text
  }

  /** `x` is the first hit carrying its text. */
  predicate FirstWithText(hits: seq<TextHit>, x: TextHit) {
    exists i :: 0 <= i < |hits| && hits[i] == x && forall j :: 0 <= j < i ==> hits[j].text != x.text
  }

  /** The texts kept are exactly the texts of the input not already seen. */
  lemma {:induction false} UniqueByTextTexts(hits: seq<TextHit>, seen: set<string>)
    ensures Texts(UniqueByText(hits, seen)) == Texts(hits) - seen
    decreases |hits|
  {
    if hits != [] {
      var h := hits[0];
      assert hits == [h] + hits[1..];
      assert Texts(hits) == {h.text} + Texts(hits[1..]);
      if h.text in seen {
        UniqueByTextTexts(hits[1..], seen);
      } else {
        UniqueByTextTexts(hits[1..], seen + {h.text});
        var rest := UniqueByText(hits[1..], seen + {h.text});
        assert Texts([h] + rest) == {h.text} + Texts(rest);
      }
    }
  }

  predicate TextsDistinct(r: seq<TextHit>) {
    forall a, b :: 0 <= a < b < |r| ==> r[a].text != r[b].text
  }

  predicate AllFirstUnseen(r: seq<TextHit>, hits: seq<TextHit>, seen: set<string>) {
    forall k :: 0 <= k < |r| ==> r[k].text !in seen && FirstWithText(hits, r[k])
  }

  /** No two kept hits share a text. */
  lemma {:induction false} UniqueByTextDistinct(hits: seq<TextHit>, seen: set<string>)
    ensures TextsDistinct(UniqueByText(hits, seen))
    decreases |hits|
  {
    if hits != [] {
      var h := hits[0];
      if h.text in seen {
        UniqueByTextDistinct(hits[1..], seen);
        assert UniqueByText(hits, seen) == UniqueByText(hits[1..], seen);
      } else {
        var seen' := seen + {h.text};
        UniqueByTextDistinct(hits[1..], seen');
        UniqueByTextTexts(hits[1..], seen');
        var rest := UniqueByText(hits[1..], seen');
        var r := [h] + rest;
        forall a, b | 0 <= a < b < |r| ensures r[a].text != r[b].text {
          assert r[b] == rest[b - 1];
          if a == 0 {
            assert r[b].text in Texts(rest);
          } else {
            assert r[a] == rest[a - 1];
          }
        }
      }
    }
  }

  /** Every kept hit is the first hit of the input carrying its text, and its text was not already seen. */
  lemma {:induction false} UniqueByTextFirst(hits: seq<TextHit>, seen: set<string>)
    ensures AllFirstUnseen(UniqueByText(hits, seen), hits, seen)
    decreases |hits|
  {
    if hits != [] {
      var h, tail := hits[0], hits[1..];
      var seen' := if h.text in seen then seen else seen + {h.text};
      UniqueByTextFirst(tail, seen');
      var rest := UniqueByText(tail, seen');
      var r := UniqueByText(hits, seen);
      assert r == if h.text in seen then rest else [h] + rest;
      forall k | 0 <= k < |r| ensures r[k].text !in seen && FirstWithText(hits, r[k]) {
        if h.text !in seen && k == 0 {
          assert hits[0] == r[0];
        } else {
          var x := r[k];
          var m := if h.text in seen then k else k - 1;
          assert rest[m] == x;
          assert FirstWithText(tail, x) && x.text !in seen';
          var i :| 0 <= i < |tail| && tail[i] == x && forall j :: 0 <= j < i ==> tail[j].text != x.text;
          assert hits[i + 1] == x;
          forall j | 0 <= j < i + 1 ensures hits[j].text != x.text {
            if j > 0 { assert hits[j] == tail[j - 1]; }
          }
        }
      }
    }
  }

  /** The kept hits appear in the input's order. */
  lemma {:induction false} UniqueByTextOrder(hits: seq<TextHit>, seen: set<string>)
    ensures IsSubsequence(UniqueByText(hits, seen), hits)
    decreases |hits|
  {
    if hits != [] {
      var h := hits[0];
      if h.text in seen {
        UniqueByTextOrder(hits[1..], seen);
        SubsequenceOfLonger(UniqueByText(hits[1..], seen), hits);
      } else {
        UniqueByTextOrder(hits[1..], seen + {h.text});
        var r := UniqueByText(hits, seen);
        assert r[0] == h && r[1..] == UniqueByText(hits[1..], seen + {h.text});
      }
    }
  }

  lemma {:induction false} SubsequenceOfLonger<T>(a: seq<T>, b: seq<T>)
    requires b != [] && IsSubsequence(a, b[1..])
    ensures IsSubsequence(a, b)
  {
  }
}

/**
 * The browser wrapper: the three-pass PDF link search over a page, the filename it
 * derives for each link, and the outcome logic of navigation and shutdown. The page
 * itself is an input: each selector query is the sequence of elements it matched, or
 * `None` when the query raised.
 */
module PlaywrightBrowser {
  import opened Wrappers
  import opened Text
  import opened Seqs
  import opened Urls
  import UrlHandler

  /** How a link was found (`type` of a link record). */
  datatype LinkKind = TextMatch | ExtensionMatch | ElementMatch | DirectExtensionMatch | DirectTextMatch

  /**
   * A link record: `url`, stripped `text`, `filename`, `type`, and the `valid` key the
   * downloader adds later (absent on records the search produces).
   */
  datatype PdfLink = PdfLink(url: string, text: string, filename: string, kind: LinkKind, valid: Option<bool>)

  /**
   * One element a selector matched: its lower-cased tag, its text content, its `href`
   * attribute, the `href` of its first descendant anchor (`None` when it has no
   * anchor), and whether reading it raises.
   */
  datatype Element = Element(tag: string, text: Option<string>, href: Option<string>,
                             anchorHref: Option<Option<string>>, fault: bool)

  /** What the search needs from its surroundings: the page URL, `urllib.parse` and the clock. */
  datatype Context = Context(pageUrl: string, lib: UrlLib, now: nat)

  // ---------------------------------------------------------------------------
  // Filenames
  // ---------------------------------------------------------------------------

  /** `text.strip() if text else ''`. */
  function StripText(text: Option<string>): string {
    match text
    case Some(t) => Strip(t)
    case None => []
  }

  /** `re.sub(r'[<>:"/\\|?*]', '_', ...)` followed by `re.sub(r'\s+', '_', ...)`. */
  function CleanLinkText(t: string): (r: string)
    ensures forall c :: c in r ==> UrlHandler.SafeChar(c)
  {
    var replaced := UrlHandler.ReplaceIllegal(t);
    assert forall c :: c in replaced ==> !UrlHandler.IsIllegal(c);
    SqueezeChars(replaced, IsSpace, '_');
    Squeeze(replaced, IsSpace, '_')
  }

  /**
   * `PlaywrightBrowser._extract_filename_from_url`: the raw decoded last path segment
   * when the path ends in `.pdf`, else the cleaned link text plus `.pdf`, else a
   * timestamped name.
   */
  function LinkFilename(url: string, text: Option<string>, now: nat, lib: UrlLib): (r: string)
    ensures EndsWith(LowerStr(lib.parse(url).path), ".pdf") ==>
      r == lib.unquote(UrlHandler.LastSegment(lib.parse(url).path))
    ensures !EndsWith(LowerStr(lib.parse(url).path), ".pdf") ==>
      EndsWith(r, ".pdf") && forall c :: c in r ==> UrlHandler.SafeChar(c)
    ensures !EndsWith(LowerStr(lib.parse(url).path), ".pdf") && text.Some? && text.value != [] ==>
      r == CleanLinkText(Strip(text.value)) + ".pdf"
  {
    var path := lib.parse(url).path;
    if EndsWith(LowerStr(path), ".pdf") then lib.unquote(UrlHandler.LastSegment(path))
    else if text.Some? && text.value != [] then
      var cleaned := CleanLinkText(Strip(text.value));
      UrlHandler.WithPdfExtension(cleaned);
      cleaned + ".pdf"
    else UrlHandler.TimestampName(now)
  }

  // ---------------------------------------------------------------------------
  // One element
  // ---------------------------------------------------------------------------

  predicate IsClickableTag(tag: string) {
    tag == "button" || tag == "div" || tag == "span"
  }

  /** The record an anchor contributes: only an anchor that reads without error and has a non-empty `href`. */
  function AnchorLink(e: Element, kind: LinkKind, ctx: Context): (r: Option<PdfLink>)
    ensures r.Some? <==> !e.fault && e.href.Some? && e.href.value != []
    ensures r.Some? ==> r.value == PdfLink(ctx.lib.join(ctx.pageUrl, e.href.value), StripText(e.text),
      LinkFilename(ctx.lib.join(ctx.pageUrl, e.href.value), e.text, ctx.now, ctx.lib), kind, None)
  {
    if e.fault then None
    else match e.href
      case Some(href) =>
        if href != [] then
          var fullUrl := ctx.lib.join(ctx.pageUrl, href);
          Some(PdfLink(fullUrl, StripText(e.text), LinkFilename(fullUrl, e.text, ctx.now, ctx.lib), kind, None))
        else None
      case None => None
  }

  /**
   * The record a `button`, `div` or `span` contributes through its first descendant
   * anchor: the anchor's URL with the element's own text.
   */
  function ElementLink(e: Element, ctx: Context): (r: Option<PdfLink>)
    ensures r.Some? <==>
      !e.fault && IsClickableTag(e.tag) && e.anchorHref.Some? && e.anchorHref.value.Some? && e.anchorHref.value.value != []
    ensures r.Some? ==>
      && r.value.text == StripText(e.text) && r.value.kind == ElementMatch
      && r.value.url == ctx.lib.join(ctx.pageUrl, e.anchorHref.value.value)
      && r.value.filename == LinkFilename(r.value.url, e.text, ctx.now, ctx.lib)
      && r.value.valid.None?
  {
    if e.fault || !IsClickableTag(e.tag) then None
    else match e.anchorHref
      case Some(Some(href)) =>
        if href != [] then
          var fullUrl := ctx.lib.join(ctx.pageUrl, href);
          Some(PdfLink(fullUrl, StripText(e.text), LinkFilename(fullUrl, e.text, ctx.now, ctx.lib), ElementMatch, None))
        else None
      case _ => None
  }

  /** The record an element contributes in a pass of the given kind. */
  function PassLink(e: Element, kind: LinkKind, ctx: Context): Option<PdfLink> {
    if kind == ElementMatch then ElementLink(e, ctx) else AnchorLink(e, kind, ctx)
  }

  // ---------------------------------------------------------------------------
  // Building the list
  // ---------------------------------------------------------------------------

  /** What each element of a query contributes to a pass of the given kind. */
  function Contributions(es: seq<Element>, kind: LinkKind, ctx: Context): (cands: seq<Option<PdfLink>>)
    ensures |cands| == |es|
    ensures forall k :: 0 <= k < |es| ==> cands[k] == PassLink(es[k], kind, ctx)
  {
    seq(|es|, k requires 0 <= k < |es| => PassLink(es[k], kind, ctx))
  }

  /** Some record of `links` has this URL (`any(pl['url'] == u for pl in links)`). */
  predicate HasUrl(links: seq<PdfLink>, url: string) {
    exists k :: 0 <= k < |links| && links[k].url == url
  }

  /** The records present among the contributions, in order: what a pass without membership check appends. */
  function Present(cands: seq<Option<PdfLink>>): seq<PdfLink>
    decreases |cands|
  {
    if cands == [] then []
    else
      var prev := Present(cands[..|cands| - 1]);
      match cands[|cands| - 1]
      case Some(l) => prev + [l]
      case None => prev
  }

  /** A pass with a membership check: a record is appended only when its URL is not yet listed. */
  function AddNew(acc: seq<PdfLink>, cands: seq<Option<PdfLink>>): seq<PdfLink>
    decreases |cands|
  {
    if cands == [] then acc
    else
      var prev := AddNew(acc, cands[..|cands| - 1]);
      match cands[|cands| - 1]
      case Some(l) => if HasUrl(prev, l.url) then prev else prev + [l]
      case None => prev
  }

  /** The list `find_pdf_links` returns when all three queries succeed. */
  function SearchResult(ctx: Context, textAnchors: seq<Element>, pdfAnchors: seq<Element>, textElements: seq<Element>): seq<PdfLink> {
    var pass1 := Present(Contributions(textAnchors, TextMatch, ctx));
    var pass2 := AddNew(pass1, Contributions(pdfAnchors, ExtensionMatch, ctx));
    AddNew(pass2, Contributions(textElements, ElementMatch, ctx))
  }

  predicate IsPresent(c: Option<PdfLink>) {
    c.Some?
  }

  /** A pass without membership check appends one record per contributing element, duplicates included. */
  lemma {:induction false} PresentCount(cands: seq<Option<PdfLink>>)
    ensures |Present(cands)| == Count(cands, IsPresent)
    decreases |cands|
  {
    if cands != [] {
      var init, last := cands[..|cands| - 1], cands[|cands| - 1];
      PresentCount(init);
      assert cands == init + [last];
      CountAppend(init, [last], IsPresent);
    }
  }

  /** One more contribution appends its record, if any, to the unchecked pass. */
  lemma PresentStep(cands: seq<Option<PdfLink>>, i: nat)
    requires i < |cands|
    ensures Present(cands[..i + 1]) == Present(cands[..i]) + (if cands[i].Some? then [cands[i].value] else [])
  {
    assert cands[..i + 1][..i] == cands[..i];
  }

  /** Two anchors with the same `href` in the unchecked first pass both stay in the list ... */
  lemma FirstPassKeepsDuplicates(l: PdfLink)
    ensures Present([Some(l), Some(l)]) == [l, l]
  {
    assert [Some(l), Some(l)][..1] == [Some(l)];
    assert [Some(l)][..0] == [];
    assert Present([Some(l)]) == [l];
  }

  /** ... while a checked pass lists such a pair once. */
  lemma CheckedPassDropsDuplicates(l: PdfLink)
    ensures AddNew([], [Some(l), Some(l)]) == [l]
  {
    assert [Some(l), Some(l)][..1] == [Some(l)];
    assert [Some(l)][..0] == [];
    assert AddNew([], [Some(l)]) == [l];
    assert HasUrl([l], l.url) by {
      assert [l][0].url == l.url;
    }
  }

  /** The earlier records are kept as they were. */
  lemma {:induction false} AddNewExtends(acc: seq<PdfLink>, cands: seq<Option<PdfLink>>)
    ensures var r := AddNew(acc, cands);
      |acc| <= |r| && r[..|acc|] == acc
    decreases |cands|
  {
    if cands != [] {
      AddNewExtends(acc, cands[..|cands| - 1]);
    }
  }

  /** The URLs of `r` from index `from` on are distinct from each other and from every earlier URL. */
  predicate FreshFrom(r: seq<PdfLink>, from: nat) {
    forall i, j :: 0 <= i < j < |r| && from <= j ==> r[i].url != r[j].url
  }

  /** Records appended by a checked pass carry URLs not listed before and distinct from each other. */
  lemma {:induction false} AddNewFresh(acc: seq<PdfLink>, cands: seq<Option<PdfLink>>)
    ensures FreshFrom(AddNew(acc, cands), |acc|)
    decreases |cands|
  {
    if cands != [] {
      var prev := AddNew(acc, cands[..|cands| - 1]);
      AddNewFresh(acc, cands[..|cands| - 1]);
      AddNewExtends(acc, cands[..|cands| - 1]);
      match cands[|cands| - 1]
      case Some(l) =>
        if !HasUrl(prev, l.url) {
          var r := prev + [l];
          forall i, j | 0 <= i < j < |r| && |acc| <= j ensures r[i].url != r[j].url {
            if j == |prev| {
              assert r[i] == prev[i];
            } else {
              assert r[i] == prev[i] && r[j] == prev[j];
            }
          }
        }
      case None =>
    }
  }

  /** After a checked pass every contribution's URL is listed. */
  lemma {:induction false} AddNewCovers(acc: seq<PdfLink>, cands: seq<Option<PdfLink>>)
    ensures forall k :: 0 <= k < |cands| && cands[k].Some? ==> HasUrl(AddNew(acc, cands), cands[k].value.url)
    decreases |cands|
  {
    if cands != [] {
      var init := cands[..|cands| - 1];
      var prev := AddNew(acc, init);
      var r := AddNew(acc, cands);
      AddNewCovers(acc, init);
      assert forall m :: 0 <= m < |prev| ==> r[m] == prev[m];
      forall k | 0 <= k < |cands| && cands[k].Some? ensures HasUrl(r, cands[k].value.url) {
        var u := cands[k].value.url;
        if k < |cands| - 1 {
          assert init[k] == cands[k];
          var m :| 0 <= m < |prev| && prev[m].url == u;
          assert r[m].url == u;
        } else if !HasUrl(prev, u) {
          assert r[|prev|].url == u;
        } else {
          var m :| 0 <= m < |prev| && prev[m].url == u;
          assert r[m].url == u;
        }
      }
    }
  }

  /** Every record a checked pass appends is one of its contributions. */
  lemma {:induction false} AddNewFromCandidates(acc: seq<PdfLink>, cands: seq<Option<PdfLink>>)
    ensures var r := AddNew(acc, cands);
      forall j :: |acc| <= j < |r| ==> Some(r[j]) in cands
    decreases |cands|
  {
    if cands != [] {
      var init, last := cands[..|cands| - 1], cands[|cands| - 1];
      AddNewFromCandidates(acc, init);
      AddNewExtends(acc, init);
      var prev, r := AddNew(acc, init), AddNew(acc, cands);
      assert r == prev || (last.Some? && r == prev + [last.value]);
      forall j | |acc| <= j < |r| ensures Some(r[j]) in cands {
        if j < |prev| {
          assert r[j] == prev[j] && Some(prev[j]) in init;
          var m :| 0 <= m < |init| && init[m] == Some(prev[j]);
          assert cands[m] == init[m];
        } else {
          assert r[j] == last.value;
        }
      }
    }
  }

  /** A list without repeated URLs keeps that property through a checked pass. */
  lemma AddNewKeepsDistinct(acc: seq<PdfLink>, cands: seq<Option<PdfLink>>)
    requires FreshFrom(acc, 0)
    ensures FreshFrom(AddNew(acc, cands), 0)
  {
    AddNewExtends(acc, cands);
    AddNewFresh(acc, cands);
    var r := AddNew(acc, cands);
    forall i, j | 0 <= i < j < |r| ensures r[i].url != r[j].url {
      if j < |acc| {
        assert r[i] == acc[i] && r[j] == acc[j];
      }
    }
  }

  /** Two checked passes after `pass1`: it stays a prefix, nothing after it repeats a URL, every record offered is listed. */
  lemma TwoPassesShape(pass1: seq<PdfLink>, c2: seq<Option<PdfLink>>, c3: seq<Option<PdfLink>>)
    ensures var r := AddNew(AddNew(pass1, c2), c3);
      && |pass1| <= |r| && r[..|pass1|] == pass1
      && FreshFrom(r, |pass1|)
      && (forall k :: 0 <= k < |c2| && c2[k].Some? ==> HasUrl(r, c2[k].value.url))
      && (forall k :: 0 <= k < |c3| && c3[k].Some? ==> HasUrl(r, c3[k].value.url))
  {
    var pass2 := AddNew(pass1, c2);
    var r := AddNew(pass2, c3);
    AddNewExtends(pass1, c2);
    AddNewExtends(pass2, c3);
    AddNewFresh(pass1, c2);
    AddNewFresh(pass2, c3);
    forall i, j | 0 <= i < j < |r| && |pass1| <= j ensures r[i].url != r[j].url {
      if j < |pass2| {
        assert r[i] == pass2[i] && r[j] == pass2[j];
      }
    }
    AddNewCovers(pass1, c2);
    AddNewCovers(pass2, c3);
    forall k | 0 <= k < |c2| && c2[k].Some? ensures HasUrl(r, c2[k].value.url) {
      var m :| 0 <= m < |pass2| && pass2[m].url == c2[k].value.url;
      assert r[m] == pass2[m];
    }
  }

  /**
   * The search result starts with the whole first pass, adds no URL twice after it,
   * and lists every URL the later passes found.
   */
  lemma SearchResultShape(ctx: Context, textAnchors: seq<Element>, pdfAnchors: seq<Element>, textElements: seq<Element>)
    ensures var pass1 := Present(Contributions(textAnchors, TextMatch, ctx));
      var r := SearchResult(ctx, textAnchors, pdfAnchors, textElements);
      && |pass1| <= |r| && r[..|pass1|] == pass1
      && FreshFrom(r, |pass1|)
      && (forall k :: 0 <= k < |pdfAnchors| && AnchorLink(pdfAnchors[k], ExtensionMatch, ctx).Some? ==>
            HasUrl(r, AnchorLink(pdfAnchors[k], ExtensionMatch, ctx).value.url))
      && (forall k :: 0 <= k < |textElements| && ElementLink(textElements[k], ctx).Some? ==>
            HasUrl(r, ElementLink(textElements[k], ctx).value.url))
  {
    var c2 := Contributions(pdfAnchors, ExtensionMatch, ctx);
    var c3 := Contributions(textElements, ElementMatch, ctx);
    TwoPassesShape(Present(Contributions(textAnchors, TextMatch, ctx)), c2, c3);
    forall k | 0 <= k < |pdfAnchors| ensures c2[k] == AnchorLink(pdfAnchors[k], ExtensionMatch, ctx) {
    }
    forall k | 0 <= k < |textElements| ensures c3[k] == ElementLink(textElements[k], ctx) {
    }
  }


  // ---------------------------------------------------------------------------
  // The browser object
  // ---------------------------------------------------------------------------

  /** An open page, known by its current URL. */
  datatype Page = Page(url: string)

  /** The four resources `close` releases, in its order. */
  datatype Part = PagePart | ContextPart | BrowserPart | EnginePart

  /** What `page.goto` gives back: an exception, no response, or a response whose `ok` is given. */
  datatype GotoOutcome = GotoRaised | NoResponse | Responded(ok: bool)

  /** The first parts of `held` up to, not including, the first one whose release raises. */
  function ReleaseRun(held: seq<Part>, failing: set<Part>): (run: seq<Part>)
    decreases |held|
  {
    if held == [] || held[0] in failing then [] else [held[0]] + ReleaseRun(held[1..], failing)
  }

  /** `[p]` when the part is set, else nothing. */
  function Opt(isSet: bool, p: Part): seq<Part> {
    if isSet then [p] else []
  }

  /** One `if self.x: x.close()` step followed by `rest`, the releases of the later steps. */
  function StepRun(isSet: bool, p: Part, rest: seq<Part>, failing: set<Part>): seq<Part> {
    if !isSet then rest else if p in failing then [] else [p] + rest
  }

  lemma ReleaseStep(isSet: bool, p: Part, rest: seq<Part>, failing: set<Part>)
    ensures ReleaseRun(Opt(isSet, p) + rest, failing) == StepRun(isSet, p, ReleaseRun(rest, failing), failing)
  {
    if isSet {
      assert ([p] + rest)[1..] == rest;
    } else {
      assert [] + rest == rest;
    }
  }

  /** What one step adds to the parts released so far. */
  lemma StepAdvance(done: seq<Part>, isSet: bool, p: Part, rest: seq<Part>, failing: set<Part>)
    ensures isSet && p in failing ==> done + StepRun(isSet, p, rest, failing) == done
    ensures !(isSet && p in failing) ==> done + StepRun(isSet, p, rest, failing) == (done + Opt(isSet, p)) + rest
  {
    if !isSet {
      assert done + [] == done;
    } else if p in failing {
      assert done + [] == done;
    } else {
      assert done + ([p] + rest) == (done + [p]) + rest;
    }
  }

  /** The four steps of `close`, one after the other, release what `ReleaseRun` says. */
  lemma HeldRun(pg: bool, ctx: bool, br: bool, eng: bool, failing: set<Part>)
    ensures ReleaseRun(Opt(pg, PagePart) + Opt(ctx, ContextPart) + Opt(br, BrowserPart) + Opt(eng, EnginePart), failing)
      == StepRun(pg, PagePart, StepRun(ctx, ContextPart, StepRun(br, BrowserPart, StepRun(eng, EnginePart, [], failing), failing), failing), failing)
  {
    var a, b, c, d := Opt(pg, PagePart), Opt(ctx, ContextPart), Opt(br, BrowserPart), Opt(eng, EnginePart);
    assert a + b + c + d == a + (b + (c + d));
    assert d == d + [];
    ReleaseStep(eng, EnginePart, [], failing);
    ReleaseStep(br, BrowserPart, d, failing);
    ReleaseStep(ctx, ContextPart, c + d, failing);
    ReleaseStep(pg, PagePart, b + (c + d), failing);
  }

  /** Releases happen in order and stop at the first failure; nothing after it is released. */
  lemma {:induction false} ReleaseRunStopsAtFailure(held: seq<Part>, failing: set<Part>)
    ensures var run := ReleaseRun(held, failing);
      && |run| <= |held| && run == held[..|run|]
      && (forall p :: p in run ==> p !in failing)
      && (|run| < |held| ==> held[|run|] in failing)
    decreases |held|
  {
    if held != [] && held[0] !in failing {
      ReleaseRunStopsAtFailure(held[1..], failing);
    }
  }

  class Browser {
    var page: Option<Page>
    var hasContext: bool
    var hasBrowser: bool
    var hasEngine: bool
    /** The parts released so far, in order. */
    var released: seq<Part>

    constructor (page: Option<Page>, hasContext: bool, hasBrowser: bool, hasEngine: bool)
      ensures this.page == page && this.hasContext == hasContext
      ensures this.hasBrowser == hasBrowser && this.hasEngine == hasEngine
      ensures released == []
    {
      this.page := page;
      this.hasContext := hasContext;
      this.hasBrowser := hasBrowser;
      this.hasEngine := hasEngine;
      released := [];
    }

    /** The parts that are set, in the order `close` visits them. */
    function Held(): seq<Part>
      reads this
    {
      Opt(page.Some?, PagePart) + Opt(hasContext, ContextPart) + Opt(hasBrowser, BrowserPart) + Opt(hasEngine, EnginePart)
    }

    /** One `if self.x: await self.x.close()`: `raised` when the part is set and its release raises. */
    method ReleaseIfHeld(isSet: bool, p: Part, failing: set<Part>) returns (raised: bool)
      modifies this`released
      ensures raised == (isSet && p in failing)
      ensures released == if raised then old(released) else old(released) + Opt(isSet, p)
    {
      raised := false;
      if isSet {
        if p in failing {
          raised := true;
          return;
        }
        released := released + [p];
      } else {
        assert released + [] == released;
      }
    }

    /**
     * `PlaywrightBrowser.close`: releases page, context, browser and engine in that
     * order inside one `try`; the first release that raises (a member of `failing`)
     * stops the rest and is swallowed. The fields are not reset.
     */
    method Close(failing: set<Part>)
      modifies this`released
      ensures released == old(released) + ReleaseRun(old(Held()), failing)
    {
      var pg, ctx, br, eng := page.Some?, hasContext, hasBrowser, hasEngine;
      ghost var tail3 := StepRun(eng, EnginePart, [], failing);
      ghost var tail2 := StepRun(br, BrowserPart, tail3, failing);
      ghost var tail1 := StepRun(ctx, ContextPart, tail2, failing);
      ghost var run := StepRun(pg, PagePart, tail1, failing);
      HeldRun(pg, ctx, br, eng, failing);
      assert ReleaseRun(old(Held()), failing) == run;
      ghost var start := released;
      StepAdvance(released, pg, PagePart, tail1, failing);
      var raised := ReleaseIfHeld(pg, PagePart, failing);
      if raised {
        return;
      }
      assert start + run == released + tail1;
      StepAdvance(released, ctx, ContextPart, tail2, failing);
      raised := ReleaseIfHeld(ctx, ContextPart, failing);
      if raised {
        return;
      }
      assert start + run == released + tail2;
      StepAdvance(released, br, BrowserPart, tail3, failing);
      raised := ReleaseIfHeld(br, BrowserPart, failing);
      if raised {
        return;
      }
      assert start + run == released + tail3;
      StepAdvance(released, eng, EnginePart, [], failing);
      raised := ReleaseIfHeld(eng, EnginePart, failing);
      assert released == released + [];
    }

    /**
     * `PlaywrightBrowser.navigate_to`: true exactly when a page exists and `goto`
     * returned a response that is ok; a missing page or an exception gives false.
     */
    method NavigateTo(url: string, outcome: GotoOutcome) returns (ok: bool)
      ensures ok <==> page.Some? && outcome == Responded(true)
    {
      if page.None? {
        return false;  // the RuntimeError is caught by the same `try`
      }
      match outcome
      case GotoRaised => ok := false;
      case NoResponse => ok := false;
      case Responded(isOk) => ok := isOk;
    }

    /**
     * `PlaywrightBrowser.find_pdf_links`. `None` stands for the RuntimeError raised when
     * no page is open; a query that raises (`None` input) makes the whole search `[]`.
     */
    method FindPdfLinks(textAnchors: Option<seq<Element>>, pdfAnchors: Option<seq<Element>>,
                        textElements: Option<seq<Element>>, lib: UrlLib, now: nat)
      returns (r: Option<seq<PdfLink>>)
      ensures page.None? <==> r.None?
      ensures page.Some? && (textAnchors.None? || pdfAnchors.None? || textElements.None?) ==> r == Some([])
      ensures page.Some? && textAnchors.Some? && pdfAnchors.Some? && textElements.Some? ==>
        r == Some(SearchResult(Context(page.value.url, lib, now), textAnchors.value, pdfAnchors.value, textElements.value))
    {
      if page.None? {
        return None;
      }
      var links := SearchPage(Context(page.value.url, lib, now), textAnchors, pdfAnchors, textElements);
      return Some(links);
    }
  }

  /** The three passes; any query that raises ends the search with `[]`. */
  method SearchPage(ctx: Context, textAnchors: Option<seq<Element>>, pdfAnchors: Option<seq<Element>>,
                    textElements: Option<seq<Element>>) returns (links: seq<PdfLink>)
    ensures textAnchors.None? || pdfAnchors.None? || textElements.None? ==> links == []
    ensures textAnchors.Some? && pdfAnchors.Some? && textElements.Some? ==>
      links == SearchResult(ctx, textAnchors.value, pdfAnchors.value, textElements.value)
  {
    if textAnchors.None? {
      return [];
    }
    links := CollectEach([], textAnchors.value, TextMatch, ctx);
    assert links == Present(Contributions(textAnchors.value, TextMatch, ctx));
    if pdfAnchors.None? {
      return [];
    }
    links := AddEachNew(links, pdfAnchors.value, ExtensionMatch, ctx);
    if textElements.None? {
      return [];
    }
    links := AddEachNew(links, textElements.value, ElementMatch, ctx);
  }

  /** The loop of a pass without membership check. */
  method CollectEach(acc: seq<PdfLink>, es: seq<Element>, kind: LinkKind, ctx: Context) returns (links: seq<PdfLink>)
    ensures links == acc + Present(Contributions(es, kind, ctx))
    ensures acc == [] ==> links == Present(Contributions(es, kind, ctx))
  {
    ghost var cands := Contributions(es, kind, ctx);
    links := acc;
    for i := 0 to |es|
      invariant links == acc + Present(cands[..i])
    {
      var c := PassLink(es[i], kind, ctx);
      PresentStep(cands, i);
      if c.Some? {
        links := links + [c.value];
      }
    }
    assert cands[..|es|] == cands;
  }

  /** `any(pl['url'] == url for pl in links)`, as a loop. */
  method ListsUrl(links: seq<PdfLink>, url: string) returns (present: bool)
    ensures present <==> HasUrl(links, url)
  {
    present := false;
    for k := 0 to |links|
      invariant present <==> exists m :: 0 <= m < k && links[m].url == url
    {
      if links[k].url == url {
        present := true;
      }
    }
  }

  /** The loop of a pass with membership check. */
  method AddEachNew(acc: seq<PdfLink>, es: seq<Element>, kind: LinkKind, ctx: Context) returns (links: seq<PdfLink>)
    ensures links == AddNew(acc, Contributions(es, kind, ctx))
  {
    ghost var cands := Contributions(es, kind, ctx);
    links := acc;
    for i := 0 to |es|
      invariant links == AddNew(acc, cands[..i])
    {
      assert cands[..i + 1][..i] == cands[..i];
      match PassLink(es[i], kind, ctx)
      case Some(l) =>
        var present := ListsUrl(links, l.url);
        if !present {
          links := links + [l];
        }
      case None =>
    }
    assert cands[..|es|] == cands;
  }
}

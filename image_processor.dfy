/**
 * `ImageProcessor`: the capture loop that cuts the photo wall into pages,
 * has each page rasterised and encoded, and hands the result either to the
 * archive or to a download link.
 *
 * The rasteriser (`html2canvas` over a temporary grid of the page's photos)
 * and the encoder (`canvas.toDataURL`) are not modelled; they are the two
 * functions of a `Renderer`, and a rasteriser that throws is one that
 * returns `None`.
 */
module ImageProcessing {
  import opened Wrappers
  import opened Text
  import opened Files
  import opened Paging
  import opened Progress

  /** A rendered canvas; its pixels are not modelled. */
  datatype Canvas = Canvas(id: nat)

  /** The two parts of a data URL, neither of which contains a comma. */
  type MediaType = s: string | ',' !in s
  type Base64 = s: string | ',' !in s

  /** `data:<mediaType>;base64,<payload>` as `toDataURL` produces it. */
  datatype DataUrl = DataUrl(mediaType: MediaType, payload: Base64)

  function Href(u: DataUrl): string {
    "data:" + u.mediaType + ";base64," + u.payload
  }

  /** `dataUrl.split(',')[1]`: the base64 text of the image. */
  function ImgData(u: DataUrl): (d: string)
    ensures d == u.payload
  {
    HrefPayload(u);
    SecondField(Href(u), ',').GetOr("")
  }

  /** The second comma-separated field of a data URL is its payload. */
  lemma HrefPayload(u: DataUrl)
    ensures SecondField(Href(u), ',') == Some(u.payload)
  {
    var head := "data:" + u.mediaType + ";base64";
    assert Href(u) == head + [','] + u.payload;
    SecondFieldOfJoin(head, ',', u.payload);
  }

  /** The arguments given to `toDataURL`: the media type and, for lossy formats only, the quality. */
  datatype EncodeRequest = EncodeRequest(mediaType: string, quality: Option<int>)

  function Request(format: string, quality: int): (q: EncodeRequest)
    ensures q.mediaType == "image/" + format
    ensures q.quality.Some? <==> format == "jpg" || format == "avif"
    ensures q.quality.Some? ==> q.quality.value == quality
  {
    if format == "jpg" || format == "avif" then EncodeRequest("image/" + format, Some(quality))
    else EncodeRequest("image/" + format, None)
  }

  datatype Renderer = Renderer(
    rasterise: seq<Photo> -> Option<Canvas>,
    encode: (Canvas, EncodeRequest) -> DataUrl)

  /** One saved page: its file name and its encoded image. */
  datatype PageOut = PageOut(name: string, url: DataUrl)

  /** `captureAndSaveImage` for page `number` (1-based); `None` when the rasteriser throws. */
  function RenderPage(page: seq<Photo>, number: nat, format: string, quality: int, r: Renderer): Option<PageOut> {
    match r.rasterise(page)
    case None => None
    case Some(canvas) => Some(PageOut(PageName(number, format), r.encode(canvas, Request(format, quality))))
  }

  /** The pages saved before the run stopped, and whether it stopped on an error. */
  datatype RunResult = RunResult(done: seq<PageOut>, aborted: bool)

  /**
   * The pages rendered one after another, numbered from `first + 1`; the
   * first failure rethrows and ends the run.
   */
  function Run(pages: seq<seq<Photo>>, first: nat, format: string, quality: int, r: Renderer): RunResult
    decreases |pages|
  {
    if pages == [] then RunResult([], false)
    else match RenderPage(pages[0], first + 1, format, quality, r)
      case None => RunResult([], true)
      case Some(out) =>
        var rest := Run(pages[1..], first + 1, format, quality, r);
        RunResult([out] + rest.done, rest.aborted)
  }

  function Prefixed(done: seq<PageOut>, rest: RunResult): RunResult {
    RunResult(done + rest.done, rest.aborted)
  }

  /**
   * What `processImages` achieves: the run over all pages, except that in
   * archive mode without an archive the first `zip.file` call throws, after
   * the first page has been rendered and before anything is recorded.
   */
  function Process(photos: seq<Photo>, c: nat, addToZip: bool, zipGiven: bool, format: string, quality: int, r: Renderer): RunResult
    requires c >= 1
  {
    if addToZip && !zipGiven && |photos| > 0 then RunResult([], true)
    else Run(Pages(photos, c), 0, format, quality, r)
  }

  /**
   * A run stops early exactly when a page fails to render, and that page
   * is the one after the last saved.
   */
  lemma {:induction false} RunStops(pages: seq<seq<Photo>>, first: nat, format: string, quality: int, r: Renderer)
    ensures var res := Run(pages, first, format, quality, r);
      && |res.done| <= |pages|
      && (res.aborted <==> |res.done| < |pages|)
      && (res.aborted ==> RenderPage(pages[|res.done|], first + |res.done| + 1, format, quality, r).None?)
    decreases |pages|
  {
    if pages != [] && RenderPage(pages[0], first + 1, format, quality, r).Some? {
      var rest := Run(pages[1..], first + 1, format, quality, r);
      RunStops(pages[1..], first + 1, format, quality, r);
      if rest.aborted {
        assert pages[1..][|rest.done|] == pages[|rest.done| + 1];
      }
    }
  }

  /** The pages a run saves are the first pages of the input, in order, each saved under its own number. */
  lemma {:induction false} RunSaves(pages: seq<seq<Photo>>, first: nat, format: string, quality: int, r: Renderer)
    ensures var res := Run(pages, first, format, quality, r);
      && |res.done| <= |pages|
      && forall j :: 0 <= j < |res.done| ==> RenderPage(pages[j], first + j + 1, format, quality, r) == Some(res.done[j])
    decreases |pages|
  {
    RunStops(pages, first, format, quality, r);
    if pages != [] && RenderPage(pages[0], first + 1, format, quality, r).Some? {
      var res := Run(pages, first, format, quality, r);
      var rest := Run(pages[1..], first + 1, format, quality, r);
      RunSaves(pages[1..], first + 1, format, quality, r);
      assert res.done == [res.done[0]] + rest.done;
      forall j | 1 <= j < |res.done|
        ensures RenderPage(pages[j], first + j + 1, format, quality, r) == Some(res.done[j])
      {
        assert res.done[j] == rest.done[j - 1];
        assert pages[1..][j - 1] == pages[j];
      }
    }
  }

  /** Page `j` of a run, counted from 0, is saved as `PageName(first + j + 1)`, so no two saved pages share a name. */
  lemma RunNames(pages: seq<seq<Photo>>, first: nat, format: string, quality: int, r: Renderer)
    ensures var res := Run(pages, first, format, quality, r);
      && (forall j :: 0 <= j < |res.done| ==> res.done[j].name == PageName(first + j + 1, format))
      && (forall i, j :: 0 <= i < j < |res.done| ==> res.done[i].name != res.done[j].name)
  {
    RunSaves(pages, first, format, quality, r);
    var res := Run(pages, first, format, quality, r);
    forall i, j | 0 <= i < j < |res.done|
      ensures res.done[i].name != res.done[j].name
    {
      PageNamesDistinct(first + i + 1, first + j + 1, format);
    }
  }

  /** A run where the rasteriser never fails saves every page. */
  lemma RunComplete(pages: seq<seq<Photo>>, first: nat, format: string, quality: int, r: Renderer)
    requires forall j :: 0 <= j < |pages| ==> r.rasterise(pages[j]).Some?
    ensures !Run(pages, first, format, quality, r).aborted
    ensures |Run(pages, first, format, quality, r).done| == |pages|
  {
    RunStops(pages, first, format, quality, r);
  }

  /** A page the rasteriser fails on ends the run: the run aborts, at that page or before it. */
  lemma RunFailsOn(pages: seq<seq<Photo>>, first: nat, j: nat, format: string, quality: int, r: Renderer)
    requires j < |pages| && r.rasterise(pages[j]).None?
    ensures Run(pages, first, format, quality, r).aborted
    ensures |Run(pages, first, format, quality, r).done| <= j
  {
    RunStops(pages, first, format, quality, r);
    RunSaves(pages, first, format, quality, r);
  }

  /** One step of the capture loop: a saved page followed by the rest of the run. */
  lemma RunStep(pages: seq<seq<Photo>>, k: nat, format: string, quality: int, r: Renderer, out: PageOut)
    requires k < |pages|
    requires RenderPage(pages[k], k + 1, format, quality, r) == Some(out)
    ensures Run(pages[k..], k, format, quality, r) == Prefixed([out], Run(pages[k + 1..], k + 1, format, quality, r))
  {
    assert pages[k..][0] == pages[k];
    assert pages[k..][1..] == pages[k + 1..];
  }

  /** The capture loop's run invariant carries over to the next page once page `k` is saved. */
  lemma RunAdvance(all: RunResult, done: seq<PageOut>, pages: seq<seq<Photo>>, k: nat, format: string, quality: int, r: Renderer, out: PageOut)
    requires k < |pages|
    requires all == Prefixed(done, Run(pages[k..], k, format, quality, r))
    requires RenderPage(pages[k], k + 1, format, quality, r) == Some(out)
    ensures all == Prefixed(done + [out], Run(pages[k + 1..], k + 1, format, quality, r))
  {
    RunStep(pages, k, format, quality, r, out);
    PrefixedAssoc(done, [out], Run(pages[k + 1..], k + 1, format, quality, r));
  }

  /** The loop threw at page `k`: the pages before it are all the run saved. */
  lemma ProcessStopped(photos: seq<Photo>, c: nat, addToZip: bool, zipGiven: bool, format: string, quality: int, r: Renderer,
                       done: seq<PageOut>, k: nat)
    requires c >= 1 && k < |Pages(photos, c)|
    requires Run(Pages(photos, c), 0, format, quality, r) == Prefixed(done, Run(Pages(photos, c)[k..], k, format, quality, r))
    requires addToZip && !zipGiven ==> k == 0
    requires (addToZip && !zipGiven) || RenderPage(Pages(photos, c)[k], k + 1, format, quality, r).None?
    ensures Process(photos, c, addToZip, zipGiven, format, quality, r) == RunResult(done, true)
  {
    var pages := Pages(photos, c);
    assert pages[k..][0] == pages[k];
    if addToZip && !zipGiven {
      assert k == 0 && |photos| > 0;
    }
  }

  /** The loop ran past the last page: every page was saved. */
  lemma ProcessFinished(photos: seq<Photo>, c: nat, addToZip: bool, zipGiven: bool, format: string, quality: int, r: Renderer,
                        done: seq<PageOut>, k: nat)
    requires c >= 1 && k == |Pages(photos, c)|
    requires Run(Pages(photos, c), 0, format, quality, r) == Prefixed(done, Run(Pages(photos, c)[k..], k, format, quality, r))
    requires addToZip && !zipGiven ==> k == 0
    ensures Process(photos, c, addToZip, zipGiven, format, quality, r) == RunResult(done, false)
  {
    var pages := Pages(photos, c);
    assert pages[k..] == [];
  }

  lemma PrefixedAssoc(a: seq<PageOut>, b: seq<PageOut>, rest: RunResult)
    ensures Prefixed(a, Prefixed(b, rest)) == Prefixed(a + b, rest)
  {
    assert a + (b + rest.done) == (a + b) + rest.done;
  }

  /** A file of the archive. */
  datatype ZipEntry = ZipEntry(name: string, data: string)

  /** `zip.file(name, data)`: a new name is appended, an existing one has its data replaced. */
  function Put(es: seq<ZipEntry>, e: ZipEntry): (r: seq<ZipEntry>)
    ensures (forall j :: 0 <= j < |es| ==> es[j].name != e.name) ==> r == es + [e]
    decreases |es|
  {
    if es == [] then [e]
    else if es[0].name == e.name then [e] + es[1..]
    else [es[0]] + Put(es[1..], e)
  }

  /** When `e`'s name is present, its first occurrence is replaced in place and nothing else changes. */
  lemma {:induction false} PutReplaces(es: seq<ZipEntry>, e: ZipEntry, j: nat)
    requires j < |es| && es[j].name == e.name
    requires forall i :: 0 <= i < j ==> es[i].name != e.name
    ensures Put(es, e) == es[j := e]
    decreases j
  {
    if j > 0 {
      assert es[0].name != e.name;
      assert forall i :: 0 <= i < j - 1 ==> es[1..][i].name != e.name by {
        assert forall i :: 0 <= i < j - 1 ==> es[1..][i] == es[i + 1];
      }
      PutReplaces(es[1..], e, j - 1);
      assert [es[0]] + es[1..][j - 1 := e] == es[j := e];
    }
  }

  /** The archive after `es` have been added to `base` in order. */
  function PutAll(base: seq<ZipEntry>, es: seq<ZipEntry>): seq<ZipEntry>
    decreases |es|
  {
    if es == [] then base else Put(PutAll(base, es[..|es| - 1]), es[|es| - 1])
  }

  predicate DistinctNames(es: seq<ZipEntry>) {
    forall i, j :: 0 <= i < j < |es| ==> es[i].name != es[j].name
  }

  /** Added to an empty archive, entries with distinct names are kept as they are, none replaced. */
  lemma {:induction false} PutAllDistinct(es: seq<ZipEntry>)
    requires DistinctNames(es)
    ensures PutAll([], es) == es
    decreases |es|
  {
    if es != [] {
      var init := es[..|es| - 1];
      assert DistinctNames(init);
      PutAllDistinct(init);
      assert forall j :: 0 <= j < |init| ==> init[j].name != es[|es| - 1].name;
      assert init + [es[|es| - 1]] == es;
    }
  }

  /** The archive entries of the saved pages: the base64 image under the page name. */
  function Entries(done: seq<PageOut>): (es: seq<ZipEntry>)
    ensures |es| == |done|
    ensures forall j :: 0 <= j < |done| ==> es[j] == ZipEntry(done[j].name, done[j].url.payload)
  {
    seq(|done|, j requires 0 <= j < |done| => ZipEntry(done[j].name, ImgData(done[j].url)))
  }

  /** A link of the links container: its `href` and its `download` file name. */
  datatype Link = Link(href: string, fileName: string)

  /** `Utils.createDownloadLink(imgData, fileName)`: always labelled PNG, whatever the format. */
  function DownloadLink(imgData: string, fileName: string): (l: Link)
    ensures l.fileName == fileName
    ensures ',' !in imgData ==> SecondField(l.href, ',') == Some(imgData)
  {
    var href := "data:image/png;base64," + imgData;
    assert ',' !in imgData ==> SecondField(href, ',') == Some(imgData) by {
      if ',' !in imgData {
        assert href == "data:image/png;base64" + [','] + imgData;
        SecondFieldOfJoin("data:image/png;base64", ',', imgData);
      }
    }
    Link(href, fileName)
  }

  function Links(done: seq<PageOut>): (ls: seq<Link>)
    ensures |ls| == |done|
    ensures forall j :: 0 <= j < |done| ==> ls[j] == DownloadLink(done[j].url.payload, done[j].name)
  {
    seq(|done|, j requires 0 <= j < |done| => DownloadLink(ImgData(done[j].url), done[j].name))
  }

  /** The blob the archive is packed into; its bytes are not modelled. */
  datatype Blob = Blob(id: nat)

  datatype Content = UrlContent(url: string) | BlobContent(blob: Blob)

  /** A `saveAs(content, fileName)` call. */
  datatype Download = Download(fileName: string, content: Content)

  /** In link mode each page is also saved at once, from its full data URL. */
  function Saves(done: seq<PageOut>): (ds: seq<Download>)
    ensures |ds| == |done|
    ensures forall j :: 0 <= j < |done| ==>
      && ds[j].fileName == done[j].name && ds[j].content.UrlContent?
      && SecondField(ds[j].content.url, ',') == Some(done[j].url.payload)
  {
    assert forall j :: 0 <= j < |done| ==> SecondField(Href(done[j].url), ',') == Some(done[j].url.payload) by {
      forall j | 0 <= j < |done| {
        HrefPayload(done[j].url);
      }
    }
    seq(|done|, j requires 0 <= j < |done| => Download(done[j].name, UrlContent(Href(done[j].url))))
  }

  /** The stage a progress text names. */
  datatype Stage = SortingFiles | ImportingFiles | ImportDone | Capturing | CaptureDone | Packaging | Done | Failed

  /** A text written to the progress line. */
  datatype Message =
    | Status(stage: Stage)
    | Percentage(stage: Stage, percent: int)
    | Summary(photos: nat, pages: nat)
    | Blank

  /** The progress texts after `count` pages of `c` out of `n` photos: `round(min((i + c) / n, 1) * 100)` each. */
  function PageProgress(count: nat, c: nat, n: nat): seq<Message> {
    if n == 0 then [] else seq(count, j => Percentage(Capturing, Percent(j * c + c, n)))
  }

  /** One capture percentage per saved page, each within 0..100. */
  lemma PageProgressBounds(count: nat, c: nat, n: nat)
    requires c >= 1 && n > 0
    ensures var ms := PageProgress(count, c, n);
      && |ms| == count
      && forall j :: 0 <= j < count ==> ms[j].Percentage? && ms[j].stage == Capturing && 0 <= ms[j].percent <= 100
  {
    var ms := PageProgress(count, c, n);
    forall j | 0 <= j < count
      ensures 0 <= ms[j].percent <= 100
    {
      assert ms[j].percent == Percent(j * c + c, n);
      PercentBounds(j * c + c, n);
    }
  }

  /** The capture percentages never decrease. */
  lemma PageProgressRising(count: nat, c: nat, n: nat)
    requires c >= 1 && n > 0
    ensures var ms := PageProgress(count, c, n);
      forall i, j :: 0 <= i <= j < count ==> ms[i].percent <= ms[j].percent
  {
    var ms := PageProgress(count, c, n);
    forall i, j | 0 <= i <= j < count
      ensures ms[i].percent <= ms[j].percent
    {
      assert ms[i].percent == Percent(i * c + c, n) && ms[j].percent == Percent(j * c + c, n);
      MulMono(i, j, c);
      PercentMonotone(i * c + c, j * c + c, n);
    }
  }

  /** Once every page is saved the last capture percentage is 100. */
  lemma PageProgressComplete(count: nat, c: nat, n: nat)
    requires c >= 1 && n > 0
    requires count == CeilDiv(n, c) && count > 0
    ensures PageProgress(count, c, n)[count - 1].percent == 100
  {
    var last := (count - 1) * c + c;
    assert PageProgress(count, c, n)[count - 1].percent == Percent(last, n);
    MulSucc(count - 1, c);
    PercentBounds(last, n);
  }

  /** Showing the percentage of page `k` extends the progress log by one entry. */
  lemma PageProgressSnoc(pre: seq<Message>, k: nat, c: nat, n: nat, i: nat)
    requires n > 0 && i == k * c
    ensures pre + PageProgress(k + 1, c, n) == (pre + PageProgress(k, c, n)) + [Percentage(Capturing, Percent(i + c, n))]
  {
    assert PageProgress(k + 1, c, n) == PageProgress(k, c, n) + [Percentage(Capturing, Percent(i + c, n))];
  }

  lemma OutputsSnoc(done: seq<PageOut>, out: PageOut)
    ensures Entries(done + [out]) == Entries(done) + [ZipEntry(out.name, out.url.payload)]
    ensures Links(done + [out]) == Links(done) + [DownloadLink(out.url.payload, out.name)]
    ensures Saves(done + [out]) == Saves(done) + [Download(out.name, UrlContent(Href(out.url)))]
  {
  }

  /**
   * What the saved pages `done` have left behind, starting from links
   * `links0`, saved files `downloads0` and archive entries `entries0`: in
   * archive mode an archive entry per page, otherwise a link and a saved
   * file per page.
   */
  predicate Recorded(addToZip: bool, links: seq<Link>, downloads: seq<Download>, entries: seq<ZipEntry>,
                     links0: seq<Link>, downloads0: seq<Download>, entries0: seq<ZipEntry>, done: seq<PageOut>)
  {
    && (addToZip ==> links == links0 && downloads == downloads0 && entries == PutAll(entries0, Entries(done)))
    && (!addToZip ==> links == links0 + Links(done) && downloads == downloads0 + Saves(done) && entries == entries0)
  }

  lemma RecordedStep(addToZip: bool, links: seq<Link>, downloads: seq<Download>, entries: seq<ZipEntry>,
                     links': seq<Link>, downloads': seq<Download>, entries': seq<ZipEntry>,
                     links0: seq<Link>, downloads0: seq<Download>, entries0: seq<ZipEntry>, done: seq<PageOut>, out: PageOut)
    requires Recorded(addToZip, links, downloads, entries, links0, downloads0, entries0, done)
    requires addToZip ==> links' == links && downloads' == downloads && entries' == Put(entries, ZipEntry(out.name, out.url.payload))
    requires !addToZip ==>
      links' == links + [DownloadLink(out.url.payload, out.name)]
      && downloads' == downloads + [Download(out.name, UrlContent(Href(out.url)))] && entries' == entries
    ensures Recorded(addToZip, links', downloads', entries', links0, downloads0, entries0, done + [out])
  {
    OutputsSnoc(done, out);
    var es := Entries(done + [out]);
    assert es[..|es| - 1] == Entries(done);
  }

  /** The elements of the page that the import has put on screen, with their output logs. */
  class Ui {
    /** The photos of `photoWall`, in order. */
    var photoWall: seq<Photo>
    /** The anchors of `linksContainer`. */
    var links: seq<Link>
    /** Every `saveAs` the page has called, oldest first. */
    var downloads: seq<Download>
    /** Every text the progress line has shown, oldest first. */
    var shown: seq<Message>

    constructor()
      ensures photoWall == [] && links == [] && downloads == [] && shown == []
    {
      photoWall := [];
      links := [];
      downloads := [];
      shown := [];
    }
  }

  /** A `JSZip` archive being filled. */
  class Zip {
    var entries: seq<ZipEntry>

    constructor()
      ensures entries == []
    {
      entries := [];
    }

    method File(name: string, data: string)
      modifies this
      ensures entries == Put(old(entries), ZipEntry(name, data))
    {
      entries := Put(entries, ZipEntry(name, data));
    }
  }

  class ImageProcessor {
    const ui: Ui

    constructor(ui: Ui)
      ensures this.ui == ui
    {
      this.ui := ui;
    }

    /**
     * `processImages`: page by page, render, then add the image to the
     * archive or append a download link (link mode also saves the page at
     * once), then show the progress. `ok` is false when the loop threw.
     */
    method ProcessImages(photos: seq<Photo>, imagesPerCapture: nat, addToZip: bool, format: string, quality: int, zip: Zip?, r: Renderer)
      returns (ok: bool)
      requires imagesPerCapture >= 1
      modifies ui, zip
      ensures ok == !Process(photos, imagesPerCapture, addToZip, zip != null, format, quality, r).aborted
      ensures ui.photoWall == old(ui.photoWall)
      ensures ui.shown == old(ui.shown) + PageProgress(|Process(photos, imagesPerCapture, addToZip, zip != null, format, quality, r).done|, imagesPerCapture, |photos|)
      ensures Recorded(addToZip, ui.links, ui.downloads, if zip != null then zip.entries else [],
                       old(ui.links), old(ui.downloads), if zip != null then old(zip.entries) else [],
                       Process(photos, imagesPerCapture, addToZip, zip != null, format, quality, r).done)
    {
      var c := imagesPerCapture;
      var n := |photos|;
      ghost var pages := Pages(photos, c);
      ghost var all := Run(pages, 0, format, quality, r);
      ghost var done: seq<PageOut> := [];
      ghost var k: nat := 0;
      ghost var links0, downloads0 := ui.links, ui.downloads;
      ghost var base := if zip != null then zip.entries else [];
      assert pages[0..] == pages;
      CursorStart(photos, c);
      var i := 0;
      while i < n
        invariant Cursor(photos, c, k, i)
        invariant all == Prefixed(done, Run(pages[k..], k, format, quality, r))
        invariant |done| == k
        invariant addToZip && zip == null ==> k == 0
        invariant ui.photoWall == old(ui.photoWall)
        invariant ui.shown == old(ui.shown) + PageProgress(k, c, n)
        invariant Recorded(addToZip, ui.links, ui.downloads, if zip != null then zip.entries else base, links0, downloads0, base, done)
        decreases n - i
      {
        CursorNext(photos, c, k, i);
        ghost var links1, downloads1, entries1 := ui.links, ui.downloads, if zip != null then zip.entries else base;
        var saved := SavePage(photos, i, c, addToZip, format, quality, zip, r);
        if saved.None? {
          ProcessStopped(photos, c, addToZip, zip != null, format, quality, r, done, k);
          return false;
        }
        ghost var out := saved.value;
        RunAdvance(all, done, pages, k, format, quality, r, out);
        PageProgressSnoc(old(ui.shown), k, c, n, i);
        RecordedStep(addToZip, links1, downloads1, entries1, ui.links, ui.downloads, if zip != null then zip.entries else base,
                     links0, downloads0, base, done, out);
        done := done + [out];
        i := i + c;
        k := k + 1;
      }
      ProcessFinished(photos, c, addToZip, zip != null, format, quality, r, done, k);
      return true;
    }

    /**
     * The loop body for the page that starts at photo `i`: name it, capture
     * it, keep the image and show the progress. `None` when the capture or
     * `zip.file` threw, having changed nothing.
     */
    method SavePage(photos: seq<Photo>, i: nat, c: nat, addToZip: bool, format: string, quality: int, zip: Zip?, r: Renderer)
      returns (saved: Option<PageOut>)
      requires c >= 1 && i < |photos|
      modifies ui, zip
      ensures saved == if addToZip && zip == null then None
        else RenderPage(photos[i..Min(i + c, |photos|)], i / c + 1, format, quality, r)
      ensures ui.photoWall == old(ui.photoWall)
      ensures ui.shown == old(ui.shown) + if saved.Some? then [Percentage(Capturing, Percent(i + c, |photos|))] else []
      ensures saved.None? ==> ui.links == old(ui.links) && ui.downloads == old(ui.downloads)
      ensures saved.None? && zip != null ==> zip.entries == old(zip.entries)
      ensures saved.Some? && addToZip ==>
        ui.links == old(ui.links) && ui.downloads == old(ui.downloads)
        && zip != null && zip.entries == Put(old(zip.entries), ZipEntry(saved.value.name, saved.value.url.payload))
      ensures saved.Some? && !addToZip ==>
        ui.links == old(ui.links) + [DownloadLink(saved.value.url.payload, saved.value.name)]
        && ui.downloads == old(ui.downloads) + [Download(saved.value.name, UrlContent(Href(saved.value.url)))]
        && (zip != null ==> zip.entries == old(zip.entries))
    {
      var fileName := PageName(i / c + 1, format);
      var url := CaptureAndSaveImage(photos[i..Min(i + c, |photos|)], if addToZip then None else Some(fileName), format, quality, r);
      if url.None? {
        return None;
      }
      var kept := Keep(fileName, ImgData(url.value), addToZip, zip);
      if !kept {
        return None;
      }
      ui.shown := ui.shown + [Percentage(Capturing, Percent(i + c, |photos|))];
      return Some(PageOut(fileName, url.value));
    }

    /**
     * `captureAndSaveImage`: rasterise the page and encode the canvas; with
     * a file name (link mode) the image is also saved at once. `None` when
     * the rasteriser throws.
     */
    method CaptureAndSaveImage(page: seq<Photo>, fileName: Option<string>, format: string, quality: int, r: Renderer)
      returns (url: Option<DataUrl>)
      modifies ui
      ensures url.None? <==> r.rasterise(page).None?
      ensures url.Some? ==> url.value == r.encode(r.rasterise(page).value, Request(format, quality))
      ensures ui.downloads == old(ui.downloads) + (if url.Some? && fileName.Some? then [Download(fileName.value, UrlContent(Href(url.value)))] else [])
      ensures ui.photoWall == old(ui.photoWall) && ui.links == old(ui.links) && ui.shown == old(ui.shown)
    {
      var canvas := r.rasterise(page);
      if canvas.None? {
        return None;
      }
      var dataUrl := r.encode(canvas.value, Request(format, quality));
      if fileName.Some? {
        ui.downloads := ui.downloads + [Download(fileName.value, UrlContent(Href(dataUrl)))];
      }
      return Some(dataUrl);
    }

    /** The `if (addToZip)` of the loop body: `zip.file(...)`, which throws on a missing archive, or a new link. */
    method Keep(fileName: string, imgData: string, addToZip: bool, zip: Zip?) returns (ok: bool)
      modifies ui, zip
      ensures ok <==> !addToZip || zip != null
      ensures ui.photoWall == old(ui.photoWall) && ui.downloads == old(ui.downloads) && ui.shown == old(ui.shown)
      ensures ui.links == old(ui.links) + (if addToZip then [] else [DownloadLink(imgData, fileName)])
      ensures zip != null ==> zip.entries == if addToZip then Put(old(zip.entries), ZipEntry(fileName, imgData)) else old(zip.entries)
    {
      if addToZip {
        if zip == null {
          return false;
        }
        zip.File(fileName, imgData);
      } else {
        ui.links := ui.links + [DownloadLink(imgData, fileName)];
      }
      return true;
    }
  }
}

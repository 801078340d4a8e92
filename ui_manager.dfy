/**
 * `UIManager`: the coordinator. It imports dropped files onto the photo
 * wall, announces how many pages the wall makes, and on the capture button
 * runs the export, either as one download per page or, above the file
 * threshold, as one archive.
 *
 * The archive packer (`zip.generateAsync`) is a parameter: the progress
 * reports it makes, then the blob it resolves with, or `None` when it
 * rejects.
 */
module Manager {
  import opened Wrappers
  import opened Utils
  import opened Files
  import opened Paging
  import opened Progress
  import opened Sorting
  import opened Comparators
  import opened ImageProcessing
  import opened Importing

  /** `parseInt` of a form field: a number, or `NaN`. */
  datatype ParsedInt = Num(v: int) | NaN

  /** `totalScreenshots <= fileThreshold`: link mode; a comparison with `NaN` is false. */
  predicate UseLinks(totalScreenshots: nat, threshold: ParsedInt) {
    threshold.Num? && totalScreenshots <= threshold.v
  }

  /** A `metadata.percent` the packer reports, as an exact fraction. */
  datatype Fraction = Fraction(num: int, den: Positive)

  /** What `generateAsync` does: its progress reports, then the archive blob, or `None` when it rejects. */
  datatype Packed = Packed(updates: seq<Fraction>, blob: Option<Blob>)

  /** The `onUpdate` texts: `min(round(percent), 100)` each. */
  function ArchiveProgress(updates: seq<Fraction>): seq<Message> {
    seq(|updates|, j requires 0 <= j < |updates| => Percentage(Packaging, ArchivePercent(updates[j].num, updates[j].den)))
  }

  /** The packing percentages never pass 100, and show the packer's rounded value whenever it is below. */
  lemma ArchiveProgressCapped(updates: seq<Fraction>)
    ensures |ArchiveProgress(updates)| == |updates|
    ensures forall j :: 0 <= j < |updates| ==>
      && ArchiveProgress(updates)[j].Percentage? && ArchiveProgress(updates)[j].stage == Packaging
      && ArchiveProgress(updates)[j].percent <= 100
      && (RoundHalfUp(updates[j].num, updates[j].den) <= 100 ==>
            ArchiveProgress(updates)[j].percent == RoundHalfUp(updates[j].num, updates[j].den))
  {
  }

  /** `Screenshots_${formattedDate}.zip`. */
  function ZipName(stamp: string): string {
    "Screenshots_" + stamp + ".zip"
  }

  /** The archive name is the prefix, the time stamp and `.zip`, in that order. */
  lemma ZipNameLayout(stamp: string)
    ensures |ZipName(stamp)| == 12 + |stamp| + 4
    ensures ZipName(stamp)[..12] == "Screenshots_"
    ensures ZipName(stamp)[12..12 + |stamp|] == stamp
    ensures ZipName(stamp)[12 + |stamp|..] == ".zip"
  {
    var n := ZipName(stamp);
    assert n == "Screenshots_" + stamp + ".zip";
    assert n[..12] == "Screenshots_";
    assert n[12..12 + |stamp|] == stamp;
  }

  /** The text of `updateLayout`: the photo count and the pages it will make, or nothing for an empty wall. */
  function LayoutMessage(photoCount: nat, photosPerCapture: Positive): Message {
    if photoCount == 0 then Blank else Summary(photoCount, CeilDiv(photoCount, photosPerCapture))
  }

  /** The announced page count is the number of pages the capture loop will save. */
  lemma LayoutAnnouncesPages(photos: seq<Photo>, photosPerCapture: Positive)
    ensures |photos| == 0 ==> LayoutMessage(|photos|, photosPerCapture) == Blank
    ensures |photos| > 0 ==> LayoutMessage(|photos|, photosPerCapture) == Summary(|photos|, |Pages(photos, photosPerCapture)|)
  {
    PagesCount(photos, photosPerCapture);
  }

  /** What an export leaves on the page: the links, the files it saved, and the progress texts it showed. */
  datatype Outcome = Outcome(links: seq<Link>, downloads: seq<Download>, shown: seq<Message>)

  /**
   * `captureAndSaveImages` after the guard, for the photos on the wall;
   * `stamp` is the formatted time of the click and `forwardsZip` says
   * whether the archive reaches the capture loop.
   */
  function Export(photos: seq<Photo>, c: Positive, threshold: ParsedInt, format: string, quality: int,
                  stamp: string, r: Renderer, pack: seq<ZipEntry> -> Packed, forwardsZip: bool): Outcome
  {
    if UseLinks(CeilDiv(|photos|, c), threshold) then LinkOutcome(photos, c, format, quality, r)
    else ArchiveOutcome(photos, c, format, quality, stamp, r, pack, forwardsZip)
  }

  /** The texts of the capture loop: its start, then one percentage per saved page. */
  function Captured(count: nat, c: Positive, n: nat): seq<Message> {
    [Status(Capturing)] + PageProgress(count, c, n)
  }

  /** Link mode: the links and saved files of the pages rendered, then success or failure. */
  function LinkOutcome(photos: seq<Photo>, c: Positive, format: string, quality: int, r: Renderer): Outcome {
    var out := Process(photos, c, false, false, format, quality, r);
    Outcome(Links(out.done), Saves(out.done), Captured(|out.done|, c, |photos|) + [Status(if out.aborted then Failed else CaptureDone)])
  }

  /** Archive mode: capture into the archive, then pack it unless the capture failed. */
  function ArchiveOutcome(photos: seq<Photo>, c: Positive, format: string, quality: int,
                          stamp: string, r: Renderer, pack: seq<ZipEntry> -> Packed, forwardsZip: bool): Outcome
  {
    var out := Process(photos, c, true, forwardsZip, format, quality, r);
    var captured := Captured(|out.done|, c, |photos|);
    if out.aborted then Outcome([], [], captured + [Status(Failed)])
    else Packaged(captured, pack(PutAll([], Entries(out.done))), stamp)
  }

  /** The end of an archive export whose pages were all added: pack, then save the archive or report the failure. */
  function Packaged(captured: seq<Message>, packed: Packed, stamp: string): Outcome {
    Outcome([], PackingSaves(packed, stamp), captured + PackingShown(packed))
  }

  /** The texts of packing: its start, the packer's progress, and the verdict. */
  function PackingShown(packed: Packed): seq<Message> {
    [Status(Packaging)] + ArchiveProgress(packed.updates) + [Status(if packed.blob.Some? then Done else Failed)]
  }

  /** The archive is saved under its time-stamped name when the packer yields it. */
  function PackingSaves(packed: Packed, stamp: string): seq<Download> {
    if packed.blob.Some? then [Download(ZipName(stamp), BlobContent(packed.blob.value))] else []
  }

  /** Every page of the wall renders. */
  ghost predicate AllRender(pages: seq<seq<Photo>>, r: Renderer) {
    forall j :: 0 <= j < |pages| ==> r.rasterise(pages[j]).Some?
  }

  /** The data URL of a page that renders. */
  function Encoded(page: seq<Photo>, format: string, quality: int, r: Renderer): DataUrl
    requires r.rasterise(page).Some?
  {
    r.encode(r.rasterise(page).value, Request(format, quality))
  }

  /** Page `j` (0-based) has its link and its saved file, both named after page `j + 1`. */
  ghost predicate LinkSaved(links: seq<Link>, downloads: seq<Download>, pages: seq<seq<Photo>>, j: nat, format: string, quality: int, r: Renderer)
    requires j < |links| && j < |downloads| && j < |pages|
  {
    && r.rasterise(pages[j]).Some?
    && links[j] == DownloadLink(Encoded(pages[j], format, quality, r).payload, PageName(j + 1, format))
    && downloads[j] == Download(PageName(j + 1, format), UrlContent(Href(Encoded(pages[j], format, quality, r))))
  }

  /** The last progress text of an outcome. */
  function Verdict(o: Outcome): Message {
    if o.shown == [] then Blank else o.shown[|o.shown| - 1]
  }

  /** The links and saved files of a run: those of its pages, in order, each rendered. */
  lemma RunLinks(pages: seq<seq<Photo>>, format: string, quality: int, r: Renderer)
    ensures |Run(pages, 0, format, quality, r).done| <= |pages|
    ensures forall j :: 0 <= j < |Run(pages, 0, format, quality, r).done| ==>
      LinkSaved(Links(Run(pages, 0, format, quality, r).done), Saves(Run(pages, 0, format, quality, r).done), pages, j, format, quality, r)
  {
    var res := Run(pages, 0, format, quality, r);
    RunSaves(pages, 0, format, quality, r);
    forall j | 0 <= j < |res.done|
      ensures LinkSaved(Links(res.done), Saves(res.done), pages, j, format, quality, r)
    {
      assert RenderPage(pages[j], j + 1, format, quality, r) == Some(res.done[j]);
    }
  }

  /**
   * Link mode: one link and one saved file per rendered page, in page
   * order, named `001.<format>`, `002.<format>`, ...; the run reports
   * completion exactly when every page rendered, and otherwise failure.
   * Whether the archive is forwarded makes no difference here.
   */
  lemma ExportLinkMode(photos: seq<Photo>, c: Positive, threshold: ParsedInt, format: string, quality: int,
                       stamp: string, r: Renderer, pack: seq<ZipEntry> -> Packed)
    requires UseLinks(CeilDiv(|photos|, c), threshold)
    ensures Export(photos, c, threshold, format, quality, stamp, r, pack, false) == Export(photos, c, threshold, format, quality, stamp, r, pack, true)
    ensures var o := Export(photos, c, threshold, format, quality, stamp, r, pack, true);
      && |o.links| == |o.downloads| <= |Pages(photos, c)|
      && (forall j :: 0 <= j < |o.links| ==> LinkSaved(o.links, o.downloads, Pages(photos, c), j, format, quality, r))
      && (AllRender(Pages(photos, c), r) ==> |o.links| == |Pages(photos, c)| && Verdict(o) == Status(CaptureDone))
      && (!AllRender(Pages(photos, c), r) ==> Verdict(o) == Status(Failed))
  {
    var pages := Pages(photos, c);
    var res := Run(pages, 0, format, quality, r);
    assert Process(photos, c, false, false, format, quality, r) == res;
    RunLinks(pages, format, quality, r);
    var o := Export(photos, c, threshold, format, quality, stamp, r, pack, true);
    assert o == Outcome(Links(res.done), Saves(res.done), Captured(|res.done|, c, |photos|) + [Status(if res.aborted then Failed else CaptureDone)]);
    if AllRender(pages, r) {
      RunComplete(pages, 0, format, quality, r);
    } else {
      var j :| 0 <= j < |pages| && r.rasterise(pages[j]).None?;
      RunFailsOn(pages, 0, j, format, quality, r);
    }
  }

  /** The archive a complete run builds: the base64 image of page `j` under `PageName(j + 1)`. */
  function ArchiveOf(pages: seq<seq<Photo>>, format: string, quality: int, r: Renderer): seq<ZipEntry>
    requires forall j :: 0 <= j < |pages| ==> r.rasterise(pages[j]).Some?
  {
    seq(|pages|, j requires 0 <= j < |pages| => ZipEntry(PageName(j + 1, format), Encoded(pages[j], format, quality, r).payload))
  }

  /** A complete run hands the packer exactly one entry per page, none replaced. */
  lemma CompleteRunArchive(pages: seq<seq<Photo>>, format: string, quality: int, r: Renderer)
    requires AllRender(pages, r)
    ensures PutAll([], Entries(Run(pages, 0, format, quality, r).done)) == ArchiveOf(pages, format, quality, r)
  {
    var done := Run(pages, 0, format, quality, r).done;
    RunComplete(pages, 0, format, quality, r);
    RunSaves(pages, 0, format, quality, r);
    RunNames(pages, 0, format, quality, r);
    EntriesDistinct(done);
    PutAllDistinct(Entries(done));
    RenderedEntries(pages, done, format, quality, r);
  }

  /** Pages saved under pairwise different names give archive entries with pairwise different names. */
  lemma EntriesDistinct(done: seq<PageOut>)
    requires forall i, j :: 0 <= i < j < |done| ==> done[i].name != done[j].name
    ensures DistinctNames(Entries(done))
  {
  }

  /** Pages rendered one by one under their own numbers give the entries of the archive of those pages. */
  lemma RenderedEntries(pages: seq<seq<Photo>>, done: seq<PageOut>, format: string, quality: int, r: Renderer)
    requires AllRender(pages, r) && |done| == |pages|
    requires forall j :: 0 <= j < |done| ==> RenderPage(pages[j], 0 + j + 1, format, quality, r) == Some(done[j])
    ensures Entries(done) == ArchiveOf(pages, format, quality, r)
  {
    var es, want := Entries(done), ArchiveOf(pages, format, quality, r);
    forall j | 0 <= j < |pages|
      ensures es[j] == want[j]
    {
      assert RenderPage(pages[j], 0 + j + 1, format, quality, r) == Some(done[j]);
    }
  }

  /**
   * Archive mode with the archive forwarded: no links; when every page
   * renders the packer receives every page, and the archive is saved as
   * `Screenshots_<stamp>.zip` exactly when packing succeeds; a page that
   * fails to render ends the export with nothing saved.
   */
  lemma ExportArchiveMode(photos: seq<Photo>, c: Positive, threshold: ParsedInt, format: string, quality: int,
                          stamp: string, r: Renderer, pack: seq<ZipEntry> -> Packed)
    requires !UseLinks(CeilDiv(|photos|, c), threshold)
    ensures var o := Export(photos, c, threshold, format, quality, stamp, r, pack, true);
      && o.links == []
      && (!AllRender(Pages(photos, c), r) ==> o.downloads == [] && Verdict(o) == Status(Failed))
      && (AllRender(Pages(photos, c), r) ==>
            var packed := pack(ArchiveOf(Pages(photos, c), format, quality, r));
            && o.downloads == (if packed.blob.Some? then [Download(ZipName(stamp), BlobContent(packed.blob.value))] else [])
            && Verdict(o) == Status(if packed.blob.Some? then Done else Failed))
  {
    var pages := Pages(photos, c);
    var res := Run(pages, 0, format, quality, r);
    assert Process(photos, c, true, true, format, quality, r) == res;
    var captured := Captured(|res.done|, c, |photos|);
    if AllRender(pages, r) {
      RunComplete(pages, 0, format, quality, r);
      CompleteRunArchive(pages, format, quality, r);
      assert Export(photos, c, threshold, format, quality, stamp, r, pack, true)
        == Packaged(captured, pack(ArchiveOf(pages, format, quality, r)), stamp);
    } else {
      var j :| 0 <= j < |pages| && r.rasterise(pages[j]).None?;
      RunFailsOn(pages, 0, j, format, quality, r);
      assert Export(photos, c, threshold, format, quality, stamp, r, pack, true) == Outcome([], [], captured + [Status(Failed)]);
    }
  }

  /**
   * Archive mode as wired in the source: the archive never reaches the
   * capture loop, so with at least one photo the export always fails and
   * saves nothing, whatever the renderer and packer do.
   */
  lemma AsWrittenArchiveFails(photos: seq<Photo>, c: Positive, threshold: ParsedInt, format: string, quality: int,
                              stamp: string, r: Renderer, pack: seq<ZipEntry> -> Packed)
    requires !UseLinks(CeilDiv(|photos|, c), threshold) && |photos| > 0
    ensures Export(photos, c, threshold, format, quality, stamp, r, pack, false) == Outcome([], [], [Status(Capturing), Status(Failed)])
  {
  }

  /**
   * A concrete instance: one photo, threshold 0 (archive mode), a renderer
   * that always succeeds and a packer that always yields a blob. Forwarding
   * the archive saves it; the source's wiring saves nothing.
   */
  lemma WiringCounterexample(photo: Photo, stamp: string)
    ensures var r := Renderer(_ => Some(Canvas(0)), (_, _) => DataUrl("image/png", "AAAA"));
      var pack := (_: seq<ZipEntry>) => Packed([], Some(Blob(0)));
      && Export([photo], 1, Num(0), "png", 80, stamp, r, pack, true).downloads == [Download(ZipName(stamp), BlobContent(Blob(0)))]
      && Export([photo], 1, Num(0), "png", 80, stamp, r, pack, false).downloads == []
  {
    var r := Renderer(_ => Some(Canvas(0)), (_, _) => DataUrl("image/png", "AAAA"));
    var pack := (_: seq<ZipEntry>) => Packed([], Some(Blob(0)));
    assert CeilDiv(1, 1) == 1;
    assert Pages([photo], 1) == [[photo]];
    ExportArchiveMode([photo], 1, Num(0), "png", 80, stamp, r, pack);
    AsWrittenArchiveFails([photo], 1, Num(0), "png", 80, stamp, r, pack);
  }

  /** What `handleFiles` imports: the files in the chosen order, out of all of them. */
  function ImportSorted(files: seq<FileMeta>, order: string, collate: (string, string) -> int, decode: FileMeta -> Option<Dims>): Imported {
    Import(SortedBy(files, Comparator(order, collate)), |files|, decode)
  }

  /**
   * The texts of `handleFiles`: sorting, importing, the import's own
   * progress, then, when every image decoded, the end of the import and
   * the layout summary.
   */
  function HandleTexts(imp: Imported, photosPerCapture: Positive): seq<Message> {
    [Status(SortingFiles), Status(ImportingFiles)] + imp.shown
      + (if imp.failed then [] else [Status(ImportDone), LayoutMessage(|imp.wall|, photosPerCapture)])
  }

  lemma HandleTextsLog(log: seq<Message>, imp: Imported, photosPerCapture: Positive)
    ensures imp.failed ==> log + [Status(SortingFiles)] + [Status(ImportingFiles)] + imp.shown == log + HandleTexts(imp, photosPerCapture)
    ensures !imp.failed ==>
      log + [Status(SortingFiles)] + [Status(ImportingFiles)] + imp.shown + [Status(ImportDone)] + [LayoutMessage(|imp.wall|, photosPerCapture)]
        == log + HandleTexts(imp, photosPerCapture)
  {
  }

  /** Appending two batches one after the other appends them together. */
  lemma LogAppend<T>(log: seq<T>, a: seq<T>, b: seq<T>)
    ensures log + a + b == log + (a + b)
  {
  }

  /** `Array.from(files)` followed by `sortFiles`: a fresh array holding the files in the chosen order. */
  method SortedCopy(files: seq<FileMeta>, order: string, collate: (string, string) -> int) returns (fileArray: array<FileMeta>)
    ensures fresh(fileArray)
    ensures fileArray[..] == SortedBy(files, Comparator(order, collate))
  {
    fileArray := new FileMeta[|files|](j requires 0 <= j < |files| => files[j]);
    assert fileArray[..] == files;
    SortFiles(fileArray, order, collate);
  }

  class UIManager {
    const ui: Ui
    const imageProcessor: ImageProcessor
    /** Set while an export runs; a second click meanwhile does nothing. */
    var isGenerating: bool

    /** The image processor works on this manager's page. */
    ghost predicate Valid() {
      imageProcessor.ui == ui
    }

    constructor()
      ensures Valid() && fresh(ui) && fresh(imageProcessor) && !isGenerating
      ensures ui.photoWall == [] && ui.links == [] && ui.downloads == [] && ui.shown == []
    {
      var page := new Ui();
      ui := page;
      imageProcessor := new ImageProcessor(page);
      isGenerating := false;
    }

    /**
     * `processImages` as written: it passes five arguments on, so the
     * capture loop never receives the archive.
     */
    method ProcessImagesAsWritten(photos: seq<Photo>, imagesPerCapture: Positive, addToZip: bool, format: string, quality: int, r: Renderer)
      returns (ok: bool)
      requires Valid()
      modifies ui
      ensures addToZip && |photos| > 0 ==> !ok && ui.links == old(ui.links) && ui.downloads == old(ui.downloads) && ui.shown == old(ui.shown)
      ensures var out := Process(photos, imagesPerCapture, addToZip, false, format, quality, r);
        && ok == !out.aborted
        && ui.photoWall == old(ui.photoWall)
        && ui.shown == old(ui.shown) + PageProgress(|out.done|, imagesPerCapture, |photos|)
        && Recorded(addToZip, ui.links, ui.downloads, [], old(ui.links), old(ui.downloads), [], out.done)
    {
      ok := imageProcessor.ProcessImages(photos, imagesPerCapture, addToZip, format, quality, null, r);
    }

    /** `processImages` with the archive passed on, as the capture loop expects. */
    method ProcessImagesForwarding(photos: seq<Photo>, imagesPerCapture: Positive, addToZip: bool, format: string, quality: int, zip: Zip?, r: Renderer)
      returns (ok: bool)
      requires Valid()
      modifies ui, zip
      ensures var out := Process(photos, imagesPerCapture, addToZip, zip != null, format, quality, r);
        && ok == !out.aborted
        && ui.photoWall == old(ui.photoWall)
        && ui.shown == old(ui.shown) + PageProgress(|out.done|, imagesPerCapture, |photos|)
        && Recorded(addToZip, ui.links, ui.downloads, if zip != null then zip.entries else [],
                    old(ui.links), old(ui.downloads), if zip != null then old(zip.entries) else [], out.done)
    {
      ok := imageProcessor.ProcessImages(photos, imagesPerCapture, addToZip, format, quality, zip, r);
    }

    /**
     * The capture button. `imagesPerCapture` is rows times columns, `now`
     * the moment of the click; the `finally` clause clears the flag.
     * With `forwardsZip` false the archive branch is wired as the source
     * has it, through the five-argument `processImages`; with it true the
     * archive reaches the capture loop.
     */
    method CaptureAndSaveImages(imagesPerCapture: Positive, threshold: ParsedInt, format: string, quality: int,
                                now: DateParts, r: Renderer, pack: seq<ZipEntry> -> Packed, forwardsZip: bool)
      requires Valid() && now.Valid()
      modifies this, ui
      ensures ui.photoWall == old(ui.photoWall)
      ensures old(isGenerating) ==>
        && isGenerating && ui.links == old(ui.links) && ui.downloads == old(ui.downloads) && ui.shown == old(ui.shown)
      ensures !old(isGenerating) ==> !isGenerating
      ensures !old(isGenerating) ==>
        ui.links == Export(old(ui.photoWall), imagesPerCapture, threshold, format, quality, FormatDate(now), r, pack, forwardsZip).links
      ensures !old(isGenerating) ==>
        ui.downloads == old(ui.downloads) + Export(old(ui.photoWall), imagesPerCapture, threshold, format, quality, FormatDate(now), r, pack, forwardsZip).downloads
      ensures !old(isGenerating) ==>
        ui.shown == old(ui.shown) + Export(old(ui.photoWall), imagesPerCapture, threshold, format, quality, FormatDate(now), r, pack, forwardsZip).shown
    {
      if isGenerating {
        return;
      }
      var totalScreenshots := CeilDiv(|ui.photoWall|, imagesPerCapture);
      isGenerating := true;
      if UseLinks(totalScreenshots, threshold) {
        CaptureLinks(imagesPerCapture, format, quality, r);
      } else {
        var formattedDate := FormatDate(now);
        CaptureArchive(imagesPerCapture, format, quality, formattedDate, r, pack, forwardsZip);
      }
      isGenerating := false;
    }

    /** The link branch of the capture button: one link and one saved file per page. */
    method CaptureLinks(imagesPerCapture: Positive, format: string, quality: int, r: Renderer)
      requires Valid()
      modifies ui
      ensures ui.photoWall == old(ui.photoWall)
      ensures ui.links == LinkOutcome(old(ui.photoWall), imagesPerCapture, format, quality, r).links
      ensures ui.downloads == old(ui.downloads) + LinkOutcome(old(ui.photoWall), imagesPerCapture, format, quality, r).downloads
      ensures ui.shown == old(ui.shown) + LinkOutcome(old(ui.photoWall), imagesPerCapture, format, quality, r).shown
    {
      var photos := ui.photoWall;
      ghost var out := Process(photos, imagesPerCapture, false, false, format, quality, r);
      ghost var shown0 := ui.shown;
      ui.shown := ui.shown + [Status(Capturing)];
      ui.links := [];
      var ok := ProcessImagesAsWritten(photos, imagesPerCapture, false, format, quality, r);
      ghost var captured := Captured(|out.done|, imagesPerCapture, |photos|);
      LogAppend(shown0, [Status(Capturing)], PageProgress(|out.done|, imagesPerCapture, |photos|));
      ui.shown := ui.shown + [Status(if ok then CaptureDone else Failed)];
      LogAppend(shown0, captured, [Status(if out.aborted then Failed else CaptureDone)]);
    }

    /** The archive branch of the capture button: capture into a fresh archive, pack it, save it. */
    method CaptureArchive(imagesPerCapture: Positive, format: string, quality: int,
                          stamp: string, r: Renderer, pack: seq<ZipEntry> -> Packed, forwardsZip: bool)
      requires Valid()
      modifies ui
      ensures ui.photoWall == old(ui.photoWall)
      ensures ui.links == ArchiveOutcome(old(ui.photoWall), imagesPerCapture, format, quality, stamp, r, pack, forwardsZip).links
      ensures ui.downloads == old(ui.downloads) + ArchiveOutcome(old(ui.photoWall), imagesPerCapture, format, quality, stamp, r, pack, forwardsZip).downloads
      ensures ui.shown == old(ui.shown) + ArchiveOutcome(old(ui.photoWall), imagesPerCapture, format, quality, stamp, r, pack, forwardsZip).shown
    {
      ghost var photos, shown0 := ui.photoWall, ui.shown;
      ghost var out := Process(photos, imagesPerCapture, true, forwardsZip, format, quality, r);
      ghost var captured := Captured(|out.done|, imagesPerCapture, |photos|);
      var ok, entries := CaptureIntoArchive(imagesPerCapture, format, quality, r, forwardsZip);
      LogAppend(shown0, [Status(Capturing)], PageProgress(|out.done|, imagesPerCapture, |photos|));
      if !ok {
        ui.shown := ui.shown + [Status(Failed)];
        LogAppend(shown0, captured, [Status(Failed)]);
      } else {
        var packed := pack(entries);
        Package(packed, stamp);
        LogAppend(shown0, captured, PackingShown(packed));
      }
    }

    /**
     * The capture half of the archive branch: a fresh archive, then every
     * page into it when `forwardsZip` passes it on; its entries are returned.
     */
    method CaptureIntoArchive(imagesPerCapture: Positive, format: string, quality: int, r: Renderer, forwardsZip: bool)
      returns (ok: bool, entries: seq<ZipEntry>)
      requires Valid()
      modifies ui
      ensures ok == !Process(old(ui.photoWall), imagesPerCapture, true, forwardsZip, format, quality, r).aborted
      ensures ok ==> entries == PutAll([], Entries(Process(old(ui.photoWall), imagesPerCapture, true, forwardsZip, format, quality, r).done))
      ensures ui.photoWall == old(ui.photoWall) && ui.links == [] && ui.downloads == old(ui.downloads)
      ensures ui.shown == old(ui.shown) + [Status(Capturing)] + PageProgress(|Process(old(ui.photoWall), imagesPerCapture, true, forwardsZip, format, quality, r).done|, imagesPerCapture, |old(ui.photoWall)|)
    {
      var photos := ui.photoWall;
      ui.shown := ui.shown + [Status(Capturing)];
      ui.links := [];
      var zip := new Zip();
      if forwardsZip {
        ok := ProcessImagesForwarding(photos, imagesPerCapture, true, format, quality, zip, r);
      } else {
        ok := ProcessImagesAsWritten(photos, imagesPerCapture, true, format, quality, r);
      }
      entries := zip.entries;
    }

    /** The continuation of `generateAsync`: report the packing progress, then save the archive or report the failure. */
    method Package(packed: Packed, stamp: string)
      modifies ui
      ensures ui.photoWall == old(ui.photoWall) && ui.links == old(ui.links)
      ensures ui.downloads == old(ui.downloads) + PackingSaves(packed, stamp)
      ensures ui.shown == old(ui.shown) + PackingShown(packed)
    {
      ui.shown := ui.shown + [Status(Packaging)];
      ui.shown := ui.shown + ArchiveProgress(packed.updates);
      if packed.blob.Some? {
        ui.downloads := ui.downloads + [Download(ZipName(stamp), BlobContent(packed.blob.value))];
        ui.shown := ui.shown + [Status(Done)];
      } else {
        ui.shown := ui.shown + [Status(Failed)];
      }
    }

    /** `updateLayout`: announce the photo count and the pages it makes, or blank the text for an empty wall. */
    method UpdateLayout(photosPerCapture: Positive)
      modifies ui
      ensures ui.shown == old(ui.shown) + [LayoutMessage(|old(ui.photoWall)|, photosPerCapture)]
      ensures ui.photoWall == old(ui.photoWall) && ui.links == old(ui.links) && ui.downloads == old(ui.downloads)
    {
      var photoCount := |ui.photoWall|;
      if photoCount == 0 {
        ui.photoWall := [];
        ui.shown := ui.shown + [Blank];
        return;
      }
      ui.shown := ui.shown + [Summary(photoCount, CeilDiv(photoCount, photosPerCapture))];
    }

    /**
     * `loadImage`: decode the file at `index`, write its size onto it and
     * add it to the wall; `false` when decoding fails (the promise rejects).
     */
    method LoadImage(fileArray: array<FileMeta>, index: nat, decode: FileMeta -> Option<Dims>) returns (ok: bool)
      requires index < fileArray.Length
      modifies ui, fileArray
      ensures ok <==> decode(old(fileArray[index])).Some?
      ensures ok ==> fileArray[..] == old(fileArray[..])[index := WithDims(old(fileArray[index]), decode(old(fileArray[index])).value)]
      ensures ok ==> ui.photoWall == old(ui.photoWall) + [Photo(WithDims(old(fileArray[index]), decode(old(fileArray[index])).value), decode(old(fileArray[index])).value)]
      ensures !ok ==> fileArray[..] == old(fileArray[..]) && ui.photoWall == old(ui.photoWall)
      ensures ui.links == old(ui.links) && ui.downloads == old(ui.downloads) && ui.shown == old(ui.shown)
    {
      var file := fileArray[index];
      var img := decode(file);
      if img.None? {
        return false;
      }
      var d := img.value;
      fileArray[index] := WithDims(file, d);
      ui.photoWall := ui.photoWall + [Photo(WithDims(file, d), d)];
      return true;
    }

    /**
     * The import loop of `handleFiles`: every image of the list, in order,
     * through `loadImage`, with the progress after each; the first image
     * that fails to decode ends it.
     */
    method ImportFiles(fileArray: array<FileMeta>, decode: FileMeta -> Option<Dims>) returns (ok: bool)
      modifies ui, fileArray
      ensures ok == !Import(old(fileArray[..]), fileArray.Length, decode).failed
      ensures fileArray[..] == Import(old(fileArray[..]), fileArray.Length, decode).files
      ensures ui.photoWall == old(ui.photoWall) + Import(old(fileArray[..]), fileArray.Length, decode).wall
      ensures ui.shown == old(ui.shown) + Import(old(fileArray[..]), fileArray.Length, decode).shown
      ensures ui.links == old(ui.links) && ui.downloads == old(ui.downloads)
    {
      ghost var files, wall0, shown0 := fileArray[..], ui.photoWall, ui.shown;
      var n := fileArray.Length;
      var index := 0;
      assert files[..0] == [];
      ghost var imp := Import(files[..0], n, decode);
      while index < n
        invariant 0 <= index <= n && |files| == n
        invariant imp == Import(files[..index], n, decode) && !imp.failed
        invariant fileArray[..index] == imp.files
        invariant forall j :: index <= j < n ==> fileArray[j] == files[j]
        invariant ui.photoWall == wall0 + imp.wall && ui.shown == shown0 + imp.shown
        invariant ui.links == old(ui.links) && ui.downloads == old(ui.downloads)
      {
        var loaded;
        loaded, imp := ImportStep(fileArray, index, decode, files, imp, wall0, shown0);
        if !loaded {
          ImportAfterFailure(files, index + 1, n, decode);
          assert files[..n] == files;
          return false;
        }
        index := index + 1;
      }
      assert files[..n] == files && fileArray[..] == fileArray[..n];
      return true;
    }

    /** One turn of the import loop: the file at `index`, loaded when it is an image. */
    method ImportStep(fileArray: array<FileMeta>, index: nat, decode: FileMeta -> Option<Dims>,
                      ghost files: seq<FileMeta>, ghost imp: Imported, ghost wall0: seq<Photo>, ghost shown0: seq<Message>)
      returns (ok: bool, ghost next: Imported)
      requires index < fileArray.Length == |files|
      requires imp == Import(files[..index], |files|, decode) && !imp.failed
      requires fileArray[..index] == imp.files
      requires forall j :: index <= j < |files| ==> fileArray[j] == files[j]
      requires ui.photoWall == wall0 + imp.wall && ui.shown == shown0 + imp.shown
      modifies ui, fileArray
      ensures next == Import(files[..index + 1], |files|, decode) && ok == !next.failed
      ensures ok ==> fileArray[..index + 1] == next.files
      ensures !ok ==> fileArray[..] == next.files + files[index + 1..]
      ensures forall j :: index + 1 <= j < |files| ==> fileArray[j] == files[j]
      ensures ui.photoWall == wall0 + next.wall && ui.shown == shown0 + next.shown
      ensures ui.links == old(ui.links) && ui.downloads == old(ui.downloads)
    {
      assert files[..index + 1][..index] == files[..index];
      next := Import(files[..index + 1], |files|, decode);
      var file := fileArray[index];
      assert file == files[index];
      if !IsImage(file) {
        assert fileArray[..index + 1] == fileArray[..index] + [file];
        return true, next;
      }
      ok := LoadImage(fileArray, index, decode);
      if !ok {
        assert fileArray[..] == fileArray[..index] + [file] + files[index + 1..];
        return false, next;
      }
      ui.shown := ui.shown + [Percentage(ImportingFiles, Percent(index + 1, fileArray.Length))];
      assert fileArray[..index + 1] == old(fileArray[..index]) + [fileArray[index]];
      LogAppend(wall0, imp.wall, [next.wall[|next.wall| - 1]]);
      LogAppend(shown0, imp.shown, [Percentage(ImportingFiles, Percent(index + 1, fileArray.Length))]);
    }

    /**
     * `handleFiles`: clear the wall, sort a copy of the file list, import
     * every image in that order and announce the layout. `ok` is false when
     * an image failed to decode, which ends the import where it stands.
     */
    method HandleFiles(files: seq<FileMeta>, order: string, collate: (string, string) -> int,
                       decode: FileMeta -> Option<Dims>, photosPerCapture: Positive)
      returns (ok: bool, fileArray: array<FileMeta>)
      modifies ui
      ensures fresh(fileArray)
      ensures ok == !ImportSorted(files, order, collate, decode).failed
      ensures fileArray[..] == ImportSorted(files, order, collate, decode).files
      ensures ui.photoWall == ImportSorted(files, order, collate, decode).wall
      ensures ui.links == old(ui.links) && ui.downloads == old(ui.downloads)
      ensures ui.shown == old(ui.shown) + HandleTexts(ImportSorted(files, order, collate, decode), photosPerCapture)
    {
      ghost var shown0 := ui.shown;
      ui.photoWall := [];
      ui.shown := ui.shown + [Status(SortingFiles)];
      fileArray := SortedCopy(files, order, collate);
      ui.shown := ui.shown + [Status(ImportingFiles)];
      ghost var imp := ImportSorted(files, order, collate, decode);
      assert imp == Import(fileArray[..], fileArray.Length, decode);
      ok := ImportFiles(fileArray, decode);
      assert ui.photoWall == imp.wall;
      if ok {
        ui.shown := ui.shown + [Status(ImportDone)];
        UpdateLayout(photosPerCapture);
      }
      HandleTextsLog(shown0, imp, photosPerCapture);
    }
  }
}

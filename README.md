# Capture: the export pipeline, modelled and proved in Dafny

Capture is a browser page that turns a folder of pictures into a photo wall and exports that wall as pictures of pages. This project models the export pipeline of its `script.js`:

- **Import.** `handleFiles` sorts the dropped files with one of sixteen comparators (`sortFiles`). It then decodes every image onto the wall (`loadImage`), writing each image's size back onto its file object. The first image that fails to decode ends the import.
- **Layout.** `updateLayout` announces how many pages the wall will make: `ceil(photos / (rows × columns))`.
- **Export.** The capture button (`captureAndSaveImages`) is guarded by `isGenerating`. It compares the page count with the file threshold and runs the capture loop (`ImageProcessor.processImages`):
  - the loop cuts the wall into pages of `rows × columns` photos and names page `k` `NNN.<format>`;
  - it has each page rasterised and encoded;
  - it then either appends a download link and saves the page at once, or adds the page to a JSZip archive;
  - in link mode that ends the export; in archive mode the archive is meant to be packed and saved as `Screenshots_<Y-MM-DD_HH-MM-SS>.zip`, but the wrapper `UIManager.processImages` (script.js:349-351) drops the archive, so with at least one photo the capture loop throws at its first `zip.file` call and the export ends in the failure message (see "## Findings").
- **Progress.** Every step writes a text to the progress line: `round(min(p, 1) · 100)` percent during capture, `min(round(percent), 100)` during packing.

The model has one module per part:

- `Wrappers` (wrappers.dfy): `Option` and `Min`.
- `Text` (text.dfy): `String(n)`, `padStart` and `split(',')[1]`.
- `Utils` (utils.dfy): `formatDate`.
- `Files` (files.dfy): the file objects, the image test and the sizes decoding writes onto them.
- `Paging` (paging.dfy): the page planner and page names.
- `Progress` (progress.dfy): both percentage formulas, on exact fractions.
- `Sorting`/`Comparators` (sorting.dfy, comparators.dfy): the comparator registry and the stable in-place sort that stands for `Array.prototype.sort`.
- `Importing` (importer.dfy): the import loop as a function.
- `ImageProcessing` (image_processor.dfy): the capture loop as a class over the page's output logs.
- `Manager` (ui_manager.dfy): the coordinator `UIManager`.

The state the source changes in place becomes class fields:

- the photo wall, the links container, every `saveAs` call and every progress text: fields of `Ui`;
- the archive's entries: `Zip`;
- `isGenerating`: `UIManager`;
- the file list that `sortFiles` sorts and `loadImage` writes sizes onto: an `array`.

The methods are proved against functions: `Import`, `Run`/`Process`, `Export` and `SortedBy`. The properties are proved as lemmas about those functions.

The collaborators the page calls are parameters:

- `html2canvas` and `canvas.toDataURL` are the two functions of a `Renderer`. A rasteriser that throws returns `None`.
- Image decoding is `decode`.
- `zip.generateAsync` is `pack`: its progress reports, then the blob, or `None` when it rejects.
- `localeCompare` is `collate`.
- The clock is the `now` argument.

Failures and formats follow the code:

- **Render failure.** A page that fails to render rethrows (script.js:55-58), so the export ends in the failure message; no page is skipped.
- **Decode failure.** One image that fails to decode makes `handleFiles` throw (script.js:245-248). The remaining files are not imported and the import is not completed.
- **Link type.** `createDownloadLink` labels every link `data:image/png`, whatever the format (script.js:25), and `DownloadLink` keeps that.
- **Archive wiring.** `CaptureAndSaveImages`, `CaptureArchive` and `CaptureIntoArchive` take a flag `forwardsZip`. With `false` they are the code as written: script.js:324 calls the five-argument wrapper at script.js:349-351, which drops the archive. With `true` the archive reaches the capture loop, which is the corrected half of the finding below.

## Model

| member | source | states |
|---|---|---|
| Utils.TwoDigits | script.js:11 | `String(n).padStart(2, '0')` for `n < 100` is two decimal digits that read back as `n` |
| Utils.FormatDateFields | script.js:10-12 | for a four-digit year the stamp is 19 characters with `-`, `-`, `_`, `-`, `-` at offsets 4, 7, 10, 13, 16, and its fields read back as the year, the 1-based month, the day, hours, minutes and seconds |
| Utils.FormatDateLayout | script.js:10-12 | for a four-digit year each slice of the stamp is the rendering of its own field |
| Utils.FormatDateLength | script.js:10-12 | for any year the stamp is the year's text plus 15 characters, and a non-negative year is written in digits only |
| Utils.StampLayout | script.js:11 | the template's separators and two-character fields sit at fixed offsets after the year, whatever their contents |
| Text.NatToString | script.js:44 | `n.toString()` is a non-empty digit string without a leading zero |
| Text.IntToString | script.js:11 | `String(i)` starts with `-` exactly when `i` is negative; the rest is a digit string without a leading zero that reads back as the magnitude of `i` |
| Text.PadStart | script.js:44 | `padStart(width, fill)` has length `max(|s|, width)`, ends with `s`, and is fill before it |
| Text.NatToStringValue | script.js:44 | the digits of `n.toString()` denote `n` |
| Text.LeadingZerosValue | script.js:44 | leading zeros keep a digit string a digit string with the same value |
| Text.ZeroPaddedValue | script.js:44 | a zero-padded number is all digits and still denotes the number |
| Text.NatToStringLength | script.js:44 | a number of `d` digits renders as `d` characters |
| Text.IndexOf | script.js:92 | the first position of a character, or none exactly when it does not occur |
| Text.SecondField | script.js:92 | `s.split(sep)[1]` is defined exactly when `s` holds `sep` |
| Text.SecondFieldOfJoin | script.js:92 | the second field of `a + sep + b` is `b` when neither part holds `sep` |
| Paging.CeilDiv | script.js:307 | `Math.ceil(n / c)` is a page count that holds every photo and leaves no page empty |
| Paging.CeilDivUnique | script.js:307 | `Math.ceil(n / c)` is the only such count |
| Paging.PagesFlatten | script.js:43-45 | the pages, concatenated in order, are the photo list |
| Paging.PagesCount | script.js:43-45 | there are `ceil(n / c)` pages, none for an empty wall |
| Paging.PageSlice | script.js:43-45 | page `k` is `photos.slice(k·c, k·c + c)`; it is non-empty, holds at most `c` photos, and only the last page holds fewer |
| Paging.CursorStart | script.js:43 | `i = 0` is the cursor of the first page |
| Paging.CursorNext | script.js:43-45 | at cursor `i` the slice is page `k`, its number `i / c + 1` is `k + 1`, and `i += c` reaches page `k + 1` |
| Paging.PageNameNumber | script.js:44 | the page name is the zero-padded page number, all digits and three of them below 1000, followed by `.<format>` |
| Paging.PageNamesDistinct | script.js:44 | two page numbers never share a file name |
| Paging.PageNameExamples | script.js:44 | page 1 is `001.<format>` and page 12 is `012.<format>` |
| Progress.RoundHalfUp | script.js:116 | `Math.round(num / den)` is the integer nearest the fraction, halves rounded up |
| Progress.RoundHalfUpMonotone | script.js:116 | rounding keeps the order of fractions |
| Progress.RoundHalfUpExact | script.js:116 | a whole number rounds to itself |
| Progress.PercentBounds | script.js:115-117 | the shown percentage lies in 0..100 and is 100 once the ratio reaches 1 |
| Progress.PercentMonotone | script.js:115-117 | a larger ratio never shows a smaller percentage |
| Progress.ArchivePercent | script.js:331 | the packing percentage is at most 100 and is the rounded report whenever that is at most 100 |
| Progress.ArchivePercentMonotone | script.js:331 | the packing percentage follows the order of the reports |
| Files.WithDims | script.js:229-231 | decoding writes width, height and aspect ratio onto the file object and changes nothing else |
| Sorting.Insert | script.js:252 | one insertion step lengthens the list by one |
| Sorting.InsertPermutes | script.js:252 | one insertion step adds exactly the inserted element |
| Sorting.SortedBy | script.js:252 | the stable sort keeps the length |
| Sorting.TiedWithSnoc | script.js:252 | one more element adds itself to the tied elements exactly when it is tied with `x` |
| Sorting.InsertTied | script.js:252 | inserting `y` adds it behind the elements already tied with `x`, and only when `y` is tied with `x` |
| Sorting.InsertTiedBehind | script.js:252 | an element that the inserted one moves in front of is not tied with `x` when the inserted one is |
| Sorting.SortedByStable | script.js:252 | stability: under a consistent comparator the elements tied with any `x` leave the sort in the order they entered it |
| Sorting.StableExample | script.js:252 | sorting `[(2,0),(1,1),(2,2)]` by the first component gives `[(1,1),(2,0),(2,2)]` |
| Sorting.SortInPlace | script.js:252 | `files.sort(cmp)` leaves the array holding `SortedBy` of its old contents |
| Sorting.InsertInPlace | script.js:252 | one pass moves `a[i]` into the sorted prefix and leaves the rest of the array alone |
| Sorting.ShiftGreater | script.js:252 | the shifting loop moves up exactly the greater elements and frees the slot where the element belongs |
| Sorting.InsertAt | script.js:252 | the element lands behind the last element that does not compare greater than it |
| Sorting.SortedByPermutes | script.js:252 | the sort only rearranges its input |
| Sorting.SortedByKeepsOrder | script.js:252 | a comparator that never says "positive" leaves the input as it was (stability) |
| Sorting.InsertSorted | script.js:252 | under a consistent comparator an insertion keeps the list in order |
| Sorting.SortedBySorted | script.js:252 | under a consistent comparator the result is in order |
| Comparators.ParseSortKeyName | script.js:253-269 | each key's option value selects that key |
| Comparators.ParseSortKeyOnly | script.js:253-270 | a key is selected by its own option value and no other |
| Comparators.Minus | script.js:262-269 | the difference puts `x` first exactly when both fields are defined and `x` is smaller, and `y` first exactly when both are defined and `x` is larger; an `undefined` field gives `NaN`, which leaves the pair in place |
| Comparators.MinusAntisymmetric | script.js:262-269 | swapping the operands negates the comparison, `NaN` included |
| Comparators.SortFiles | script.js:251-273 | the file array is sorted in place by the selected comparator |
| Comparators.Reverse | script.js:254-269 | every key has a partner in the opposite direction |
| Comparators.DescendingIsSwappedAscending | script.js:254-269 | every descending comparator is its ascending partner with the arguments swapped |
| Comparators.UnknownOrderKeepsInput | script.js:270 | an unrecognised order compares every pair as 0, so the list stays in its input order |
| Comparators.DimensionKeyIgnoresUndecoded | script.js:262-269 | a dimension key compares a file without a decoded size as equal to anything |
| Comparators.DimensionOrderKeepsUndecoded | script.js:262-269 | sorting files that have no decoded size by a dimension key leaves them in order |
| Comparators.ComparatorConsistent | script.js:252-271 | each registered comparator is a total preorder, given a total preorder for collation and decoded sizes for the dimension keys |
| Comparators.KeyTransitive | script.js:254-269 | "not after" is transitive for each key |
| Comparators.SortFilesOrdered | script.js:252-271 | sorting by a registered key yields a permutation of the input in that key's order |
| ImageProcessing.ImgData | script.js:92 | `dataUrl.split(',')[1]` is the base64 payload of the data URL |
| ImageProcessing.HrefPayload | script.js:92 | a data URL holds a comma, and its second comma-separated field is its payload |
| ImageProcessing.Request | script.js:84-86 | the encoder gets `image/<format>` and the quality exactly for `jpg` and `avif` |
| ImageProcessing.RunStops | script.js:43-58 | the run saves a prefix of the pages; it stops early exactly when a page fails to render, and that page comes right after the last one saved |
| ImageProcessing.RunSaves | script.js:43-51 | saved page `j` is page `j` of the input, rendered under its own number |
| ImageProcessing.RunNames | script.js:44 | saved page `j` is named after page `j + 1`, and no two saved pages share a name |
| ImageProcessing.RunComplete | script.js:43-54 | when every page renders, the run saves all of them and does not abort |
| ImageProcessing.RunFailsOn | script.js:55-58 | a page that fails to render aborts the run, with that page and every later page unsaved |
| ImageProcessing.RunStep | script.js:43-54 | one loop turn saves a page and continues with the rest |
| ImageProcessing.RunAdvance | script.js:43-54 | the loop's run invariant moves on one page |
| ImageProcessing.ProcessStopped | script.js:55-58 | a throw at page `k` leaves exactly the pages before `k` saved and reports failure |
| ImageProcessing.ProcessFinished | script.js:43-54 | a loop that runs past the last page has saved every page |
| ImageProcessing.PrefixedAssoc | script.js:43-54 | appending saved pages in two steps is appending them at once |
| ImageProcessing.Put | script.js:48 | `zip.file` appends an entry whose name is new |
| ImageProcessing.PutReplaces | script.js:48 | when the name is present, `zip.file` replaces the first entry with it in place and nothing else changes |
| ImageProcessing.PutAllDistinct | script.js:48 | entries with distinct names are all kept, in order, none replaced |
| ImageProcessing.Entries | script.js:48 | one archive entry per saved page: its base64 image under its page name |
| ImageProcessing.DownloadLink | script.js:23-30 | the link's `download` is the file name, and `split(',')[1]` of its `href` gives back the image data |
| ImageProcessing.Links | script.js:50 | one link per saved page, in order |
| ImageProcessing.Saves | script.js:88-90 | one `saveAs` per saved page, in order, under the page's name, of a data URL whose `split(',')[1]` is the page's base64 image |
| ImageProcessing.PageProgressBounds | script.js:53 | one capture percentage per saved page, each within 0..100 |
| ImageProcessing.PageProgressRising | script.js:53 | the capture percentages never decrease |
| ImageProcessing.PageProgressComplete | script.js:53 | after the last page the capture percentage is 100 |
| ImageProcessing.PageProgressSnoc | script.js:53 | each saved page adds its own percentage to the progress log |
| ImageProcessing.OutputsSnoc | script.js:47-51 | one more saved page adds one entry, one link and one save |
| ImageProcessing.RecordedStep | script.js:47-51 | routing one more page keeps the record of the archive, links and saves up to date |
| ImageProcessing.Zip.constructor | script.js:323 | `new JSZip()` is an empty archive |
| ImageProcessing.Zip.File | script.js:48 | `zip.file(name, data)` applies `Put` to the archive |
| ImageProcessing.ImageProcessor.constructor | script.js:35-37 | the processor works on the page it is given |
| ImageProcessing.ImageProcessor.ProcessImages | script.js:39-59 | the loop does what `Process` computes. It fails exactly when the run aborts. The progress log gains one percentage per saved page. In archive mode the archive gets one entry per saved page and the links are untouched. In link mode one link and one save per saved page are appended and the archive is untouched. The wall is unchanged |
| ImageProcessing.ImageProcessor.SavePage | script.js:44-53 | one loop turn renders the page under `i / c + 1`, routes it, and shows its percentage, or changes nothing when the render or `zip.file` throws |
| ImageProcessing.ImageProcessor.CaptureAndSaveImage | script.js:61-97 | the data URL is the encoding of the rasterised page, absent exactly when rasterising throws; with a file name the page is saved at once |
| ImageProcessing.ImageProcessor.Keep | script.js:47-51 | the page goes into the archive (throwing when there is none) or becomes a new link |
| Importing.Import | script.js:197-203 | the import keeps one file object per file |
| Importing.ImportAfterFailure | script.js:245-248 | once an image failed to decode, nothing more is imported or shown |
| Importing.PhotosSnoc | script.js:197-203 | one more decoded image adds one photo at the end of the wall |
| Importing.ImportOutcome | script.js:197-203 | the import fails exactly when some image does not decode. Otherwise the wall holds every image, decoded and in order, and each image's file object carries its size. Non-images are left alone |
| Importing.ImportKeepsMetadata | script.js:229-232 | decoding leaves every file's name, date, size and type as they were |
| Importing.ImportWallImages | script.js:226-244 | only images reach the wall, each with its own decoded size |
| Importing.ImportProgress | script.js:201 | the import percentages never decrease and never pass the share of files visited |
| Manager.ArchiveProgress | script.js:330-333 | definition of the `onUpdate` texts, one per report; see `ArchiveProgressCapped` |
| Manager.PackingShown | script.js:325-338 | definition of the packing texts: start, the packer's reports, then completion or failure; see `ArchiveProgressCapped` and `Package` |
| Manager.PackingSaves | script.js:335-337 | definition of the archive save: `Screenshots_<stamp>.zip` exactly when the packer yields a blob; see `ZipNameLayout` and `Package` |
| Manager.ArchiveProgressCapped | script.js:330-333 | one packing text per report, each at most 100 and equal to the rounded report when that is at most 100 |
| Manager.ZipNameLayout | script.js:336 | the archive name is `Screenshots_`, the stamp and `.zip`, in that order |
| Manager.LayoutAnnouncesPages | script.js:390-392 | the announced page count is the number of pages the capture loop takes, `ceil(n / c)`; an empty wall shows nothing |
| Manager.RunLinks | script.js:43-51 | the links and saves of a run are those of its first pages, each under its own name |
| Manager.ExportLinkMode | script.js:319-321 | in link mode, at or below the threshold, there is one link and one save per rendered page, in order. The export reports completion exactly when every page rendered and failure otherwise. The archive wiring makes no difference |
| Manager.CompleteRunArchive | script.js:323-324 | a complete run hands the packer exactly one entry per page, in order, none replaced |
| Manager.EntriesDistinct | script.js:48 | distinct page names give distinct archive entry names |
| Manager.RenderedEntries | script.js:45-48 | pages rendered under their own numbers give the archive of those pages |
| Manager.ExportArchiveMode | script.js:322-342 | with the archive forwarded (`forwardsZip` true, the corrected wiring of "## Findings"): in archive mode, above the threshold or with a `NaN` threshold, no links are made. When every page renders, the packer gets every page, and `Screenshots_<stamp>.zip` is saved exactly when packing succeeds. A failed page ends the export with nothing saved and the failure message |
| Manager.AsWrittenArchiveFails | script.js:349-351 | as wired, archive mode with at least one photo always fails and saves nothing |
| Manager.WiringCounterexample | script.js:349-351 | one photo, threshold 0: forwarding the archive saves it; the source's wiring saves nothing |
| Manager.HandleTextsLog | script.js:191-206 | the texts `handleFiles` writes one after another form its progress log |
| Manager.UIManager.constructor | script.js:121-127 | a new manager has an empty page, its own processor, and no export running |
| Manager.UIManager.ProcessImagesAsWritten | script.js:349-351 | the wrapper as written runs the loop with no archive: in archive mode with photos it fails before recording anything |
| Manager.UIManager.ProcessImagesForwarding | script.js:349-351 | the wrapper with the archive passed on does what `Process` computes for that archive |
| Manager.UIManager.CaptureAndSaveImages | script.js:300-351 | a click during an export changes nothing. Otherwise the export runs, its links, saves and texts are those of `Export` for the wall and the given wiring, and the flag is clear afterwards, on success or failure. With `forwardsZip` false, the wiring of script.js:324 and 349-351, `AsWrittenArchiveFails` then shows that an archive export with photos saves nothing |
| Manager.UIManager.CaptureLinks | script.js:317-321 | the link branch clears the links, runs the loop through the five-argument wrapper, and leaves the links, saves and texts of `LinkOutcome` |
| Manager.UIManager.CaptureArchive | script.js:322-342 | the archive branch leaves the saves and texts of `ArchiveOutcome` for the given wiring and no links |
| Manager.UIManager.CaptureIntoArchive | script.js:323-324 | a fresh archive is created and the loop is run through the wrapper as written (`forwardsZip` false, no archive reaches it) or with the archive passed on; the capture half fails exactly when that run aborts, and otherwise the archive holds the run's entries |
| Manager.UIManager.Package | script.js:325-338 | packing shows its start, one text per report, then saves the archive and shows completion, or shows the failure |
| Manager.UIManager.UpdateLayout | script.js:353-393 | `updateLayout` adds the photo count and page count to the log, or a blank text for an empty wall |
| Manager.UIManager.LoadImage | script.js:214-249 | a decoded image gets its size written back and joins the wall; a failed decode changes nothing |
| Manager.UIManager.ImportFiles | script.js:197-203 | the loop leaves the file array, wall and texts that `Import` computes, and fails exactly when `Import` does |
| Manager.UIManager.ImportStep | script.js:198-202 | one turn imports the file at `index` as `Import` does |
| Manager.SortedCopy | script.js:190-193 | `Array.from(files)` then `sortFiles` leaves a fresh array holding `SortedBy` of the files under the chosen comparator |
| Manager.UIManager.HandleFiles | script.js:183-212 | the wall is the import of the files in the chosen order. The texts are sorting, importing, the import's progress, then, when every image decoded, the end of the import and the layout summary |
| Utils.FormatDate | script.js:10-12 | definition of the stamp template; its layout and read-back are `FormatDateFields`, `FormatDateLayout` and `FormatDateLength` |
| Paging.Pages | script.js:43-45 | definition of the slices the loop takes; their properties are `PagesFlatten`, `PagesCount` and `PageSlice` |
| Paging.PageName | script.js:44 | definition of the page file name; its properties are `PageNameNumber` and `PageNamesDistinct` |
| Progress.Percent | script.js:115-117 | definition of `Math.round(Math.min(p, 1) * 100)` on an exact fraction; its properties are `PercentBounds` and `PercentMonotone` |
| Files.IsImage | script.js:199 | definition of `file.type.startsWith('image/')`, as prefix order on strings |
| Comparators.ParseSortKey | script.js:253-270 | definition of the comparator registry lookup; `ParseSortKeyName` and `ParseSortKeyOnly` show it selects each key by its own value only |
| Comparators.KeyCompare | script.js:254-269 | definition of the sixteen comparator bodies; their properties are `DescendingIsSwappedAscending`, `KeyTransitive` and `ComparatorConsistent` |
| Comparators.Compare | script.js:252-271 | definition of the comparator `sortFiles` hands to `sort`, 0 for an unknown order; see `UnknownOrderKeepsInput` and `SortFilesOrdered` |
| ImageProcessing.RenderPage | script.js:61-97 | definition of one `captureAndSaveImage` call under its page name, none when rasterising throws |
| ImageProcessing.Run | script.js:43-58 | definition of the loop over the pages with the rethrow; its properties are `RunStops`, `RunSaves`, `RunNames`, `RunComplete` and `RunFailsOn` |
| ImageProcessing.Process | script.js:39-59 | definition of `processImages` on its `zip` argument; `ProcessImages` is proved equal to it, and `ProcessStopped` and `ProcessFinished` relate it to the loop |
| ImageProcessing.PutAll | script.js:48 | definition of a sequence of `zip.file` calls; see `PutAllDistinct` |
| ImageProcessing.PageProgress | script.js:53 | definition of the capture texts; their properties are `PageProgressBounds`, `PageProgressRising` and `PageProgressComplete` |
| Manager.UseLinks | script.js:306-319 | definition of `totalScreenshots <= fileThreshold`, false for a `NaN` threshold |
| Manager.ZipName | script.js:336 | definition of the archive name; see `ZipNameLayout` |
| Manager.LayoutMessage | script.js:357-392 | definition of the layout text; see `LayoutAnnouncesPages` |
| Manager.Export | script.js:300-347 | definition of the export's links, saves and texts for a wiring; see `ExportLinkMode`, `ExportArchiveMode` and `AsWrittenArchiveFails` |
| Manager.LinkOutcome | script.js:319-321 | definition of the link branch's outcome; see `ExportLinkMode` and `RunLinks` |
| Manager.ArchiveOutcome | script.js:322-342 | definition of the archive branch's outcome for a wiring; see `ExportArchiveMode` and `AsWrittenArchiveFails` |

## Left out

- DOM work is UI plumbing: styles, display toggles, `innerHTML` beyond clearing the wall and the links, the progress bar's width, the attributes `loadImage` sets on the `<img>` element, and `resetUIState` with its `setTimeout`.
- `createTempDiv`, `html2canvas`, `canvas.toDataURL` and the pixels of a page are library calls. They are the `Renderer` parameter.
- `saveAs` is a browser call. Each call is recorded as a `Download` value, and its success is not observable.
- The internals of `JSZip.generateAsync` are a library (DEFLATE, level 9, the blob's bytes). It is the `pack` parameter.
- Image decoding through `Image` and `URL.createObjectURL` is a browser call. It is the `decode` parameter.
- `localeCompare` is a library with locale rules. It is the `collate` parameter, assumed a total preorder where sortedness is proved.
- Floating point is not modelled:
  - the quality `parseInt(...) / 100` is passed through as an opaque integer;
  - the aspect ratio `(w / h).toFixed(2)` is an opaque integer number of hundredths;
  - the progress ratios are exact fractions.
- `file.resolution` is left out because nothing reads it: the resolution comparators multiply width and height themselves.
- `handleSort` re-reads DOM attributes and rebuilds the wall through browser `Date` parsing. It is not part of this model.
- The `async`/`await` structure and `console.error` are left out. The run is sequential.
- `parseInt` of rows and columns: the model takes `imagesPerCapture` as a positive integer. With a product of 0 the source loop never advances, and with `NaN` it renders one empty page. Neither case is modelled.
- `Sorting.SortInPlace`: it stands for `Array.prototype.sort` as a stable insertion sort. Any stable sort gives the same order for a consistent comparator. For an inconsistent one, such as a dimension key over a mix of decoded and undecoded files, an engine's own order may differ.
- `ImageProcessing.DownloadLink`: the contract gives back the file name and the image data, but does not spell out the `data:image/png;base64` prefix. The body fixes that prefix, and every caller sees it.
- `ImageProcessing.Saves`: the contract gives each save's file name and the payload its data URL carries, but not the URL's media-type prefix. The body fixes it as `data:<mediaType>;base64,`.
- Aliasing of file objects: `loadImage` writes sizes onto the `File` objects that `fileInput.files` also holds, so a later re-import sees them. The model's `HandleFiles` takes the files as values and writes only to its fresh array, so that sharing is not captured. Only `handleSort`, which is not modelled, could observe it.
- `Manager.UIManager.CaptureAndSaveImages`: the contract does not state that `isGenerating` is true while the export runs. Nothing runs concurrently in the model, so only the state before and after the call is visible.
- `Manager.UIManager.CaptureAndSaveImages`: the time stamp comes from the `now` argument rather than a clock.
- `Manager.UIManager.CaptureAndSaveImages`: the stamp is formatted only in the archive branch. The source formats it in both branches, and it is unused in link mode.

## Findings

| source | as written | input that shows it | evidently intended | confidence | as-written member | corrected member |
|---|---|---|---|---|---|---|
| script.js:349-351 | `UIManager.processImages` passes five arguments on, so the archive created at script.js:323 never reaches `ImageProcessor.processImages`. There `zip` is `null` and the first `zip.file` call throws. `CaptureAndSaveImages`, `CaptureArchive` and `CaptureIntoArchive` with `forwardsZip` false follow this wiring, and with `forwardsZip` true the corrected one | archive mode with at least one photo, e.g. one photo, rows × columns 1, file threshold 0 | the archive reaches the capture loop, every page is added to it, and `Screenshots_<stamp>.zip` is saved | not executed | Manager.UIManager.ProcessImagesAsWritten, Manager.AsWrittenArchiveFails, Manager.WiringCounterexample | Manager.UIManager.ProcessImagesForwarding, Manager.ExportArchiveMode |

# compress_pdf: a Dafny model of the PDF image-recompression pass

The repository shrinks a PDF by re-encoding its embedded raster images. The
core is one Python function, `compress_pdf(input_path, output_path,
image_quality=30)`. It appears twice, with the same text: in `compression.py`
(desktop front end) and in `app.py` (web front end). For each page, in index
order, it:

1. builds `image_rects`, a map from an image block's `"image"` entry to the
   block's bbox. Only blocks of type 1 count, and a later block overwrites an
   earlier one with the same key;
2. walks the page's image list. It skips every xref with no rectangle. For
   each other xref it extracts the image, decodes it to RGB, resizes it to
   `(max(1, w // 2), max(1, h // 2))`, and encodes it as JPEG at
   `image_quality`. It then inserts the new stream at the rectangle and adds a
   white redaction annotation at the same rectangle;
3. calls `apply_redactions` once for the page.

After the last page it saves once (`garbage=4, deflate=True, clean=True`),
closes the document and returns `True`. Any exception anywhere ends the pass
and returns `False`.

The model is in six modules:

- `Common`: `Option` and the byte type.
- `Fitz`: the PyMuPDF side. Blocks are a tagged union (`TextBlock`,
  `ImageBlock`, `OtherBlock`). A page is its blocks plus its image list.
  `PdfFile` is what `fitz.open` yields. `Document` is the open handle: a class
  whose mutating methods (`InsertImage`, `AddRedactAnnot`, `ApplyRedactions`,
  `Save`, `Close`) append each completed call to an append-only `trace`.
  Whether a call raises is a parameter of the document (`PdfFile.raises`).
  `extract_image` raises for an xref that is not an image resource.
- `Imaging`: the PIL side. The three codec stages (decode to RGB, resize,
  JPEG encode) are partial foreign functions passed in as a `Codec`. The only
  logic of the program's own here is `Halve`, the downscale rule.
- `Pipeline`: the specification. It gives, as functions, what a pass does
  (`Resolve`, `CandidatesRun`, `PageRun`, `PagesRun`, `CompressRun`). A `Run`
  holds the completed mutations and whether the pass finished. The lemmas
  state the function's promises.
- `Compression`: `compression.py`'s function, imperative, with one method per
  loop. Each method is proved against the `Pipeline` function for that loop.
- `App`: `app.py`'s function, with the block loop and the image loop written
  inline in the page body, as the source has them. `App.CompressPdf` has the
  same contract as `Compression.CompressPdf`. So the two copies return the
  same boolean and perform the same mutations, in the same order, on every
  input.

Inputs the model takes as parameters:

- The input path is replaced by what `fitz.open` reads from it. `None` means
  open raised.
- The codec stages and the library's failures are functions supplied by the
  caller.
- The output path is not modelled; a completed `Save` call stands for the
  file written.

## Model

| member | source | states |
|---|---|---|
| `Compression.ResolvePlacements` | compression.py:15-21 | the block loop ends with exactly the map `Resolve(blocks)` |
| `Pipeline.ResolveDomain` | compression.py:17-21 | a key is in the resolved map if and only if some image block (type 1) has that `"image"` entry; text and other blocks add no key |
| `Pipeline.ResolveLastWins` | compression.py:21 | the rectangle stored for a key is the bbox of the last image block with that key |
| `Pipeline.CandidatesRunOnlyResolved` | compression.py:23-40 | every mutation of a page's image loop, finished or not, is an insert or a redaction on that page, at the resolved rectangle of a listed xref; an xref with no rectangle causes no mutation |
| `Pipeline.NoCandidatesNoEffect` | compression.py:25-27 | an image list none of whose xrefs is resolved performs nothing and does not fail |
| `Pipeline.CandidatesRunComplete` | compression.py:23-40 | a finished image loop performs 2·k mutations for its k resolved xrefs, in list order; for each xref, one insert and then one white redaction, both at that xref's rectangle; the insert carries the xref's resource recompressed at the pass's quality |
| `Pipeline.CandidatesRunStops` | compression.py:29-40 | once an image raises, no later image of the list is processed |
| `Imaging.Halve` | compression.py:32-35 | the new size on each axis is at least 1 and equals n div 2 for n ≥ 2 (2r ≤ n < 2r + 2); it is at most n for n ≥ 1, strictly less for n ≥ 2, and a side of 1 stays 1 |
| `Pipeline.PageRunShape` | compression.py:23-41 | every mutation of page p acts on page p; a finished page ends with its single `apply_redactions`; no other mutation of the page is an `apply_redactions` |
| `Pipeline.PageWithoutPlacedImages` | compression.py:23-41 | a page whose listed images no block places gets no insert and no redaction, only `apply_redactions` |
| `Pipeline.SharedImageReplacedOnce` | compression.py:17-41 | a page listing one xref that several blocks paint, if it completes, gets exactly: an insert at the last block's bbox, a redaction there, then `apply_redactions` |
| `Pipeline.PagesRunStops` | compression.py:12-41 | once a page raises, no later page is visited |
| `Pipeline.PagesRunOrder` | compression.py:12-41 | over pages 0..n-1, every mutation is on a page below n, pages are visited in index order, and if all pages finish each page gets exactly one `apply_redactions`, after all its other mutations |
| `Pipeline.CompressOutcome` | compression.py:42-47 | the pass returns True exactly when open, every page, the save and the close complete; then the trace is the page mutations followed by one `Save(garbage 4, deflate, clean)` and then `Close`; `Close` occurs only on success; a failed pass contains a `Save` only when every page and the save completed and `close` raised |
| `Pipeline.FailedPageNoSave` | compression.py:12-47 | a page that raises, at any index, makes the pass return False with no `Save` and no `Close` in its mutations |
| `Fitz.Document.Open` | compression.py:11 | a successful `fitz.open` yields a document over the opened file with no mutation performed yet |
| `Fitz.Document.ExtractImage` | compression.py:29-30 | yields the resource's bytes exactly when the xref is an image resource of the document, and raises otherwise |
| `Imaging.Recompress` | compression.py:31-38 | defined by composing the codec's three stages: a replacement stream exists only when the RGB decode succeeded and the resize of the decoded raster to `(Halve(width), Halve(height))` succeeded, and it is then the JPEG encoding of that raster at exactly the pass's `image_quality`; a failed decode yields no stream |
| `Fitz.Document.InsertImage` | compression.py:39 | records `Insert(page, rect, stream)` unless the library raises, and changes nothing else |
| `Fitz.Document.AddRedactAnnot` | compression.py:40 | records a redaction with white fill `(1, 1, 1)` at the rectangle unless the library raises |
| `Fitz.Document.ApplyRedactions` | compression.py:41 | records `apply_redactions` for the page unless the library raises |
| `Fitz.Document.Save` | compression.py:42 | records one save with `garbage=4, deflate=True, clean=True` unless the library raises |
| `Fitz.Document.Close` | compression.py:43 | records the close unless the library raises |
| `Compression.ReplaceImage` | compression.py:29-40 | one resolved xref: the trace grows by exactly the mutations of `ImageRun`, and the result says whether it raised |
| `Compression.ReplaceImages` | compression.py:23-40 | the image loop: the trace grows by exactly `CandidatesRun`'s mutations, and the result is its outcome |
| `Compression.CompressPage` | compression.py:13-41 | one page: the trace grows by exactly `PageRun`'s mutations, and the result is its outcome |
| `Compression.CompressPdf` | compression.py:9-47 | the returned boolean and the mutations performed are those of `CompressRun` at the given quality (default 30) |
| `App.CompressPage` | app.py:16-44 | app.py's page body, with its block loop (app.py:19-24, type 1 only, last wins) and image loop (app.py:26-43, unresolved xrefs skipped, size rule, insert then redact) inline, grows the trace by exactly `PageRun`'s mutations |
| `App.CompressPdf` | app.py:12-51 | app.py's copy has the same contract as `Compression.CompressPdf`: on every input it returns the same boolean and performs the same mutations, in the same order |

## Left out

- PyMuPDF internals are not modelled: reading the content dump `get_text("dict")`, `get_images`, what `apply_redactions` erases, and how the compacting save rewrites the file. Pages, image lists and image resources are given values. Each mutation is one recorded call that may raise.
- Counting the pages with `len(doc)` and loading a page with `doc[page_num]` (compression.py:12-13, app.py:15-16) are assumed not to raise; the model cannot express a page that fails to load. Reading a page's image list or its block dump is assumed not to raise too. Likewise, `b["type"]`, `b["bbox"]` and `fitz.Rect(...)` are assumed not to raise. The model's failures are: open, extract, the three codec stages, and the five mutations.
- The model reads each page's blocks and image list from the opened document. It does not capture how mutating one page could change the listings of a later page.
- The model takes a block's `"image"` entry to be the xref the block paints, exactly as the code compares it with `get_images`' xrefs. The layout of PyMuPDF's dict output is not part of this model. PyMuPDF's documentation describes that entry as the image's bytes rather than an xref; if so, no block key ever equals a listed xref and the real program replaces no image. The model expresses that case as blocks whose key matches no listed xref (for example `ImageBlock(None, _)`), where `PageWithoutPlacedImages` and `NoCandidatesNoEffect` give a page only its `apply_redactions`.
- Rectangle coordinates are floating point. They are opaque values that are carried and compared, never computed with.
- PIL decoding, RGB conversion, Lanczos resampling and JPEG encoding use floating-point numerics. Only their success or failure and the requested size and quality are modelled. The model does not state that the resized image really has the requested size.
- A call that raises part way is recorded as not having happened. So a `save` that raises after writing part of the output leaves no `Save` in the trace.
- Console logging of the exception with `print` is I/O and is not modelled.
- The Tkinter GUI and its worker thread (compression.py:49-111) are UI and concurrency. The Flask route, upload storage and `send_file` (app.py:1-10, app.py:53-74) are I/O. None of them is modelled.

Where the system's specification and the code disagree, the model follows the code:

- A decode or encode failure of one image does not skip just that image; it aborts the whole pass, which returns False.
- The output is saved directly, not through a temporary file that is renamed.
- `close` is reached only on the success path. A `close` that raises after a completed save still makes the function return False.
- Within one image, the new image is inserted first and the redaction annotation is added after it (compression.py:39-40), not redaction then insertion.
- A degenerate or malformed bounding box is not skipped: the rectangle is used as given.

/**
 * compress_pdf of compression.py, as imperative code over a Document handle.
 * Each loop of the Python function is one method here; each method is proved
 * against the Pipeline function that specifies it.
 */
module Compression {
  import opened Common
  import opened Fitz
  import opened Imaging
  import opened Pipeline

  /** The block loop: image_rects[b["image"]] = Rect(b["bbox"]) for each block of type 1. */
  method ResolvePlacements(blocks: seq<Block>) returns (rects: map<Option<Xref>, Rect>)
    ensures rects == Resolve(blocks)
  {
    rects := map[];
    for i := 0 to |blocks|
      invariant rects == Resolve(blocks[..i])
    {
      var b := blocks[i];
      if b.ImageBlock? {
        rects := rects[b.image := b.bbox];
      }
      assert blocks[..i + 1][..i] == blocks[..i];
    }
    assert blocks[..|blocks|] == blocks;
  }

  /** The body of the image loop for one resolved xref: extract, recompress,
      insert at `rect`, then add the redaction annotation at `rect`. */
  method ReplaceImage(doc: Document, codec: Codec, p: nat, x: Xref, rect: Rect, quality: int)
    returns (ok: bool)
    modifies doc
    ensures doc.trace == old(doc.trace) + ImageRun(doc.file, codec, p, x, rect, quality).calls
    ensures ok == ImageRun(doc.file, codec, p, x, rect, quality).ok
  {
    var image := doc.ExtractImage(x);
    if image.None? {
      return false;
    }
    var stream := Recompress(codec, image.value, quality);
    if stream.None? {
      return false;
    }
    ok := doc.InsertImage(p, rect, stream.value);
    if !ok {
      return;
    }
    ok := doc.AddRedactAnnot(p, rect);
  }

  /** The image loop of page `p` over its image list `xs`, skipping xrefs without rectangle. */
  method ReplaceImages(doc: Document, codec: Codec, p: nat, rects: map<Option<Xref>, Rect>,
                       xs: seq<Xref>, quality: int) returns (ok: bool)
    modifies doc
    ensures doc.trace == old(doc.trace) + CandidatesRun(doc.file, codec, p, rects, xs, quality).calls
    ensures ok == CandidatesRun(doc.file, codec, p, rects, xs, quality).ok
  {
    for i := 0 to |xs|
      invariant doc.trace == old(doc.trace) + CandidatesRun(doc.file, codec, p, rects, xs[..i], quality).calls
      invariant CandidatesRun(doc.file, codec, p, rects, xs[..i], quality).ok
    {
      assert xs[..i + 1][..i] == xs[..i];
      var x := xs[i];
      if Some(x) !in rects {
        continue;
      }
      ok := ReplaceImage(doc, codec, p, x, rects[Some(x)], quality);
      if !ok {
        CandidatesRunStops(doc.file, codec, p, rects, xs, i + 1, quality);
        return;
      }
    }
    assert xs[..|xs|] == xs;
    ok := true;
  }

  /** One iteration of the page loop: read the image list, resolve placements, replace the
      candidates, then apply the page's redactions. */
  method CompressPage(doc: Document, codec: Codec, p: nat, quality: int) returns (ok: bool)
    requires p < |doc.file.pages|
    modifies doc
    ensures doc.trace == old(doc.trace) + PageRun(doc.file, codec, p, quality).calls
    ensures ok == PageRun(doc.file, codec, p, quality).ok
  {
    var page := doc.file.pages[p];
    var images := page.images;
    var rects := ResolvePlacements(page.blocks);
    ok := ReplaceImages(doc, codec, p, rects, images, quality);
    if !ok {
      return;
    }
    ok := doc.ApplyRedactions(p);
  }

  /** compress_pdf(input_path, output_path, image_quality=30). `input` is what fitz.open
      reads from input_path, None when it raises; `calls` are the document mutations
      performed, in order; `ok` is the returned boolean. */
  method CompressPdf(input: Option<PdfFile>, codec: Codec, quality: int := 30)
    returns (ok: bool, calls: seq<Call>)
    ensures Run(calls, ok) == CompressRun(input, codec, quality)
  {
    if input.None? {
      return false, [];
    }
    var doc := new Document.Open(input.value);
    for p := 0 to |doc.file.pages|
      invariant doc.trace == PagesRun(doc.file, codec, p, quality).calls
      invariant PagesRun(doc.file, codec, p, quality).ok
    {
      ok := CompressPage(doc, codec, p, quality);
      if !ok {
        PassRaisesOnPage(doc.file, codec, p, quality);
        return false, doc.trace;
      }
    }
    ok := doc.Save();
    if ok {
      ok := doc.Close();
    }
    calls := doc.trace;
  }
}

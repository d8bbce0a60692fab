/**
 * compress_pdf of app.py. Its text repeats compression.py's function; here the
 * body of its page loop is written out as the source has it, with the block
 * loop and the image loop inline, rather than split into one method per loop.
 * It meets the same specification as Compression.CompressPdf, so the two
 * copies return the same result and perform the same mutations on every input.
 */
module App {
  import opened Common
  import opened Fitz
  import opened Imaging
  import opened Pipeline

  /** One iteration of the page loop, with the block loop and the image loop inline. */
  method CompressPage(doc: Document, codec: Codec, p: nat, quality: int) returns (ok: bool)
    requires p < |doc.file.pages|
    modifies doc
    ensures doc.trace == old(doc.trace) + PageRun(doc.file, codec, p, quality).calls
    ensures ok == PageRun(doc.file, codec, p, quality).ok
  {
    ghost var f := doc.file;
    var page := doc.file.pages[p];
    var images := page.images;
    var rects: map<Option<Xref>, Rect> := map[];
    var blocks := page.blocks;
    for k := 0 to |blocks|
      invariant rects == Resolve(blocks[..k])
    {
      if blocks[k].ImageBlock? {
        rects := rects[blocks[k].image := blocks[k].bbox];
      }
      assert blocks[..k + 1][..k] == blocks[..k];
    }
    assert blocks[..|blocks|] == blocks;

    for i := 0 to |images|
      invariant doc.trace == old(doc.trace) + CandidatesRun(f, codec, p, rects, images[..i], quality).calls
      invariant CandidatesRun(f, codec, p, rects, images[..i], quality).ok
    {
      CandidatesStep(f, codec, p, rects, images, i, quality);
      var x := images[i];
      if Some(x) !in rects {
        continue;
      }
      var rect := rects[Some(x)];
      ghost var step := ImageRun(f, codec, p, x, rect, quality);
      ImageRunStages(f, codec, p, x, rect, quality);
      var image := doc.ExtractImage(x);
      var stream := if image.Some? then Recompress(codec, image.value, quality) else None;
      ok := stream.Some?;
      if ok {
        ok := doc.InsertImage(p, rect, stream.value);
      }
      if ok {
        ok := doc.AddRedactAnnot(p, rect);
      }
      assert step.ok == ok;
      assert doc.trace == old(doc.trace) + CandidatesRun(f, codec, p, rects, images[..i], quality).calls + step.calls;
      if !ok {
        PageRaisesInLoop(f, codec, p, i + 1, quality);
        return;
      }
    }
    assert images[..|images|] == images;
    ok := doc.ApplyRedactions(p);
  }

  /** compress_pdf(input_path, output_path, image_quality=30) of app.py. */
  method CompressPdf(input: Option<PdfFile>, codec: Codec, quality: int := 30)
    returns (ok: bool, calls: seq<Call>)
    ensures Run(calls, ok) == CompressRun(input, codec, quality)
  {
    if input.None? {
      return false, [];
    }
    var doc := new Document.Open(input.value);
    for p := 0 to |doc.file.pages|
      invariant doc.trace == PagesRun(doc.file, codec, p, quality).calls
      invariant PagesRun(doc.file, codec, p, quality).ok
    {
      ok := CompressPage(doc, codec, p, quality);
      if !ok {
        PassRaisesOnPage(doc.file, codec, p, quality);
        return false, doc.trace;
      }
    }
    ok := doc.Save();
    if ok {
      ok := doc.Close();
    }
    calls := doc.trace;
  }
}

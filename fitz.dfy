/**
 * The part of the PDF library (PyMuPDF) that compress_pdf talks to: the
 * content of an opened document as values, and the document handle as an
 * object whose mutations are recorded, in order, in an append-only trace.
 */
module Fitz {
  import opened Common

  /** A document-scoped object number; get_images reports it as the first entry of each tuple. */
  type Xref = nat

  /** A placement rectangle. Its coordinates are carried along and compared, never inspected. */
  datatype Rect = Rect(x0: real, y0: real, x1: real, y1: real)

  /** One block of a page's structured dump get_text("dict"): type 1 is an image
      block, type 0 a text block; any other kind is folded into OtherBlock.
      `image` is the block's "image" entry, None when the block has none. */
  datatype Block =
    | TextBlock
    | ImageBlock(image: Option<Xref>, bbox: Rect)
    | OtherBlock

  /** A page as compress_pdf reads it: its blocks in document order and the xrefs of
      its image resource list, in the order get_images(full=True) lists them. */
  datatype Page = Page(blocks: seq<Block>, images: seq<Xref>)

  /** The fill colour of a redaction annotation, each channel in [0, 1]. */
  datatype Rgb = Rgb(red: real, green: real, blue: real)

  const White := Rgb(1.0, 1.0, 1.0)

  /** The keyword arguments of the final save. */
  datatype SaveOptions = SaveOptions(garbage: nat, deflate: bool, clean: bool)

  const Compact := SaveOptions(4, true, true)

  /** A call that changes the document, as the trace records it once it has completed. */
  datatype Call =
    | Insert(page: nat, rect: Rect, stream: Bytes)
    | Redact(page: nat, rect: Rect, fill: Rgb)
    | Apply(page: nat)
    | Save(options: SaveOptions)
    | Close

  /** True of the calls that act on one page. */
  predicate IsPageCall(c: Call) {
    c.Insert? || c.Redact? || c.Apply?
  }

  /** What fitz.open yields for a readable input: the pages, the image resources
      that extract_image can return (xref to encoded bytes), and which mutations
      the library would raise on (a degenerate rectangle, a full disk, …). */
  datatype PdfFile = PdfFile(pages: seq<Page>, resources: map<Xref, Bytes>, raises: Call -> bool)

  /** An open document handle. */
  class Document {
    const file: PdfFile
    /** The mutations performed on this handle so far, oldest first. */
    var trace: seq<Call>

    constructor Open(f: PdfFile)
      ensures file == f && trace == []
    {
      file := f;
      trace := [];
    }

    /** extract_image(xref)["image"]: the resource's encoded bytes, None when it raises. */
    method ExtractImage(x: Xref) returns (image: Option<Bytes>)
      ensures image.Some? <==> x in file.resources
      ensures image.Some? ==> image.value == file.resources[x]
    {
      if x in file.resources {
        image := Some(file.resources[x]);
      } else {
        image := None;
      }
    }

    /** Performs `c`, unless the library raises on it; only a completed call is recorded. */
    method Perform(c: Call) returns (ok: bool)
      modifies this
      ensures ok == !file.raises(c)
      ensures trace == old(trace) + (if ok then [c] else [])
    {
      ok := !file.raises(c);
      if ok {
        trace := trace + [c];
      }
    }

    /** page.insert_image(rect, stream=stream) */
    method InsertImage(p: nat, rect: Rect, stream: Bytes) returns (ok: bool)
      modifies this
      ensures ok == !file.raises(Insert(p, rect, stream))
      ensures trace == old(trace) + (if ok then [Insert(p, rect, stream)] else [])
    {
      ok := Perform(Insert(p, rect, stream));
    }

    /** page.add_redact_annot(rect, fill=(1, 1, 1)) */
    method AddRedactAnnot(p: nat, rect: Rect) returns (ok: bool)
      modifies this
      ensures ok == !file.raises(Redact(p, rect, White))
      ensures trace == old(trace) + (if ok then [Redact(p, rect, White)] else [])
    {
      ok := Perform(Redact(p, rect, White));
    }

    /** page.apply_redactions() */
    method ApplyRedactions(p: nat) returns (ok: bool)
      modifies this
      ensures ok == !file.raises(Apply(p))
      ensures trace == old(trace) + (if ok then [Apply(p)] else [])
    {
      ok := Perform(Apply(p));
    }

    /** doc.save(output_path, garbage=4, deflate=True, clean=True) */
    method Save() returns (ok: bool)
      modifies this
      ensures ok == !file.raises(Call.Save(Compact))
      ensures trace == old(trace) + (if ok then [Call.Save(Compact)] else [])
    {
      ok := Perform(Call.Save(Compact));
    }

    /** doc.close() */
    method Close() returns (ok: bool)
      modifies this
      ensures ok == !file.raises(Call.Close)
      ensures trace == old(trace) + (if ok then [Call.Close] else [])
    {
      ok := Perform(Call.Close);
    }
  }
}

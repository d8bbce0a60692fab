/**
 * The specification of one compress_pdf pass, as functions of the opened
 * document, the codec and the JPEG quality, together with the properties the
 * pass promises: which blocks place which image, which images are replaced,
 * the order of the document mutations, and when the pass reports success.
 */
module Pipeline {
  import opened Common
  import opened Fitz
  import opened Imaging

  /** What a (partial) pass did: the mutations that completed, in order, and
      whether it ran to the end without an exception. */
  datatype Run = Run(calls: seq<Call>, ok: bool)

  const Done := Run([], true)
  const Raised := Run([], false)

  /** `a` followed by `b`; an exception in `a` ends the run there. */
  function Then(a: Run, b: Run): Run {
    if a.ok then Run(a.calls + b.calls, b.ok) else a
  }

  /** One mutation of the document. */
  function Attempt(f: PdfFile, c: Call): Run {
    if f.raises(c) then Raised else Run([c], true)
  }

  // ---------------------------------------------------------------
  // Placement resolver
  // ---------------------------------------------------------------

  /** Block `b` is an image block whose "image" entry is `key`. */
  predicate Paints(b: Block, key: Option<Xref>) {
    b.ImageBlock? && b.image == key
  }

  /** The map image_rects after the block loop: for every image block, in block
      order, image_rects[block.image] = block.bbox. */
  function Resolve(blocks: seq<Block>): map<Option<Xref>, Rect>
    decreases |blocks|
  {
    if blocks == [] then map[]
    else
      var b := blocks[|blocks| - 1];
      var m := Resolve(blocks[..|blocks| - 1]);
      if b.ImageBlock? then m[b.image := b.bbox] else m
  }

  /** The keys of the resolved map are exactly the "image" entries of the image blocks. */
  lemma {:induction false} ResolveDomain(blocks: seq<Block>, key: Option<Xref>)
    ensures key in Resolve(blocks) <==> exists i :: 0 <= i < |blocks| && Paints(blocks[i], key)
  {
    if blocks != [] {
      var n := |blocks| - 1;
      var front := blocks[..n];
      ResolveDomain(front, key);
      if key in Resolve(blocks) && !Paints(blocks[n], key) {
        var i :| 0 <= i < |front| && Paints(front[i], key);
        assert Paints(blocks[i], key);
      }
      if exists i :: 0 <= i < |blocks| && Paints(blocks[i], key) {
        var i :| 0 <= i < |blocks| && Paints(blocks[i], key);
        if i < n {
          assert Paints(front[i], key);
        }
      }
    }
  }

  /** Last occurrence wins: the rectangle recorded for a key is the bbox of the
      last image block with that key. */
  lemma {:induction false} ResolveLastWins(blocks: seq<Block>, key: Option<Xref>, i: nat)
    requires i < |blocks| && Paints(blocks[i], key)
    requires forall j :: i < j < |blocks| ==> !Paints(blocks[j], key)
    ensures key in Resolve(blocks) && Resolve(blocks)[key] == blocks[i].bbox
  {
    var n := |blocks| - 1;
    if i < n {
      var front := blocks[..n];
      assert !Paints(blocks[n], key);
      forall j | i < j < |front| ensures !Paints(front[j], key) {
        assert front[j] == blocks[j];
      }
      ResolveLastWins(front, key, i);
    }
  }

  // ---------------------------------------------------------------
  // Candidate filter and per-image replacement
  // ---------------------------------------------------------------

  /** The xrefs of `xs`, in order, that have a resolved rectangle: the images replaced. */
  function Candidates(rects: map<Option<Xref>, Rect>, xs: seq<Xref>): seq<Xref>
    decreases |xs|
  {
    if xs == [] then []
    else
      var x := xs[|xs| - 1];
      var front := Candidates(rects, xs[..|xs| - 1]);
      if Some(x) in rects then front + [x] else front
  }

  /** Extract, recompress, insert at `rect`, then redact `rect`, for one candidate. */
  function ImageRun(f: PdfFile, codec: Codec, p: nat, x: Xref, rect: Rect, quality: int): Run {
    if x !in f.resources then Raised
    else
      match Recompress(codec, f.resources[x], quality)
      case None => Raised
      case Some(s) => Then(Attempt(f, Insert(p, rect, s)), Attempt(f, Redact(p, rect, White)))
  }

  /** The outcomes of one replacement, stage by stage: extraction or recompression
      raising performs nothing; otherwise the insert, then the redaction, each completes
      unless it raises. */
  lemma ImageRunStages(f: PdfFile, codec: Codec, p: nat, x: Xref, rect: Rect, quality: int)
    ensures var r := ImageRun(f, codec, p, x, rect, quality);
      if x !in f.resources || Recompress(codec, f.resources[x], quality).None? then r == Raised
      else
        var ins := Insert(p, rect, Recompress(codec, f.resources[x], quality).value);
        var red := Redact(p, rect, White);
        r == if f.raises(ins) then Raised
             else if f.raises(red) then Run([ins], false)
             else Run([ins, red], true)
  {
  }

  /** The image loop of page `p` over the image list `xs`: unresolved xrefs are skipped. */
  function CandidatesRun(f: PdfFile, codec: Codec, p: nat, rects: map<Option<Xref>, Rect>,
                         xs: seq<Xref>, quality: int): Run
    decreases |xs|
  {
    if xs == [] then Done
    else
      var x := xs[|xs| - 1];
      var front := CandidatesRun(f, codec, p, rects, xs[..|xs| - 1], quality);
      if Some(x) in rects then Then(front, ImageRun(f, codec, p, x, rects[Some(x)], quality))
      else front
  }

  /** `ins` and `red` are the insert and the redaction that replace image `x` on page `p`:
      both at x's resolved rectangle, the insert carrying x's resource recompressed at `quality`. */
  ghost predicate Replaces(f: PdfFile, codec: Codec, p: nat, rects: map<Option<Xref>, Rect>,
                           quality: int, x: Xref, ins: Call, red: Call)
  {
    && Some(x) in rects
    && x in f.resources
    && Recompress(codec, f.resources[x], quality).Some?
    && ins == Insert(p, rects[Some(x)], Recompress(codec, f.resources[x], quality).value)
    && red == Redact(p, rects[Some(x)], White)
  }

  /** Call `c` is an insert or a redaction on page `p` at the resolved rectangle of
      some xref of `xs`. */
  ghost predicate AtCandidate(c: Call, p: nat, rects: map<Option<Xref>, Rect>, xs: seq<Xref>) {
    (c.Insert? || c.Redact?) && c.page == p &&
    exists x :: x in xs && Some(x) in rects && rects[Some(x)] == c.rect
  }

  ghost predicate AllAtCandidates(calls: seq<Call>, p: nat, rects: map<Option<Xref>, Rect>, xs: seq<Xref>) {
    forall i :: 0 <= i < |calls| ==> AtCandidate(calls[i], p, rects, xs)
  }

  /** A whole image loop that completed performs, for each candidate in order, exactly
      one insert followed by one redaction at the same rectangle, and nothing else. */
  lemma {:induction false} CandidatesRunComplete(f: PdfFile, codec: Codec, p: nat,
                                                 rects: map<Option<Xref>, Rect>, xs: seq<Xref>, quality: int)
    ensures var r := CandidatesRun(f, codec, p, rects, xs, quality);
      var cs := Candidates(rects, xs);
      r.ok ==> (&& |r.calls| == 2 * |cs|
                && forall k :: 0 <= k < |cs| ==>
                     Replaces(f, codec, p, rects, quality, cs[k], r.calls[2 * k], r.calls[2 * k + 1]))
  {
    if xs != [] {
      var n := |xs| - 1;
      var x := xs[n];
      CandidatesRunComplete(f, codec, p, rects, xs[..n], quality);
      var front := CandidatesRun(f, codec, p, rects, xs[..n], quality);
      var fcs := Candidates(rects, xs[..n]);
      var r := CandidatesRun(f, codec, p, rects, xs, quality);
      var cs := Candidates(rects, xs);
      if r.ok && Some(x) in rects {
        var img := ImageRun(f, codec, p, x, rects[Some(x)], quality);
        assert front.ok && r.calls == front.calls + img.calls && img.ok;
        assert cs == fcs + [x];
        assert |img.calls| == 2;
        assert Replaces(f, codec, p, rects, quality, x, img.calls[0], img.calls[1]);
        forall k | 0 <= k < |cs|
          ensures Replaces(f, codec, p, rects, quality, cs[k], r.calls[2 * k], r.calls[2 * k + 1])
        {
          if k < |fcs| {
            assert cs[k] == fcs[k];
            assert r.calls[2 * k] == front.calls[2 * k] && r.calls[2 * k + 1] == front.calls[2 * k + 1];
          } else {
            assert k == |fcs| && cs[k] == x;
            assert r.calls[2 * k] == img.calls[0] && r.calls[2 * k + 1] == img.calls[1];
          }
        }
      }
    }
  }

  /** Every mutation of an image loop, completed or not, is an insert or a redaction on
      page `p` at the rectangle of a resolved xref of the image list: an xref without a
      rectangle causes no mutation. */
  lemma {:induction false} CandidatesRunOnlyResolved(f: PdfFile, codec: Codec, p: nat,
                                                     rects: map<Option<Xref>, Rect>, xs: seq<Xref>, quality: int)
    ensures AllAtCandidates(CandidatesRun(f, codec, p, rects, xs, quality).calls, p, rects, xs)
  {
    if xs != [] {
      var n := |xs| - 1;
      var x := xs[n];
      var front := CandidatesRun(f, codec, p, rects, xs[..n], quality);
      var r := CandidatesRun(f, codec, p, rects, xs, quality);
      CandidatesRunOnlyResolved(f, codec, p, rects, xs[..n], quality);
      forall i | 0 <= i < |front.calls| ensures AtCandidate(front.calls[i], p, rects, xs) {
        assert AtCandidate(front.calls[i], p, rects, xs[..n]);
        var y :| y in xs[..n] && Some(y) in rects && rects[Some(y)] == front.calls[i].rect;
        assert y in xs;
      }
      if Some(x) in rects && front.ok {
        var img := ImageRun(f, codec, p, x, rects[Some(x)], quality);
        assert r.calls == front.calls + img.calls;
        assert x in xs;
        forall i | 0 <= i < |img.calls| ensures AtCandidate(img.calls[i], p, rects, xs) {
          assert img.calls[i].rect == rects[Some(x)];
        }
        forall i | 0 <= i < |r.calls| ensures AtCandidate(r.calls[i], p, rects, xs) {
          if i < |front.calls| {
            assert r.calls[i] == front.calls[i];
          } else {
            assert r.calls[i] == img.calls[i - |front.calls|];
          }
        }
      } else {
        assert r == front;
      }
    }
  }

  /** An image list none of whose xrefs is resolved leaves the page untouched. */
  lemma {:induction false} NoCandidatesNoEffect(f: PdfFile, codec: Codec, p: nat,
                                                rects: map<Option<Xref>, Rect>, xs: seq<Xref>, quality: int)
    requires forall i :: 0 <= i < |xs| ==> Some(xs[i]) !in rects
    ensures CandidatesRun(f, codec, p, rects, xs, quality) == Done
  {
    if xs != [] {
      NoCandidatesNoEffect(f, codec, p, rects, xs[..|xs| - 1], quality);
    }
  }

  /** Once the image loop has raised at some prefix of the list, the rest of the list changes nothing. */
  lemma {:induction false} CandidatesRunStops(f: PdfFile, codec: Codec, p: nat,
                                              rects: map<Option<Xref>, Rect>, xs: seq<Xref>, k: nat, quality: int)
    requires k <= |xs| && !CandidatesRun(f, codec, p, rects, xs[..k], quality).ok
    ensures CandidatesRun(f, codec, p, rects, xs, quality) == CandidatesRun(f, codec, p, rects, xs[..k], quality)
    decreases |xs| - k
  {
    if k < |xs| {
      var n := |xs| - 1;
      assert xs[..n][..k] == xs[..k];
      CandidatesRunStops(f, codec, p, rects, xs[..n], k, quality);
    } else {
      assert xs[..k] == xs;
    }
  }

  // ---------------------------------------------------------------
  // Pages and the whole pass
  // ---------------------------------------------------------------

  /** Page `p`: resolve, run the image loop, then apply the page's redactions once. */
  function PageRun(f: PdfFile, codec: Codec, p: nat, quality: int): Run
    requires p < |f.pages|
  {
    var page := f.pages[p];
    Then(CandidatesRun(f, codec, p, Resolve(page.blocks), page.images, quality), Attempt(f, Apply(p)))
  }

  /** A page none of whose listed images is placed by a block gets no insert and no
      redaction: its only mutation is the apply_redactions call. */
  lemma PageWithoutPlacedImages(f: PdfFile, codec: Codec, p: nat, quality: int)
    requires p < |f.pages|
    requires forall i :: 0 <= i < |f.pages[p].images| ==> Some(f.pages[p].images[i]) !in Resolve(f.pages[p].blocks)
    ensures PageRun(f, codec, p, quality) == Attempt(f, Apply(p))
  {
    NoCandidatesNoEffect(f, codec, p, Resolve(f.pages[p].blocks), f.pages[p].images, quality);
  }

  /** A page listing one image x that several blocks may paint: when the page completes,
      x is replaced once, at the bbox of the last block painting it, and then the page's
      redactions are applied. */
  lemma SharedImageReplacedOnce(f: PdfFile, codec: Codec, p: nat, quality: int, x: Xref, last: nat)
    requires p < |f.pages| && f.pages[p].images == [x]
    requires last < |f.pages[p].blocks| && Paints(f.pages[p].blocks[last], Some(x))
    requires forall j :: last < j < |f.pages[p].blocks| ==> !Paints(f.pages[p].blocks[j], Some(x))
    requires PageRun(f, codec, p, quality).ok
    ensures x in f.resources && Recompress(codec, f.resources[x], quality).Some?
    ensures var rect := f.pages[p].blocks[last].bbox;
      PageRun(f, codec, p, quality).calls ==
        [Insert(p, rect, Recompress(codec, f.resources[x], quality).value), Redact(p, rect, White), Apply(p)]
  {
    var page := f.pages[p];
    var rects := Resolve(page.blocks);
    ResolveLastWins(page.blocks, Some(x), last);
    assert page.images[..|page.images| - 1] == [];
    assert CandidatesRun(f, codec, p, rects, [], quality) == Done;
    var loop := CandidatesRun(f, codec, p, rects, page.images, quality);
    assert loop == Then(Done, ImageRun(f, codec, p, x, page.blocks[last].bbox, quality));
    ImageRunStages(f, codec, p, x, page.blocks[last].bbox, quality);
  }

  /** Pages 0 .. n-1 in index order. */
  function PagesRun(f: PdfFile, codec: Codec, n: nat, quality: int): Run
    requires n <= |f.pages|
  {
    if n == 0 then Done else Then(PagesRun(f, codec, n - 1, quality), PageRun(f, codec, n - 1, quality))
  }

  /** A whole compress_pdf call on an input that fitz.open reads as `input` (None: open raised). */
  function CompressRun(input: Option<PdfFile>, codec: Codec, quality: int): Run {
    match input
    case None => Raised
    case Some(f) =>
      Then(Then(PagesRun(f, codec, |f.pages|, quality), Attempt(f, Save(Compact))), Attempt(f, Close))
  }

  /** Once the page loop has raised at page k-1, later pages change nothing. */
  lemma {:induction false} PagesRunStops(f: PdfFile, codec: Codec, n: nat, k: nat, quality: int)
    requires k <= n <= |f.pages| && !PagesRun(f, codec, k, quality).ok
    ensures PagesRun(f, codec, n, quality) == PagesRun(f, codec, k, quality)
    decreases n - k
  {
    if k < n {
      PagesRunStops(f, codec, n - 1, k, quality);
    }
  }

  /** One more entry of the image list. */
  lemma CandidatesStep(f: PdfFile, codec: Codec, p: nat, rects: map<Option<Xref>, Rect>,
                       xs: seq<Xref>, i: nat, quality: int)
    requires i < |xs|
    ensures CandidatesRun(f, codec, p, rects, xs[..i + 1], quality) ==
            if Some(xs[i]) in rects
            then Then(CandidatesRun(f, codec, p, rects, xs[..i], quality), ImageRun(f, codec, p, xs[i], rects[Some(xs[i])], quality))
            else CandidatesRun(f, codec, p, rects, xs[..i], quality)
  {
    assert xs[..i + 1][..i] == xs[..i];
  }

  /** A pass whose page loop first raises on page p ends with the mutations of pages
      0 .. p-1 and those page p completed. */
  lemma PassRaisesOnPage(f: PdfFile, codec: Codec, p: nat, quality: int)
    requires p < |f.pages| && PagesRun(f, codec, p, quality).ok && !PageRun(f, codec, p, quality).ok
    ensures CompressRun(Some(f), codec, quality) ==
            Run(PagesRun(f, codec, p, quality).calls + PageRun(f, codec, p, quality).calls, false)
  {
    PagesRunStops(f, codec, |f.pages|, p + 1, quality);
  }

  /** The image loop of page p raising at its k-th image is page p raising there. */
  lemma PageRaisesInLoop(f: PdfFile, codec: Codec, p: nat, k: nat, quality: int)
    requires p < |f.pages| && k <= |f.pages[p].images|
    requires !CandidatesRun(f, codec, p, Resolve(f.pages[p].blocks), f.pages[p].images[..k], quality).ok
    ensures PageRun(f, codec, p, quality) ==
            CandidatesRun(f, codec, p, Resolve(f.pages[p].blocks), f.pages[p].images[..k], quality)
  {
    CandidatesRunStops(f, codec, p, Resolve(f.pages[p].blocks), f.pages[p].images, k, quality);
  }

  /** Every mutation of page `p` acts on page `p`; a page that completes ends with its one
      apply_redactions, and no other mutation of the page is an apply_redactions. */
  lemma PageRunShape(f: PdfFile, codec: Codec, p: nat, quality: int)
    requires p < |f.pages|
    ensures var r := PageRun(f, codec, p, quality);
      && (forall i :: 0 <= i < |r.calls| ==> IsPageCall(r.calls[i]) && r.calls[i].page == p)
      && (r.ok ==> |r.calls| >= 1 && r.calls[|r.calls| - 1] == Apply(p))
      && (forall i :: 0 <= i < |r.calls| && r.calls[i].Apply? ==> r.ok && i == |r.calls| - 1)
  {
    var page := f.pages[p];
    var rects := Resolve(page.blocks);
    var img := CandidatesRun(f, codec, p, rects, page.images, quality);
    CandidatesRunOnlyResolved(f, codec, p, rects, page.images, quality);
    var r := PageRun(f, codec, p, quality);
    forall i | 0 <= i < |r.calls|
      ensures IsPageCall(r.calls[i]) && r.calls[i].page == p
      ensures r.calls[i].Apply? ==> r.ok && i == |r.calls| - 1
    {
      if i < |img.calls| {
        assert r.calls[i] == img.calls[i];
        assert AtCandidate(img.calls[i], p, rects, page.images);
      }
    }
  }

  /** Page order and redaction batching over pages 0 .. n-1: every mutation acts on a page
      below n, pages are visited in index order, and when all n pages complete each page has
      exactly one apply_redactions, after every other mutation of that page. */
  lemma {:induction false} PagesRunOrder(f: PdfFile, codec: Codec, n: nat, quality: int)
    requires n <= |f.pages|
    ensures var r := PagesRun(f, codec, n, quality);
      && (forall i :: 0 <= i < |r.calls| ==> IsPageCall(r.calls[i]) && r.calls[i].page < n)
      && (forall i, j :: 0 <= i < j < |r.calls| ==> r.calls[i].page <= r.calls[j].page)
      && (r.ok ==> forall p :: 0 <= p < n ==> AppliedOnceLast(r.calls, p))
  {
    if n > 0 {
      PagesRunOrder(f, codec, n - 1, quality);
      PageRunShape(f, codec, n - 1, quality);
      var a := PagesRun(f, codec, n - 1, quality);
      var b := PageRun(f, codec, n - 1, quality);
      var r := PagesRun(f, codec, n, quality);
      if a.ok {
        assert r.calls == a.calls + b.calls;
        forall i, j | 0 <= i < j < |r.calls| ensures r.calls[i].page <= r.calls[j].page {
          if j < |a.calls| {
            assert r.calls[i] == a.calls[i] && r.calls[j] == a.calls[j];
          } else if i < |a.calls| {
            assert r.calls[i] == a.calls[i] && r.calls[j] == b.calls[j - |a.calls|];
          } else {
            assert r.calls[i] == b.calls[i - |a.calls|] && r.calls[j] == b.calls[j - |a.calls|];
          }
        }
        if r.ok {
          forall p | 0 <= p < n ensures AppliedOnceLast(r.calls, p) {
            AppendKeepsApplied(a.calls, b.calls, p, n - 1);
          }
        }
      }
    }
  }

  /** `calls` holds apply_redactions(p) at exactly one position, and every other call on
      page p comes before it. */
  ghost predicate AppliedOnceLast(calls: seq<Call>, p: nat) {
    exists i :: 0 <= i < |calls| && calls[i] == Apply(p) &&
      forall j :: 0 <= j < |calls| && j != i && IsPageCall(calls[j]) && calls[j].page == p ==>
        j < i && !calls[j].Apply?
  }

  /** Appending the mutations of page q (a completed page) to those of pages below q. */
  lemma AppendKeepsApplied(a: seq<Call>, b: seq<Call>, p: nat, q: nat)
    requires forall i :: 0 <= i < |a| ==> IsPageCall(a[i]) && a[i].page < q
    requires forall i :: 0 <= i < |b| ==> IsPageCall(b[i]) && b[i].page == q
    requires |b| >= 1 && b[|b| - 1] == Apply(q)
    requires forall i :: 0 <= i < |b| && b[i].Apply? ==> i == |b| - 1
    requires p < q ==> AppliedOnceLast(a, p)
    requires p <= q
    ensures AppliedOnceLast(a + b, p)
  {
    var c := a + b;
    forall j | 0 <= j < |a| ensures c[j] == a[j] { }
    forall j | |a| <= j < |c| ensures c[j] == b[j - |a|] { }
    if p < q {
      var i :| 0 <= i < |a| && a[i] == Apply(p) &&
        forall j :: 0 <= j < |a| && j != i && IsPageCall(a[j]) && a[j].page == p ==> j < i && !a[j].Apply?;
      assert c[i] == Apply(p);
    } else {
      assert c[|c| - 1] == Apply(p);
    }
  }

  /** The outcome of a pass: it succeeds exactly when open and every page, the save and the
      close complete; a successful pass is its page mutations followed by one compacting save
      and the close; a failed pass reaches no close, and it has saved only when every page and the save
      completed and the close itself raised. */
  lemma CompressOutcome(input: Option<PdfFile>, codec: Codec, quality: int)
    ensures var r := CompressRun(input, codec, quality);
      && (r.ok <==> input.Some? && PagesRun(input.value, codec, |input.value.pages|, quality).ok &&
                    !input.value.raises(Save(Compact)) && !input.value.raises(Close))
      && (r.ok ==> r.calls == PagesRun(input.value, codec, |input.value.pages|, quality).calls + [Save(Compact), Close])
      && (forall i :: 0 <= i < |r.calls| && r.calls[i].Save? ==>
            r.calls[i] == Save(Compact) && ((i == |r.calls| - 2 && r.ok) || (i == |r.calls| - 1 && !r.ok)))
      && (forall i :: 0 <= i < |r.calls| && r.calls[i].Close? ==> r.ok && i == |r.calls| - 1)
      && (!r.ok && Save(Compact) in r.calls ==>
            input.Some? && PagesRun(input.value, codec, |input.value.pages|, quality).ok &&
            !input.value.raises(Save(Compact)) && input.value.raises(Close))
  {
    if input.Some? {
      var f := input.value;
      var pages := PagesRun(f, codec, |f.pages|, quality);
      PagesRunOrder(f, codec, |f.pages|, quality);
      var r := CompressRun(input, codec, quality);
      if pages.ok {
        forall i | 0 <= i < |pages.calls| ensures r.calls[i] == pages.calls[i] { }
      } else {
        assert r == pages;
      }
    }
  }

  /** A page that raises, wherever it lies, makes the pass return False with neither a save
      nor a close. */
  lemma FailedPageNoSave(f: PdfFile, codec: Codec, p: nat, quality: int)
    requires p < |f.pages| && !PageRun(f, codec, p, quality).ok
    ensures var r := CompressRun(Some(f), codec, quality);
      !r.ok && Save(Compact) !in r.calls && Close !in r.calls
  {
    PagesRunStops(f, codec, |f.pages|, p + 1, quality);
    CompressOutcome(Some(f), codec, quality);
  }
}

/**
 * The HTML-to-PDF report generator: it converts every damage image that has
 * a file (skipping the ones whose conversion fails), lists each damage with
 * its own images, and then draws the report block by block onto pages,
 * keeping a cursor (`currentY`, `currentPage`) and starting a new page when
 * a block would run past the bottom margin.
 */
module HtmlPdf {
  import opened Wrappers
  import opened Types
  import ReactPdf

  // Image collection.

  /** Image `k` of the damage has a file and its conversion succeeded. */
  predicate ConvertsAt(d: DamageDetail, convert: FileRef -> Option<string>, k: int) {
    0 <= k < |d.images| && d.images[k].file.Some? && convert(d.images[k].file.value).Some?
  }

  /** The processed record of image `k` of the damage. */
  function ProcessedAt(d: DamageDetail, convert: FileRef -> Option<string>, k: int): ProcessedImage
    requires ConvertsAt(d, convert, k)
  {
    ProcessedImage(d.images[k].id, d.id, convert(d.images[k].file.value).value)
  }

  /** The processed images of the first `n` images of a damage. */
  function ConvertedUpTo(d: DamageDetail, convert: FileRef -> Option<string>, n: nat): (r: seq<ProcessedImage>)
    requires n <= |d.images|
    ensures |r| <= n
    ensures forall k :: 0 <= k < |r| ==> r[k].damageId == d.id
  {
    if n == 0 then []
    else
      var before := ConvertedUpTo(d, convert, n - 1);
      if ConvertsAt(d, convert, n - 1) then before + [ProcessedAt(d, convert, n - 1)] else before
  }

  /** The first `n` images of a damage yield exactly the processed records of those among them that have a file and convert. */
  lemma {:induction false} ConvertedUpToMembers(d: DamageDetail, convert: FileRef -> Option<string>, n: nat)
    requires n <= |d.images|
    ensures forall p :: p in ConvertedUpTo(d, convert, n) <==>
      exists k :: 0 <= k < n && ConvertsAt(d, convert, k) && p == ProcessedAt(d, convert, k)
  {
    if n > 0 {
      ConvertedUpToMembers(d, convert, n - 1);
    }
  }

  /** The processed images of a damage: its images that have a file and convert, in order. */
  function Converted(d: DamageDetail, convert: FileRef -> Option<string>): seq<ProcessedImage> {
    ConvertedUpTo(d, convert, |d.images|)
  }

  /** The processed images of the first `n` damages, damage after damage. */
  function CollectedUpTo(ds: seq<DamageDetail>, convert: FileRef -> Option<string>, n: nat): seq<ProcessedImage>
    requires n <= |ds|
  {
    if n == 0 then [] else CollectedUpTo(ds, convert, n - 1) + Converted(ds[n - 1], convert)
  }

  function Collected(ds: seq<DamageDetail>, convert: FileRef -> Option<string>): seq<ProcessedImage> {
    CollectedUpTo(ds, convert, |ds|)
  }

  /**
   * The collection loop: every image with a file is converted by `convert`
   * (`None` is a conversion that threw, which is skipped) and the successes
   * are pushed in damage order, then image order.
   */
  method CollectImages(damages: seq<DamageDetail>, convert: FileRef -> Option<string>) returns (processed: seq<ProcessedImage>)
    ensures processed == Collected(damages, convert)
  {
    processed := [];
    for i := 0 to |damages|
      invariant processed == CollectedUpTo(damages, convert, i)
    {
      var damage := damages[i];
      if |damage.images| > 0 {
        for j := 0 to |damage.images|
          invariant processed == CollectedUpTo(damages, convert, i) + ConvertedUpTo(damage, convert, j)
        {
          var img := damage.images[j];
          if img.file.Some? {
            var result := convert(img.file.value);
            if result.Some? {
              processed := processed + [ProcessedImage(img.id, damage.id, result.value)];
            }
          }
        }
      }
    }
  }

  /** Every image of damage `n` or later that converts is left out of the first `n` damages' images. */
  lemma {:induction false} CollectedUpToOf(ds: seq<DamageDetail>, convert: FileRef -> Option<string>, n: nat, i: nat)
    requires n <= |ds| && i < |ds| && DistinctIds(ds)
    ensures ImagesOf(CollectedUpTo(ds, convert, n), ds[i].id) == if i < n then Converted(ds[i], convert) else []
  {
    if n > 0 {
      CollectedUpToOf(ds, convert, n - 1, i);
      if i != n - 1 {
        assert ds[n - 1].id != ds[i].id;
      }
      CollectedUpToStep(ds, convert, n, ds[i].id);
    }
  }

  /** Damage `n - 1` adds its converted images to the selection of its own id, and nothing to any other id's. */
  lemma CollectedUpToStep(ds: seq<DamageDetail>, convert: FileRef -> Option<string>, n: nat, id: string)
    requires 0 < n <= |ds|
    ensures ImagesOf(CollectedUpTo(ds, convert, n), id) ==
      ImagesOf(CollectedUpTo(ds, convert, n - 1), id) + if ds[n - 1].id == id then Converted(ds[n - 1], convert) else []
  {
    var before := CollectedUpTo(ds, convert, n - 1);
    var mine := Converted(ds[n - 1], convert);
    assert CollectedUpTo(ds, convert, n) == before + mine;
    ImagesOfStep(before, mine, ds[n - 1].id, id);
  }

  /**
   * Each damage item shows all of its own processed images, in order, and no
   * other damage's (damage ids are distinct).
   */
  lemma EachDamageShowsOwnImages(ds: seq<DamageDetail>, convert: FileRef -> Option<string>, i: nat)
    requires i < |ds| && DistinctIds(ds)
    ensures ImagesOf(Collected(ds, convert), ds[i].id) == Converted(ds[i], convert)
  {
    CollectedUpToOf(ds, convert, |ds|, i);
  }

  // Page breaks.

  /** Page geometry in millimetres: an A4 page and the generator's margins. */
  const PageHeight: int := 297
  const TopMargin: int := 12
  const BottomMargin: int := 15
  /** The lowest point a block may reach. */
  const PageBottom: int := PageHeight - BottomMargin
  /** The height available on an empty page. */
  const UsableHeight: int := PageBottom - TopMargin

  /** One `addImage` call: the page, the top edge and the height of the block drawn. */
  datatype Placement = Placement(page: nat, y: int, height: nat)

  /** The generator's running state, `currentY` and `currentPage`, and the blocks drawn so far. */
  datatype Cursor = Cursor(y: int, page: nat, placed: seq<Placement>)

  /** `addPage`: one more page, the cursor back at the top margin. */
  function NewPage(c: Cursor): Cursor {
    c.(y := TopMargin, page := c.page + 1)
  }

  /** A new page if a block of height `h` would run past the bottom margin. */
  function FitOrBreak(c: Cursor, h: nat): Cursor {
    if c.y + h > PageBottom then NewPage(c) else c
  }

  function Draw(c: Cursor, h: nat): Cursor {
    c.(placed := c.placed + [Placement(c.page, c.y, h)])
  }

  /** A checked block: break if needed, draw, move the cursor below it. */
  function PlaceBlock(c: Cursor, h: nat): Cursor {
    var d := Draw(FitOrBreak(c, h), h);
    d.(y := d.y + h)
  }

  /** Damage `i`: every damage after the first starts a new page, then is placed as a checked block. */
  function DamageStep(c: Cursor, i: nat, h: nat): Cursor {
    PlaceBlock(if i > 0 then NewPage(c) else c, h)
  }

  /** The cursor after the damages of heights `hs`. */
  function AfterDamages(c: Cursor, hs: seq<nat>): Cursor
    decreases |hs|
  {
    if |hs| == 0 then c else DamageStep(AfterDamages(c, hs[..|hs| - 1]), |hs| - 1, hs[|hs| - 1])
  }

  /** The header block, drawn at the top of page 1 without a check. */
  function Start(headerHeight: nat): Cursor {
    Cursor(TopMargin + headerHeight, 1, [Placement(1, TopMargin, headerHeight)])
  }

  /** The whole report: header, section title, damages, then the signature block (checked, the cursor not moved after it). */
  function Layout(headerHeight: nat, sectionHeight: nat, damageHeights: seq<nat>, signatureHeight: nat): Cursor {
    var c := AfterDamages(PlaceBlock(Start(headerHeight), sectionHeight), damageHeights);
    Draw(FitOrBreak(c, signatureHeight), signatureHeight)
  }

  /**
   * The drawing part of the generator, with the canvas heights given: it
   * returns the blocks drawn and the final page count.
   */
  method PaginateReport(headerHeight: nat, sectionHeight: nat, damageHeights: seq<nat>, signatureHeight: nat)
    returns (placed: seq<Placement>, currentPage: nat)
    ensures placed == Layout(headerHeight, sectionHeight, damageHeights, signatureHeight).placed
    ensures currentPage == Layout(headerHeight, sectionHeight, damageHeights, signatureHeight).page
  {
    placed := [Placement(1, TopMargin, headerHeight)];
    var currentY := TopMargin + headerHeight;
    currentPage := 1;
    if currentY + sectionHeight > PageBottom {
      currentPage := currentPage + 1;
      currentY := TopMargin;
    }
    placed := placed + [Placement(currentPage, currentY, sectionHeight)];
    currentY := currentY + sectionHeight;
    ghost var afterSection := Cursor(currentY, currentPage, placed);
    for i := 0 to |damageHeights|
      invariant Cursor(currentY, currentPage, placed) == AfterDamages(afterSection, damageHeights[..i])
    {
      if i > 0 {
        currentPage := currentPage + 1;
        currentY := TopMargin;
      }
      var h := damageHeights[i];
      if currentY + h > PageBottom {
        currentPage := currentPage + 1;
        currentY := TopMargin;
      }
      placed := placed + [Placement(currentPage, currentY, h)];
      currentY := currentY + h;
      assert damageHeights[..i + 1][..i] == damageHeights[..i];
    }
    assert damageHeights[..|damageHeights|] == damageHeights;
    if currentY + signatureHeight > PageBottom {
      currentPage := currentPage + 1;
      currentY := TopMargin;
    }
    placed := placed + [Placement(currentPage, currentY, signatureHeight)];
  }

  /**
   * What stays true while drawing: the cursor is below the top margin and
   * never on an earlier page than the last block; blocks sit below the top
   * margin and never on an earlier page than the one before it; and every
   * checked block (all but the header) no taller than an empty page ends
   * above the bottom margin.
   */
  ghost predicate Drawn(c: Cursor) {
    && |c.placed| >= 1
    && c.placed[|c.placed| - 1].page <= c.page
    && TopMargin <= c.y
    && (forall k :: 0 <= k < |c.placed| ==> TopMargin <= c.placed[k].y)
    && (forall k :: 0 < k < |c.placed| ==> c.placed[k - 1].page <= c.placed[k].page)
    && (forall k :: 1 <= k < |c.placed| && c.placed[k].height <= UsableHeight ==>
          c.placed[k].y + c.placed[k].height <= PageBottom)
  }

  /** Pages that never go down from one block to the next never go down at all. */
  lemma {:induction false} PagesMonotone(ps: seq<Placement>, k: nat, l: nat)
    requires forall j :: 0 < j < |ps| ==> ps[j - 1].page <= ps[j].page
    requires k <= l < |ps|
    ensures ps[k].page <= ps[l].page
    decreases l - k
  {
    if k < l {
      PagesMonotone(ps, k + 1, l);
    }
  }

  /**
   * A checked block is drawn on the current page exactly when it fits
   * (`currentY + h <= pageHeight - bottomMargin`), else at the top of the next
   * page; the cursor then moves down by `h`.
   */
  lemma PlaceBlockDraws(c: Cursor, h: nat)
    requires Drawn(c)
    ensures var d := PlaceBlock(c, h);
      var fits := c.y + h <= PageBottom;
      && Drawn(d)
      && d.placed == c.placed + [Placement(d.page, if fits then c.y else TopMargin, h)]
      && d.page == (if fits then c.page else c.page + 1)
      && d.y == (if fits then c.y else TopMargin) + h
  {
  }

  /**
   * One damage block: after the first, a fresh page, then a check, so a
   * damage taller than an empty page lands two pages on.
   */
  lemma DamageStepPage(c: Cursor, i: nat, h: nat)
    ensures var d := DamageStep(c, i, h);
      && d.placed == c.placed + [Placement(d.page, d.placed[|d.placed| - 1].y, h)]
      && d.page == c.page + (if i > 0 then (if h > UsableHeight then 2 else 1)
                             else (if c.y + h > PageBottom then 1 else 0))
  {
  }

  /** A damage block keeps the drawing invariant. */
  lemma DamageStepDraws(c: Cursor, i: nat, h: nat)
    requires Drawn(c)
    ensures Drawn(DamageStep(c, i, h))
  {
    var start := if i > 0 then NewPage(c) else c;
    PlaceBlockDraws(start, h);
  }

  /** The damages append one block each, of their heights. */
  lemma {:induction false} AfterDamagesBlocks(c: Cursor, hs: seq<nat>)
    ensures var d := AfterDamages(c, hs);
      && |d.placed| == |c.placed| + |hs| && d.placed[..|c.placed|] == c.placed
      && (forall i :: 0 <= i < |hs| ==> d.placed[|c.placed| + i].height == hs[i])
    decreases |hs|
  {
    if |hs| > 0 {
      var m := |hs| - 1;
      AfterDamagesBlocks(c, hs[..m]);
      var b := AfterDamages(c, hs[..m]);
      var d := AfterDamages(c, hs);
      var start := if m > 0 then NewPage(b) else b;
      assert d.placed == b.placed + [Placement(d.page, d.placed[|d.placed| - 1].y, hs[m])];
      var n := |c.placed|;
      forall i | 0 <= i < |hs| ensures d.placed[n + i].height == hs[i] {
        if i < m { assert d.placed[n + i] == b.placed[n + i]; }
      }
      assert d.placed[..n] == b.placed[..n];
    }
  }

  /** Drawing the damages keeps the drawing invariant. */
  lemma {:induction false} AfterDamagesDrawn(c: Cursor, hs: seq<nat>)
    requires Drawn(c)
    ensures var d := AfterDamages(c, hs);
      Drawn(d)
    decreases |hs|
  {
    if |hs| > 0 {
      var m := |hs| - 1;
      AfterDamagesDrawn(c, hs[..m]);
      DamageStepDraws(AfterDamages(c, hs[..m]), m, hs[m]);
    }
  }

  /** The damages append one block each. */
  lemma {:induction false} AfterDamagesLength(c: Cursor, hs: seq<nat>)
    ensures |AfterDamages(c, hs).placed| == |c.placed| + |hs|
    decreases |hs|
  {
    if |hs| > 0 {
      AfterDamagesLength(c, hs[..|hs| - 1]);
    }
  }

  /** The blocks drawn for the first `j` damages are the first blocks drawn for all of them. */
  lemma {:induction false} AfterDamagesPrefix(c: Cursor, hs: seq<nat>, j: nat)
    requires j <= |hs|
    ensures var d, e := AfterDamages(c, hs), AfterDamages(c, hs[..j]);
      |e.placed| == |c.placed| + j <= |d.placed| && d.placed[..|c.placed| + j] == e.placed
    decreases |hs|
  {
    if j < |hs| {
      var m := |hs| - 1;
      var init := hs[..m];
      AfterDamagesPrefix(c, init, j);
      assert init[..j] == hs[..j];
      var b := AfterDamages(c, init);
      var d := AfterDamages(c, hs);
      assert d == DamageStep(b, m, hs[m]);
      assert d.placed[..|b.placed|] == b.placed;
    } else {
      assert hs[..j] == hs;
      AfterDamagesLength(c, hs);
    }
  }

  /** After at least one damage the cursor is on the page of the last damage's block. */
  lemma AfterDamagesLast(c: Cursor, hs: seq<nat>)
    requires |hs| > 0
    ensures var d := AfterDamages(c, hs);
      |d.placed| > 0 && d.page == d.placed[|d.placed| - 1].page
  {
    DamageStepPage(AfterDamages(c, hs[..|hs| - 1]), |hs| - 1, hs[|hs| - 1]);
  }

  /** Damage `i` is drawn by one step from the cursor the damages before it leave. */
  lemma AfterDamagesStep(c: Cursor, hs: seq<nat>, i: nat)
    requires i < |hs|
    ensures AfterDamages(c, hs[..i + 1]) == DamageStep(AfterDamages(c, hs[..i]), i, hs[i])
  {
    var pre := hs[..i + 1];
    assert pre[..i] == hs[..i] && pre[i] == hs[i];
  }

  /** The page of damage `i`'s block, from the cursor the damages before it leave. */
  lemma AfterDamagesStepPage(c: Cursor, hs: seq<nat>, i: nat)
    requires i < |hs|
    ensures var b, e := AfterDamages(c, hs[..i]), AfterDamages(c, hs[..i + 1]);
      && |e.placed| == |b.placed| + 1 && e.placed[..|b.placed|] == b.placed
      && e.placed[|b.placed|].page == e.page
      && e.page == b.page + (if i > 0 then (if hs[i] > UsableHeight then 2 else 1)
                             else (if b.y + hs[i] > PageBottom then 1 else 0))
  {
    AfterDamagesStep(c, hs, i);
    DamageStepPage(AfterDamages(c, hs[..i]), i, hs[i]);
  }

  /** The first damage is drawn on the current page, or on the next one when it does not fit. */
  lemma AfterDamagesFirstPage(c: Cursor, hs: seq<nat>)
    requires |hs| > 0
    ensures var d := AfterDamages(c, hs);
      |d.placed| > |c.placed| && d.placed[|c.placed|].page == c.page + (if c.y + hs[0] > PageBottom then 1 else 0)
  {
    var e := AfterDamages(c, hs[..1]);
    AfterDamagesPrefix(c, hs, 1);
    AfterDamagesStepPage(c, hs, 0);
    assert hs[..0] == [];
    assert AfterDamages(c, hs).placed[|c.placed|] == e.placed[|c.placed|];
  }

  /** Damage `i`'s block is on the page the cursor is on once damage `i` is drawn. */
  lemma AfterDamagesBlockPage(c: Cursor, hs: seq<nat>, i: nat)
    requires i < |hs|
    ensures var d := AfterDamages(c, hs);
      |c.placed| + i < |d.placed| && d.placed[|c.placed| + i].page == AfterDamages(c, hs[..i + 1]).page
  {
    var d, e := AfterDamages(c, hs), AfterDamages(c, hs[..i + 1]);
    AfterDamagesPrefix(c, hs, i + 1);
    AfterDamagesStepPage(c, hs, i);
    AfterDamagesPrefix(c, hs[..i + 1], i);
    assert hs[..i + 1][..i] == hs[..i];
    assert d.placed[|c.placed| + i] == e.placed[|c.placed| + i];
  }

  /** Damage `i` after the first begins one page after damage `i - 1`, two when it is taller than an empty page. */
  lemma AfterDamagesNextPage(c: Cursor, hs: seq<nat>, i: nat)
    requires 0 < i < |hs|
    ensures var d, n := AfterDamages(c, hs), |c.placed|;
      n + i < |d.placed| &&
      d.placed[n + i].page == d.placed[n + i - 1].page + (if hs[i] > UsableHeight then 2 else 1)
  {
    var j := i - 1;
    var d, n := AfterDamages(c, hs), |c.placed|;
    var prev, cur := AfterDamages(c, hs[..i]), AfterDamages(c, hs[..i + 1]);
    AfterDamagesBlockPage(c, hs, j);
    assert hs[..j + 1] == hs[..i];
    assert d.placed[n + j].page == prev.page;
    AfterDamagesBlockPage(c, hs, i);
    assert d.placed[n + i].page == cur.page;
    AfterDamagesStepPage(c, hs, i);
    assert cur.page == prev.page + (if hs[i] > UsableHeight then 2 else 1);
  }

  /** Every damage after the first begins one page after the previous damage, two when it is taller than an empty page. */
  lemma AfterDamagesPages(c: Cursor, hs: seq<nat>)
    ensures var d := AfterDamages(c, hs);
      var n := |c.placed|;
      && |d.placed| == n + |hs|
      && (|hs| > 0 ==> d.page == d.placed[|d.placed| - 1].page)
      && (|hs| > 0 ==> d.placed[n].page == c.page + (if c.y + hs[0] > PageBottom then 1 else 0))
      && (forall i :: 0 < i < |hs| ==>
            d.placed[n + i].page == d.placed[n + i - 1].page + (if hs[i] > UsableHeight then 2 else 1))
  {
    AfterDamagesLength(c, hs);
    if |hs| > 0 {
      AfterDamagesLast(c, hs);
      AfterDamagesFirstPage(c, hs);
    }
    forall i | 0 < i < |hs|
      ensures AfterDamages(c, hs).placed[|c.placed| + i].page ==
        AfterDamages(c, hs).placed[|c.placed| + i - 1].page + (if hs[i] > UsableHeight then 2 else 1)
    {
      AfterDamagesNextPage(c, hs, i);
    }
  }

  /** The blocks before the signature keep the drawing invariant. */
  lemma BodyDrawn(headerHeight: nat, sectionHeight: nat, hs: seq<nat>)
    ensures Drawn(AfterDamages(PlaceBlock(Start(headerHeight), sectionHeight), hs))
  {
    var c0 := Start(headerHeight);
    PlaceBlockDraws(c0, sectionHeight);
    AfterDamagesDrawn(PlaceBlock(c0, sectionHeight), hs);
  }

  /** The blocks before the signature: header, section title, then the damages. */
  lemma BodyShape(headerHeight: nat, sectionHeight: nat, hs: seq<nat>)
    ensures var c := AfterDamages(PlaceBlock(Start(headerHeight), sectionHeight), hs);
      && |c.placed| == |hs| + 2
      && c.placed[0] == Placement(1, TopMargin, headerHeight)
      && c.placed[1].height == sectionHeight
      && (forall i :: 0 <= i < |hs| ==> c.placed[i + 2].height == hs[i])
      && (forall i :: 0 < i < |hs| ==>
            c.placed[i + 2].page == c.placed[i + 1].page + (if hs[i] > UsableHeight then 2 else 1))
  {
    var c0 := Start(headerHeight);
    var c1 := PlaceBlock(c0, sectionHeight);
    assert c1.placed == [Placement(1, TopMargin, headerHeight), Placement(c1.page, c1.y - sectionHeight, sectionHeight)];
    AfterDamagesBlocks(c1, hs);
    AfterDamagesPages(c1, hs);
    var c := AfterDamages(c1, hs);
    assert c.placed[0] == c.placed[..2][0] && c.placed[1] == c.placed[..2][1];
  }

  /** What the drawing invariant says about every pair of blocks. */
  lemma DrawnBounds(c: Cursor)
    requires Drawn(c)
    ensures forall k, l :: 0 <= k <= l < |c.placed| ==> c.placed[k].page <= c.placed[l].page
    ensures forall k :: 0 <= k < |c.placed| ==> TopMargin <= c.placed[k].y
    ensures forall k :: 1 <= k < |c.placed| && c.placed[k].height <= UsableHeight ==>
      c.placed[k].y + c.placed[k].height <= PageBottom
  {
    forall k, l | 0 <= k <= l < |c.placed| ensures c.placed[k].page <= c.placed[l].page {
      PagesMonotone(c.placed, k, l);
    }
  }

  /** The signature block is drawn like a checked block; only the cursor is not moved below it. */
  lemma SignatureDraws(headerHeight: nat, sectionHeight: nat, hs: seq<nat>, signatureHeight: nat)
    ensures var c := AfterDamages(PlaceBlock(Start(headerHeight), sectionHeight), hs);
      var r, d := Layout(headerHeight, sectionHeight, hs, signatureHeight), PlaceBlock(c, signatureHeight);
      r.placed == d.placed && r.page == d.page
  {
  }

  /**
   * The report as drawn: the header at the top of page 1, then the section
   * title, the damages and the signature, one block each; the final page
   * count is the signature's page, and each damage after the first begins
   * one page after the previous damage, or two when it is taller than an
   * empty page (its own check breaks again).
   */
  lemma LayoutShape(headerHeight: nat, sectionHeight: nat, hs: seq<nat>, signatureHeight: nat)
    ensures var r := Layout(headerHeight, sectionHeight, hs, signatureHeight);
      && |r.placed| == |hs| + 3
      && r.placed[0] == Placement(1, TopMargin, headerHeight)
      && r.placed[1].height == sectionHeight
      && (forall i :: 0 <= i < |hs| ==> r.placed[i + 2].height == hs[i])
      && r.placed[|hs| + 2].height == signatureHeight
      && r.page == r.placed[|hs| + 2].page
      && (forall i :: 0 < i < |hs| ==>
            r.placed[i + 2].page == r.placed[i + 1].page + (if hs[i] > UsableHeight then 2 else 1))
  {
    BodyShape(headerHeight, sectionHeight, hs);
    var c := AfterDamages(PlaceBlock(Start(headerHeight), sectionHeight), hs);
    SignatureDraws(headerHeight, sectionHeight, hs, signatureHeight);
    var r := Layout(headerHeight, sectionHeight, hs, signatureHeight);
    assert r.placed == c.placed + [Placement(r.page, r.placed[|c.placed|].y, signatureHeight)];
    assert forall k :: 0 <= k < |c.placed| ==> r.placed[k] == c.placed[k];
  }

  /**
   * Pages only grow from one block to any later one, every block sits below
   * the top margin, and every checked block no taller than an empty page
   * ends above the bottom margin.
   */
  lemma LayoutBounds(headerHeight: nat, sectionHeight: nat, hs: seq<nat>, signatureHeight: nat)
    ensures var r := Layout(headerHeight, sectionHeight, hs, signatureHeight);
      && (forall k, l :: 0 <= k <= l < |r.placed| ==> r.placed[k].page <= r.placed[l].page)
      && (forall k :: 0 <= k < |r.placed| ==> TopMargin <= r.placed[k].y)
      && (forall k :: 1 <= k < |r.placed| && r.placed[k].height <= UsableHeight ==>
            r.placed[k].y + r.placed[k].height <= PageBottom)
  {
    BodyDrawn(headerHeight, sectionHeight, hs);
    var c := AfterDamages(PlaceBlock(Start(headerHeight), sectionHeight), hs);
    PlaceBlockDraws(c, signatureHeight);
    SignatureDraws(headerHeight, sectionHeight, hs, signatureHeight);
    DrawnBounds(PlaceBlock(c, signatureHeight));
  }

  /** The report ends on page `max(1, number of damages)` or later: every damage after the first starts a page. */
  lemma FinalPageAtLeastDamages(headerHeight: nat, sectionHeight: nat, hs: seq<nat>, signatureHeight: nat)
    ensures var r := Layout(headerHeight, sectionHeight, hs, signatureHeight);
      r.page >= 1 && r.page >= |hs|
  {
    var r := Layout(headerHeight, sectionHeight, hs, signatureHeight);
    LayoutShape(headerHeight, sectionHeight, hs, signatureHeight);
    LayoutBounds(headerHeight, sectionHeight, hs, signatureHeight);
    var i := 0;
    while i < |hs|
      invariant 0 <= i <= |hs|
      invariant i > 0 ==> r.placed[i + 1].page >= i
    {
      if i > 0 {
        assert r.placed[i + 2].page == r.placed[i + 1].page + (if hs[i] > UsableHeight then 2 else 1);
      } else {
        assert r.placed[0].page <= r.placed[2].page;
      }
      i := i + 1;
    }
    assert r.placed[0].page <= r.placed[|hs| + 2].page;
    assert i > 0 ==> r.placed[i + 1].page <= r.placed[|hs| + 2].page;
  }

  /**
   * A damage after the first that is taller than an empty page leaves the
   * page right after the previous damage's with nothing drawn on it.
   */
  lemma TallDamageLeavesBlankPage(headerHeight: nat, sectionHeight: nat, hs: seq<nat>, signatureHeight: nat, i: nat)
    requires 0 < i < |hs| && hs[i] > UsableHeight
    ensures var r := Layout(headerHeight, sectionHeight, hs, signatureHeight);
      && |r.placed| == |hs| + 3
      && r.placed[i + 2].page == r.placed[i + 1].page + 2
      && forall k :: 0 <= k < |r.placed| ==> r.placed[k].page != r.placed[i + 1].page + 1
  {
    var r := Layout(headerHeight, sectionHeight, hs, signatureHeight);
    LayoutShape(headerHeight, sectionHeight, hs, signatureHeight);
    LayoutBounds(headerHeight, sectionHeight, hs, signatureHeight);
    forall k | 0 <= k < |r.placed| ensures r.placed[k].page != r.placed[i + 1].page + 1 {
      if k <= i + 1 {
        assert r.placed[k].page <= r.placed[i + 1].page;
      } else {
        assert r.placed[i + 2].page <= r.placed[k].page;
      }
    }
  }

  // Labels of the damage list.

  /** The damage title's type: only water and electric have their own label, everything else, structural included, is "other". */
  function DamageTypeLabel(kind: Option<DamageType>): (shown: string)
    ensures shown == ReactPdf.OtherLabel <==> kind !in {Some(Water), Some(Electric)}
  {
    if kind == Some(Water) then "ระบบน้ำ"
    else if kind == Some(Electric) then "ระบบไฟฟ้า"
    else ReactPdf.OtherLabel
  }

  /** The two generators title a damage alike except a structural one, which this one calls "other". */
  lemma TypeLabelsAgree(kind: Option<DamageType>)
    ensures DamageTypeLabel(kind) == ReactPdf.TitleTypeLabel(kind) <==> kind != Some(Structural)
  {
  }

  /** The room row: the four named rooms, everything else "other" (the free-text room is not shown). */
  function RoomLabel(room: RoomType): (shown: string)
    ensures shown == ReactPdf.OtherLabel <==> room == OtherRoom || room.UnknownRoom?
  {
    match room
    case LivingRoom => "ห้องนั่งเล่น"
    case Bedroom => "ห้องนอน"
    case Kitchen => "ห้องครัว"
    case Bathroom => "ห้องน้ำ"
    case _ => ReactPdf.OtherLabel
  }

  /**
   * The two generators name a room alike except a free-text room the user
   * typed, which this one drops, and storage and balcony, which only the
   * other one knows.
   */
  lemma RoomLabelsAgree(room: RoomType, otherRoom: string)
    ensures RoomLabel(room) == ReactPdf.RoomLabel(room, otherRoom) <==>
      !(room == OtherRoom && otherRoom !in {"", ReactPdf.OtherLabel}) &&
      !(room.UnknownRoom? && room.tag in {"storage", "balcony"})
  {
  }

  /** The room row (`if (damage.room)`): shown only when a room is set, with that room's label. */
  function RoomRow(room: Option<RoomType>): (row: Option<string>)
    ensures row.Some? <==> room.Some?
    ensures row.Some? ==> row.value == RoomLabel(room.value)
  {
    match room
    case None => None
    case Some(r) => Some(RoomLabel(r))
  }

  /**
   * Both generators leave the room row out when no room is set; with a room
   * they show the same text except where the room labels differ.
   */
  lemma RoomRowsAgree(d: DamageDetail)
    ensures d.room.None? ==> RoomRow(d.room) == None && ReactPdf.RoomRow(d) == None
    ensures RoomRow(d.room) == ReactPdf.RoomRow(d) <==>
      d.room.None? ||
      (!(d.room.value == OtherRoom && d.otherRoom !in {"", ReactPdf.OtherLabel}) &&
       !(d.room.value.UnknownRoom? && d.room.value.tag in {"storage", "balcony"}))
  {
    if d.room.Some? {
      RoomLabelsAgree(d.room.value, d.otherRoom);
    }
  }

  /** The location row: the location as typed, or a dash when it is empty. */
  function LocationText(location: string): (shown: string)
    ensures shown != []
    ensures location != [] ==> shown == location
    ensures location == [] ==> shown == "-"
  {
    if location != [] then location else "-"
  }
}

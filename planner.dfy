/**
 * The reference page plan: an information page, then per damage a main page
 * and its images four at a time on overflow pages, every page numbered by its
 * position and every page printing the number of pages planned.  The lemmas
 * compare it with the numbering the React-PDF generator prints: the page
 * layout always agrees, and the numbers agree exactly when no damage has more
 * than one image.
 */
module Planner {
  import opened Wrappers
  import opened Types
  import opened ReactPdf

  /** Pages a damage with `k` images needs: `1 + ceil(max(0, k-1) / 4)`. */
  function PagesForDamage(k: nat): (n: nat)
    ensures n >= 1 && (n == 1 <==> k <= 1)
  {
    1 + (if k == 0 then 0 else k - 1 + OverflowBatch - 1) / OverflowBatch
  }

  /** Pages needed by the damages from `i` on. */
  function DamagePageCount(ds: seq<DamageDetail>, processed: seq<ProcessedImage>, i: nat): (n: nat)
    requires i <= |ds|
    decreases |ds| - i
  {
    if i == |ds| then 0
    else PagesForDamage(|DamageImages(processed, ds[i].id)|) + DamagePageCount(ds, processed, i + 1)
  }

  /** The page count of a report: `1 + Σ (1 + ceil(max(0, k-1) / 4))`. */
  function TotalPages(form: FormData, processed: seq<ProcessedImage>): nat {
    1 + DamagePageCount(form.damages, processed, 0)
  }

  /** Every damage has at most one image. */
  predicate AtMostOneImageEach(form: FormData, processed: seq<ProcessedImage>) {
    forall i :: 0 <= i < |form.damages| ==> |DamageImages(processed, form.damages[i].id)| <= 1
  }

  /** The damages need one page each, and more exactly when one of them has two images or more. */
  lemma {:induction false} DamagePageCountBound(ds: seq<DamageDetail>, processed: seq<ProcessedImage>, i: nat)
    requires i <= |ds|
    ensures DamagePageCount(ds, processed, i) >= |ds| - i
    ensures DamagePageCount(ds, processed, i) == |ds| - i <==>
      forall j :: i <= j < |ds| ==> |DamageImages(processed, ds[j].id)| <= 1
    decreases |ds| - i
  {
    if i < |ds| {
      var k := |DamageImages(processed, ds[i].id)|;
      var rest := DamagePageCount(ds, processed, i + 1);
      assert DamagePageCount(ds, processed, i) == PagesForDamage(k) + rest;
      DamagePageCountBound(ds, processed, i + 1);
      if DamagePageCount(ds, processed, i) == |ds| - i {
        assert k <= 1 && rest == |ds| - (i + 1);
        forall j | i <= j < |ds| ensures |DamageImages(processed, ds[j].id)| <= 1 {
          if j == i {
            assert ds[j] == ds[i];
          }
        }
      }
    }
  }

  /** A remaining list split into batches of four, batch `j` holding images `4j` to `4j + 3` captioned from `first + 4j`. */
  function Batches(index: nat, rest: seq<string>, first: nat): (bodies: seq<PageBody>)
    ensures |bodies| == (|rest| + OverflowBatch - 1) / OverflowBatch
  {
    seq((|rest| + 3) / 4, j requires 0 <= j < (|rest| + 3) / 4 =>
      OverflowBody(index, Captions(rest[4 * j..Min(4 * j + 4, |rest|)], first + 4 * j)))
  }

  /** Batches are never empty and hold at most four images. */
  lemma BatchSizes(index: nat, rest: seq<string>, first: nat, j: nat)
    requires j < |Batches(index, rest, first)|
    ensures var b := Batches(index, rest, first)[j];
      b.OverflowBody? && 1 <= |b.images| <= OverflowBatch
  {
  }

  /** The planned pages of one damage: its main page with its first image, then its overflow batches. */
  function DamageBodies(index: nat, images: seq<string>): seq<PageBody> {
    [MainBody(index, MainImage(images))] + Batches(index, if |images| == 0 then [] else images[1..], 2)
  }

  function BodiesFrom(ds: seq<DamageDetail>, processed: seq<ProcessedImage>, i: nat): seq<PageBody>
    requires i <= |ds|
    decreases |ds| - i
  {
    if i == |ds| then [] else DamageBodies(i, DamageImages(processed, ds[i].id)) + BodiesFrom(ds, processed, i + 1)
  }

  /** Number a list of page bodies by position, each printing the length of the list as total. */
  function Numbered(bodies: seq<PageBody>): (pages: seq<Page>)
    ensures |pages| == |bodies|
    ensures forall p :: 0 <= p < |pages| ==> pages[p] == Page(bodies[p], p + 1, |bodies|)
  {
    seq(|bodies|, p requires 0 <= p < |bodies| => Page(bodies[p], p + 1, |bodies|))
  }

  /** Every page prints its position (from 1) and the number of pages. */
  predicate PositionallyNumbered(pages: seq<Page>) {
    forall p :: 0 <= p < |pages| ==> pages[p].number == p + 1 && pages[p].total == |pages|
  }

  function Bodies(pages: seq<Page>): (bodies: seq<PageBody>)
    ensures |bodies| == |pages| && forall p :: 0 <= p < |pages| ==> bodies[p] == pages[p].body
  {
    seq(|pages|, p requires 0 <= p < |pages| => pages[p].body)
  }

  /** One damage's planned pages: as many as `PagesForDamage` counts for its images. */
  lemma DamageBodiesLength(index: nat, images: seq<string>)
    ensures |DamageBodies(index, images)| == PagesForDamage(|images|)
  {
  }

  lemma {:induction false} BodiesFromLength(ds: seq<DamageDetail>, processed: seq<ProcessedImage>, i: nat)
    requires i <= |ds|
    ensures |BodiesFrom(ds, processed, i)| == DamagePageCount(ds, processed, i)
    decreases |ds| - i
  {
    if i < |ds| {
      var images := DamageImages(processed, ds[i].id);
      var here, rest := DamageBodies(i, images), BodiesFrom(ds, processed, i + 1);
      assert BodiesFrom(ds, processed, i) == here + rest;
      assert DamagePageCount(ds, processed, i) == PagesForDamage(|images|) + DamagePageCount(ds, processed, i + 1);
      BodiesFromLength(ds, processed, i + 1);
      DamageBodiesLength(i, images);
    }
  }

  /**
   * The report plan: the page numbers run 1, 2, ... without gap or repeat, and
   * every page prints the true page count `1 + Σ (1 + ceil(max(0, k-1) / 4))`.
   */
  function Plan(form: FormData, processed: seq<ProcessedImage>): (pages: seq<Page>)
    ensures |pages| == TotalPages(form, processed)
    ensures PositionallyNumbered(pages)
    ensures |pages| >= 1 && pages[0].body == InfoBody
  {
    BodiesFromLength(form.damages, processed, 0);
    Numbered([InfoBody] + BodiesFrom(form.damages, processed, 0))
  }

  /** The generator lays the overflow pages out as the plan's batches. */
  lemma OverflowLayoutAgrees(index: nat, remaining: seq<string>, pageNumber: int, total: int)
    ensures Bodies(OverflowPages(index, remaining, 0, pageNumber, total)) == Batches(index, remaining, 2)
  {
    OverflowPageAt(index, remaining, pageNumber, total);
  }

  /** The bodies of two page lists, one after the other. */
  lemma BodiesAppend(a: seq<Page>, b: seq<Page>)
    ensures Bodies(a + b) == Bodies(a) + Bodies(b)
  {
  }

  /** The generator lays one damage out as the plan's pages for it. */
  lemma DamagePagesBodies(index: nat, images: seq<string>, pageNumber: int, total: int)
    ensures Bodies(DamagePages(index, images, pageNumber, total)) == DamageBodies(index, images)
  {
    var remaining := if |images| == 0 then [] else images[1..];
    var main := Page(MainBody(index, MainImage(images)), pageNumber, total);
    var over := OverflowPages(index, remaining, 0, pageNumber, total);
    OverflowLayoutAgrees(index, remaining, pageNumber, total);
    BodiesAppend([main], over);
  }

  lemma {:induction false} DamagesLayoutAgrees(ds: seq<DamageDetail>, processed: seq<ProcessedImage>, i: nat, total: int)
    requires i <= |ds|
    ensures Bodies(DamagesFrom(ds, processed, i, total)) == BodiesFrom(ds, processed, i)
    decreases |ds| - i
  {
    if i < |ds| {
      DamagesLayoutAgrees(ds, processed, i + 1, total);
      var images := DamageImages(processed, ds[i].id);
      DamagePagesBodies(i, images, i + 2, total);
      BodiesAppend(DamagePages(i, images, i + 2, total), DamagesFrom(ds, processed, i + 1, total));
    }
  }


  /** The generator's pages are the plan's pages, in the same order; only the printed numbers can differ. */
  lemma LayoutAgrees(form: FormData, processed: seq<ProcessedImage>)
    ensures Bodies(Document(form, processed)) == Bodies(Plan(form, processed))
    ensures |Document(form, processed)| == TotalPages(form, processed)
  {
    var total := |form.damages| + 1;
    DamagesLayoutAgrees(form.damages, processed, 0, total);
    BodiesFromLength(form.damages, processed, 0);
    var info := Page(InfoBody, 1, total);
    var rest := DamagesFrom(form.damages, processed, 0, total);
    BodiesAppend([info], rest);
    assert Bodies([info]) == [InfoBody];
    assert Document(form, processed) == [info] + rest;
  }

  /** With one image or none per damage, the damages from `i` take one page each, numbered `i + 2` on. */
  lemma {:induction false} SingleImageDamages(ds: seq<DamageDetail>, processed: seq<ProcessedImage>, i: nat, total: int)
    requires i <= |ds|
    requires forall j :: i <= j < |ds| ==> |DamageImages(processed, ds[j].id)| <= 1
    ensures var pages := DamagesFrom(ds, processed, i, total);
      |pages| == |ds| - i &&
      forall p :: 0 <= p < |pages| ==> pages[p].number == i + p + 2 && pages[p].total == total
    decreases |ds| - i
  {
    if i < |ds| {
      SingleImageDamages(ds, processed, i + 1, total);
      var images := DamageImages(processed, ds[i].id);
      DamagePagesShape(i, images, i + 2, total);
      var mine := DamagePages(i, images, i + 2, total);
      var rest := DamagesFrom(ds, processed, i + 1, total);
      assert |mine| == 1 && mine[0].number == i + 2 && mine[0].total == total;
      var pages := mine + rest;
      forall p | 1 <= p < |pages|
        ensures pages[p].number == i + p + 2 && pages[p].total == total
      {
        assert pages[p] == rest[p - 1];
      }
    }
  }

  /**
   * The numbers the generator prints run exactly from 1 to the total it
   * prints, that total being the page count, if and only if every damage has
   * at most one image.
   */
  lemma WrittenNumberingCorrectIff(form: FormData, processed: seq<ProcessedImage>)
    ensures PositionallyNumbered(Document(form, processed)) <==> AtMostOneImageEach(form, processed)
  {
    var doc := Document(form, processed);
    var n := |form.damages|;
    LayoutAgrees(form, processed);
    DamagePageCountBound(form.damages, processed, 0);
    if AtMostOneImageEach(form, processed) {
      SingleImageDamages(form.damages, processed, 0, n + 1);
      assert forall p :: 1 <= p < |doc| ==> doc[p] == DamagesFrom(form.damages, processed, 0, n + 1)[p - 1];
    } else {
      assert doc[0].total == n + 1 < |doc|;
    }
  }

  /** The generator prints the plan exactly (numbers included) if and only if every damage has at most one image. */
  lemma WrittenMatchesPlanIff(form: FormData, processed: seq<ProcessedImage>)
    ensures Document(form, processed) == Plan(form, processed) <==> AtMostOneImageEach(form, processed)
  {
    var doc := Document(form, processed);
    var plan := Plan(form, processed);
    LayoutAgrees(form, processed);
    WrittenNumberingCorrectIff(form, processed);
    if AtMostOneImageEach(form, processed) {
      assert forall p :: 0 <= p < |doc| ==> doc[p] == Page(Bodies(doc)[p], p + 1, |doc|);
      assert forall p :: 0 <= p < |doc| ==> doc[p] == plan[p];
    }
  }
}

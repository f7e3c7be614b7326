/**
 * The React-PDF report generator as written: an information page, then for
 * every damage a main page (its text and only its first image) followed by
 * overflow pages of at most four further images each.  Every page prints a
 * page number and a total in its footer; those numbers are computed exactly
 * the way the generator computes them, which does not count overflow pages
 * (the module Planner holds the positional numbering and the comparison).
 */
module ReactPdf {
  import opened Wrappers
  import opened Types
  import opened Text

  /** How many images one overflow page holds. */
  const OverflowBatch: nat := 4

  /** An image drawn on a page with the number of its caption ("รูปภาพที่ n"). */
  datatype Captioned = Captioned(src: string, caption: nat)

  datatype PageBody =
    | InfoBody
    | MainBody(index: nat, image: Option<Captioned>)
    | OverflowBody(index: nat, images: seq<Captioned>)

  /** One page, with the number and the total its footer prints ("หน้า number / total"). */
  datatype Page = Page(body: PageBody, number: int, total: int)

  function Min(a: int, b: int): int {
    if a <= b then a else b
  }

  /** `imgs.map((img, idx) => caption first + idx)`. */
  function Captions(imgs: seq<string>, first: nat): (r: seq<Captioned>)
    ensures |r| == |imgs|
    ensures forall idx :: 0 <= idx < |r| ==> r[idx] == Captioned(imgs[idx], first + idx)
  {
    seq(|imgs|, idx requires 0 <= idx < |imgs| => Captioned(imgs[idx], first + idx))
  }

  lemma CaptionsAppend(a: seq<string>, b: seq<string>, first: nat)
    ensures Captions(a, first) + Captions(b, first + |a|) == Captions(a + b, first)
  {
  }

  /** The data URLs of one damage's processed images, in input order. */
  function DamageImages(processed: seq<ProcessedImage>, damageId: string): (r: seq<string>)
    ensures |r| == |ImagesOf(processed, damageId)|
    ensures forall k :: 0 <= k < |r| ==> r[k] == ImagesOf(processed, damageId)[k].base64
  {
    var mine := ImagesOf(processed, damageId);
    seq(|mine|, k requires 0 <= k < |mine| => mine[k].base64)
  }

  /**
   * The image on a damage's main page: the first one, captioned 1, provided it
   * is there and is a non-empty string (the page tests it for truthiness).
   */
  function MainImage(images: seq<string>): (r: Option<Captioned>)
    ensures r.Some? <==> |images| > 0 && images[0] != ""
    ensures r.Some? ==> r.value == Captioned(images[0], 1)
  {
    if |images| > 0 && images[0] != "" then Some(Captioned(images[0], 1)) else None
  }

  /**
   * `remaining.map((image, imgIndex) => ...)` from `imgIndex` on: an overflow
   * page at every `imgIndex` divisible by four, holding
   * `remaining.slice(imgIndex, imgIndex + 4)` captioned from `imgIndex + 2`
   * and numbered `pageNumber + floor(imgIndex / 4) + 1`; nothing elsewhere.
   */
  function OverflowPages(index: nat, remaining: seq<string>, imgIndex: nat, pageNumber: int, total: int): seq<Page>
    requires imgIndex <= |remaining|
    decreases |remaining| - imgIndex
  {
    if imgIndex == |remaining| then []
    else
      var rest := OverflowPages(index, remaining, imgIndex + 1, pageNumber, total);
      if imgIndex % OverflowBatch == 0 then
        var batch := remaining[imgIndex..Min(imgIndex + OverflowBatch, |remaining|)];
        [Page(OverflowBody(index, Captions(batch, imgIndex + 2)), pageNumber + imgIndex / OverflowBatch + 1, total)] + rest
      else rest
  }

  /** The pages of the damage at `index`: its main page, then its overflow pages. */
  function DamagePages(index: nat, images: seq<string>, pageNumber: int, total: int): seq<Page> {
    var remaining := if |images| == 0 then [] else images[1..];
    [Page(MainBody(index, MainImage(images)), pageNumber, total)] + OverflowPages(index, remaining, 0, pageNumber, total)
  }

  /** The pages of the damages from `i` on; damage `i` starts at number `i + 2`. */
  function DamagesFrom(ds: seq<DamageDetail>, processed: seq<ProcessedImage>, i: nat, total: int): seq<Page>
    requires i <= |ds|
    decreases |ds| - i
  {
    if i == |ds| then []
    else DamagePages(i, DamageImages(processed, ds[i].id), i + 2, total) + DamagesFrom(ds, processed, i + 1, total)
  }

  /** The whole document: the information page numbered 1, then every damage; every page prints total `|damages| + 1`. */
  function Document(form: FormData, processed: seq<ProcessedImage>): seq<Page> {
    var total := |form.damages| + 1;
    [Page(InfoBody, 1, total)] + DamagesFrom(form.damages, processed, 0, total)
  }

  /** The images drawn on a page, in order. */
  function ImagesOn(body: PageBody): seq<Captioned> {
    match body
    case InfoBody => []
    case MainBody(_, image) => if image.Some? then [image.value] else []
    case OverflowBody(_, images) => images
  }

  /** The images drawn on a list of pages, page after page. */
  function ImagesOnPages(pages: seq<Page>): seq<Captioned> {
    if pages == [] then [] else ImagesOn(pages[0].body) + ImagesOnPages(pages[1..])
  }

  lemma {:induction false} ImagesOnPagesAppend(a: seq<Page>, b: seq<Page>)
    ensures ImagesOnPages(a + b) == ImagesOnPages(a) + ImagesOnPages(b)
  {
    if a == [] {
      assert a + b == b;
    } else {
      assert (a + b)[1..] == a[1..] + b;
      ImagesOnPagesAppend(a[1..], b);
    }
  }

  /**
   * Overflow pages start at the multiples of four from `imgIndex` on: the
   * `j`-th holds `remaining[4(q+j) .. 4(q+j)+4)` (fewer at the end), captioned
   * from `4(q+j) + 2`, and prints `pageNumber + q + j + 1`, where `q` is the
   * number of multiples of four below `imgIndex`.
   */
  lemma {:induction false} OverflowPagesFrom(index: nat, remaining: seq<string>, imgIndex: nat, pageNumber: int, total: int)
    requires imgIndex <= |remaining|
    ensures var pages := OverflowPages(index, remaining, imgIndex, pageNumber, total);
      var q := (imgIndex + 3) / 4;
      |pages| == (|remaining| + 3) / 4 - q &&
      forall j :: 0 <= j < |pages| ==> pages[j] == BatchPage(index, remaining, q + j, pageNumber, total)
    decreases |remaining| - imgIndex
  {
    if imgIndex < |remaining| {
      OverflowPagesFrom(index, remaining, imgIndex + 1, pageNumber, total);
      var rest := OverflowPages(index, remaining, imgIndex + 1, pageNumber, total);
      var pages := OverflowPages(index, remaining, imgIndex, pageNumber, total);
      var q := (imgIndex + 3) / 4;
      if imgIndex % 4 == 0 {
        assert (imgIndex + 4) / 4 == q + 1 && imgIndex == 4 * q;
        OverflowPagesStartBatch(index, remaining, imgIndex, pageNumber, total);
        forall j | 0 <= j < |pages| ensures pages[j] == BatchPage(index, remaining, q + j, pageNumber, total) {
          if j > 0 { assert pages[j] == rest[j - 1]; }
        }
      } else {
        assert (imgIndex + 4) / 4 == q;
        OverflowPagesSkip(index, remaining, imgIndex, pageNumber, total);
      }
    }
  }

  /** At a multiple of four the generator starts a page for the next four images. */
  lemma OverflowPagesStartBatch(index: nat, remaining: seq<string>, imgIndex: nat, pageNumber: int, total: int)
    requires imgIndex < |remaining| && imgIndex % 4 == 0
    ensures OverflowPages(index, remaining, imgIndex, pageNumber, total) ==
      [BatchPage(index, remaining, imgIndex / 4, pageNumber, total)] + OverflowPages(index, remaining, imgIndex + 1, pageNumber, total)
  {
    assert 4 * (imgIndex / 4) == imgIndex;
  }

  /** Between multiples of four the generator starts no page. */
  lemma OverflowPagesSkip(index: nat, remaining: seq<string>, imgIndex: nat, pageNumber: int, total: int)
    requires imgIndex < |remaining| && imgIndex % 4 != 0
    ensures OverflowPages(index, remaining, imgIndex, pageNumber, total) == OverflowPages(index, remaining, imgIndex + 1, pageNumber, total)
  {
  }

  /** Overflow page `b` of a damage: images `4b .. 4b+3` of the remaining ones (fewer at the end), captioned from `4b + 2`, numbered `pageNumber + b + 1`. */
  function BatchPage(index: nat, remaining: seq<string>, b: nat, pageNumber: int, total: int): Page
    requires 4 * b <= |remaining|
  {
    Page(OverflowBody(index, Captions(remaining[4 * b..Min(4 * b + 4, |remaining|)], 4 * b + 2)), pageNumber + b + 1, total)
  }

  /** A damage with `r` remaining images gets `ceil(r / 4)` overflow pages; page `j` holds images `4j .. 4j+3` of them and prints `pageNumber + j + 1`. */
  lemma OverflowPageAt(index: nat, remaining: seq<string>, pageNumber: int, total: int)
    ensures var pages := OverflowPages(index, remaining, 0, pageNumber, total);
      |pages| == (|remaining| + 3) / 4 &&
      forall j :: 0 <= j < |pages| ==> pages[j] == BatchPage(index, remaining, j, pageNumber, total)
  {
    var pages := OverflowPages(index, remaining, 0, pageNumber, total);
    OverflowPagesFrom(index, remaining, 0, pageNumber, total);
    assert (0 + 3) / 4 == 0;
    forall j | 0 <= j < |pages| ensures pages[j] == BatchPage(index, remaining, j, pageNumber, total) {
      assert 0 + j == j;
    }
  }

  /** Rounding `i` up to a multiple of four, before and after one step. */
  lemma RoundUpStep(i: nat)
    ensures i % 4 == 0 ==> (i + 3) / 4 * 4 == i && (i + 4) / 4 * 4 == i + 4
    ensures i % 4 != 0 ==> (i + 4) / 4 * 4 == (i + 3) / 4 * 4
  {
  }

  /** Captioning a batch and then the images after it is captioning both at once. */
  lemma BatchThenRest(remaining: seq<string>, i: nat, e: nat, first: nat)
    requires i <= e <= |remaining|
    ensures Captions(remaining[i..e], first) + Captions(remaining[e..], first + (e - i)) == Captions(remaining[i..], first)
  {
    var batch, after := remaining[i..e], remaining[e..];
    assert |batch| == e - i;
    assert batch + after == remaining[i..];
    CaptionsAppend(batch, after, first);
  }

  /**
   * The images on the overflow pages from `imgIndex` on are the remaining
   * images from the next multiple of four, in order, captioned consecutively.
   */
  lemma {:induction false} OverflowImages(index: nat, remaining: seq<string>, imgIndex: nat, pageNumber: int, total: int)
    requires imgIndex <= |remaining|
    ensures var start := Min((imgIndex + 3) / 4 * 4, |remaining|);
      ImagesOnPages(OverflowPages(index, remaining, imgIndex, pageNumber, total)) == Captions(remaining[start..], start + 2)
    decreases |remaining| - imgIndex
  {
    if imgIndex < |remaining| {
      OverflowImages(index, remaining, imgIndex + 1, pageNumber, total);
      RoundUpStep(imgIndex);
      var rest := OverflowPages(index, remaining, imgIndex + 1, pageNumber, total);
      if imgIndex % 4 == 0 {
        var e := Min(imgIndex + 4, |remaining|);
        var batch := remaining[imgIndex..e];
        var page := Page(OverflowBody(index, Captions(batch, imgIndex + 2)), pageNumber + imgIndex / OverflowBatch + 1, total);
        assert OverflowPages(index, remaining, imgIndex, pageNumber, total) == [page] + rest;
        ImagesOnPagesAppend([page], rest);
        assert ImagesOnPages([page]) == Captions(batch, imgIndex + 2);
        BatchThenRest(remaining, imgIndex, e, imgIndex + 2);
      }
    }
  }

  /**
   * A damage with `k` images gets `1 + ceil(max(0, k-1) / 4)` pages: first its
   * main page, numbered `pageNumber`, then overflow pages of one to four
   * images each, numbered on from it.
   */
  lemma DamagePagesShape(index: nat, images: seq<string>, pageNumber: int, total: int)
    ensures var pages := DamagePages(index, images, pageNumber, total);
      |pages| == 1 + (if |images| == 0 then 0 else |images| - 1 + 3) / 4 &&
      pages[0] == Page(MainBody(index, MainImage(images)), pageNumber, total) &&
      (forall p :: 1 <= p < |pages| ==>
        pages[p].body.OverflowBody? && pages[p].body.index == index &&
        1 <= |pages[p].body.images| <= OverflowBatch &&
        pages[p].number == pageNumber + p && pages[p].total == total)
  {
    var remaining := if |images| == 0 then [] else images[1..];
    var over := OverflowPages(index, remaining, 0, pageNumber, total);
    OverflowPageAt(index, remaining, pageNumber, total);
    var pages := DamagePages(index, images, pageNumber, total);
    forall p | 1 <= p < |pages|
      ensures pages[p].body.OverflowBody? && pages[p].body.index == index &&
        1 <= |pages[p].body.images| <= OverflowBatch &&
        pages[p].number == pageNumber + p && pages[p].total == total
    {
      assert pages[p] == over[p - 1];
    }
  }

  /** All overflow pages together carry every remaining image, captioned from 2. */
  lemma AllOverflowImages(index: nat, remaining: seq<string>, pageNumber: int, total: int)
    ensures ImagesOnPages(OverflowPages(index, remaining, 0, pageNumber, total)) == Captions(remaining, 2)
  {
    OverflowImages(index, remaining, 0, pageNumber, total);
    assert Min((0 + 3) / 4 * 4, |remaining|) == 0;
    assert remaining[0..] == remaining;
  }

  /** The images on a page followed by other pages. */
  lemma ImagesOnPagesCons(page: Page, rest: seq<Page>)
    ensures ImagesOnPages([page] + rest) == ImagesOn(page.body) + ImagesOnPages(rest)
  {
    assert ([page] + rest)[1..] == rest;
  }

  /** Captioning an image and then the ones after it. */
  lemma CaptionsCons(src: string, rest: seq<string>, first: nat)
    ensures Captions([src] + rest, first) == [Captioned(src, first)] + Captions(rest, first + 1)
  {
    CaptionsAppend([src], rest, first);
  }

  /**
   * When its first image is present, the images over all of a damage's pages
   * are exactly its images, in order, captioned 1 to `k`.
   */
  lemma DamagePagesImages(index: nat, images: seq<string>, pageNumber: int, total: int)
    requires |images| == 0 || images[0] != ""
    ensures ImagesOnPages(DamagePages(index, images, pageNumber, total)) == Captions(images, 1)
  {
    var remaining := if |images| == 0 then [] else images[1..];
    var main := Page(MainBody(index, MainImage(images)), pageNumber, total);
    var over := OverflowPages(index, remaining, 0, pageNumber, total);
    assert DamagePages(index, images, pageNumber, total) == [main] + over;
    ImagesOnPagesCons(main, over);
    AllOverflowImages(index, remaining, pageNumber, total);
    var overImages := Captions(remaining, 2);
    if |images| == 0 {
      assert ImagesOn(main.body) == [];
      assert overImages == [] == Captions(images, 1);
    } else {
      var first := Captioned(images[0], 1);
      assert ImagesOn(main.body) == [first];
      assert images == [images[0]] + remaining;
      CaptionsCons(images[0], remaining, 1);
      assert Captions(images, 1) == [first] + overImages;
    }
  }

  /** A damage with the given id, no room, no text and no images. */
  function BareDamage(id: string): DamageDetail {
    DamageDetail(id, Some(Other), None, "", "", "", [], "", "")
  }

  function ReportOf(ds: seq<DamageDetail>): FormData {
    FormData("101", "resident", Owner, ds, "project", "1", "", "")
  }

  /**
   * Damage A without images and damage B with two or more: the generator
   * lays out at least four pages (B's images after the first go on overflow
   * pages) but prints the total 3, and the first overflow page prints 4.
   */
  lemma OverflowPageNumberExceedsTotal(processed: seq<ProcessedImage>)
    requires |processed| >= 2 && forall k :: 0 <= k < |processed| ==> processed[k].damageId == "B"
    ensures var doc := Document(ReportOf([BareDamage("A"), BareDamage("B")]), processed);
      |doc| >= 4 && doc[3].number == 4 && doc[3].total == 3
  {
    ImagesOfNone(processed, "A");
    ImagesOfWhole(processed, "B");
    var a, b := DamageImages(processed, "A"), DamageImages(processed, "B");
    assert |a| == 0 && |b| == |processed|;
    DamagePagesShape(0, a, 2, 3);
    DamagePagesShape(1, b, 3, 3);
  }

  /**
   * Damage A with two images and damage B without: A's overflow page and B's
   * main page both print page 3.
   */
  lemma OverflowPageNumberCollides()
    ensures var processed := [ProcessedImage("i1", "A", "data"), ProcessedImage("i2", "A", "data")];
      var doc := Document(ReportOf([BareDamage("A"), BareDamage("B")]), processed);
      |doc| == 4 && doc[2].body.OverflowBody? && doc[3].body.MainBody? && doc[2].number == doc[3].number == 3
  {
    var processed := [ProcessedImage("i1", "A", "data"), ProcessedImage("i2", "A", "data")];
    assert |DamageImages(processed, "A")| == 2;
    DamagePagesShape(0, DamageImages(processed, "A"), 2, 3);
  }

  /** The output file name: `projectName_floor_roomNumber.pdf`. */
  function Filename(form: FormData): (name: string)
    ensures |name| == |form.projectName| + |form.floor| + |form.roomNumber| + 6
    ensures name[..|form.projectName|] == form.projectName && name[|form.projectName|] == '_'
    ensures name[|name| - 4..] == ".pdf"
  {
    form.projectName + "_" + form.floor + "_" + form.roomNumber + ".pdf"
  }

  /**
   * When neither the project name nor the floor contains `_`, the file name
   * gives back the project name, the floor and the room number.
   */
  lemma FilenameDeterminesHeader(f: FormData, g: FormData)
    requires '_' !in f.projectName && '_' !in f.floor && '_' !in g.projectName && '_' !in g.floor
    requires Filename(f) == Filename(g)
    ensures f.projectName == g.projectName && f.floor == g.floor && f.roomNumber == g.roomNumber
  {
    var name := Filename(f);
    assert name[..|name| - 4] == f.projectName + "_" + (f.floor + "_" + f.roomNumber);
    assert name[..|name| - 4] == g.projectName + "_" + (g.floor + "_" + g.roomNumber);
    SplitAtFirstSeparator(f.projectName, f.floor + "_" + f.roomNumber, g.projectName, g.floor + "_" + g.roomNumber);
    SplitAtFirstSeparator(f.floor, f.roomNumber, g.floor, g.roomNumber);
  }

  /** Cut after `x`, the string has a `_` where `z`, which has none, has a character of its own. */
  lemma SeparatorAt(x: string, y: string, z: string, w: string, i: nat)
    requires '_' !in z && i == |x| < |z|
    ensures (x + "_" + y)[i] == '_' && (z + "_" + w)[i] == z[i] != '_'
  {
  }

  /** Two strings cut at their first `_` have equal heads and equal tails. */
  lemma SplitAtFirstSeparator(x: string, y: string, z: string, w: string)
    requires '_' !in x && '_' !in z && x + "_" + y == z + "_" + w
    ensures x == z && y == w
  {
    var s := x + "_" + y;
    if |x| < |z| {
      SeparatorAt(x, y, z, w, |x|);
      assert false;
    } else if |z| < |x| {
      SeparatorAt(z, w, x, y, |z|);
      assert false;
    }
    assert x == s[..|x|] == z;
    assert y == s[|x| + 1..] == w;
  }

  // Label mappings of the main page.

  const OtherLabel := "อื่นๆ"
  const StructuralLabel := "ความเสียหายเชิงโครงสร้าง"

  /** The damage type in the page title: water, electric and structural have their own label. */
  function TitleTypeLabel(kind: Option<DamageType>): (shown: string)
    ensures shown == OtherLabel <==> kind !in {Some(Water), Some(Electric), Some(Structural)}
    ensures shown == StructuralLabel <==> kind == Some(Structural)
  {
    if kind == Some(Water) then "ระบบน้ำ"
    else if kind == Some(Electric) then "ระบบไฟฟ้า"
    else if kind == Some(Structural) then StructuralLabel
    else OtherLabel
  }

  /** The damage type in the detail row; water reads "ระบบประปา" there, unlike the title. */
  function DetailTypeLabel(kind: Option<DamageType>): (shown: string)
    ensures shown == OtherLabel <==> kind !in {Some(Water), Some(Electric), Some(Structural)}
    ensures kind != Some(Water) ==> shown == TitleTypeLabel(kind)
    ensures kind == Some(Water) ==> shown != TitleTypeLabel(kind)
  {
    if kind == Some(Water) then "ระบบประปา"
    else if kind == Some(Electric) then "ระบบไฟฟ้า"
    else if kind == Some(Structural) then StructuralLabel
    else OtherLabel
  }

  /** The room label: the known kinds, the `storage` and `balcony` tags, the free text of `other`, else "อื่นๆ". */
  function RoomLabel(room: RoomType, otherRoom: string): (shown: string)
    ensures room == OtherRoom && otherRoom != "" ==> shown == otherRoom
    ensures shown == OtherLabel <==>
      (room.UnknownRoom? && room.tag !in {"storage", "balcony"}) || (room == OtherRoom && otherRoom in {"", OtherLabel})
  {
    match room
    case LivingRoom => "ห้องนั่งเล่น"
    case Bedroom => "ห้องนอน"
    case Kitchen => "ห้องครัว"
    case Bathroom => "ห้องน้ำ"
    case UnknownRoom(tag) =>
      if tag == "storage" then "ห้องเก็บของ" else if tag == "balcony" then "ระเบียง" else OtherLabel
    case OtherRoom => if otherRoom != "" then otherRoom else OtherLabel
  }

  /** The room row (`damage.room && ...`): shown only when a room is set, with that room's label. */
  function RoomRow(d: DamageDetail): (row: Option<string>)
    ensures row.Some? <==> d.room.Some?
    ensures row.Some? ==> row.value == RoomLabel(d.room.value, d.otherRoom)
  {
    match d.room
    case None => None
    case Some(room) => Some(RoomLabel(room, d.otherRoom))
  }

  /** The structural-area label; `other` with free text shows that text. */
  function StructuralAreaLabel(area: string, otherArea: string): (shown: string)
    ensures area == "other" && otherArea != "" ==> shown == otherArea
    ensures area !in {"ceiling", "wall", "floor", "baseboard", "door", "doorFrame", "other"} ==> shown == OtherLabel
  {
    if area == "ceiling" then "ฝ้าเพดาน"
    else if area == "wall" then "ผนัง"
    else if area == "floor" then "พื้น"
    else if area == "baseboard" then "ขอบบัวด้านล่าง"
    else if area == "door" then "ประตู"
    else if area == "doorFrame" then "วงกบประตู"
    else if area == "other" && otherArea != "" then otherArea
    else OtherLabel
  }

  /** The structural-area row is shown only for a structural damage with an area set. */
  function StructuralAreaRow(d: DamageDetail): (row: Option<string>)
    ensures row.Some? <==> d.kind == Some(Structural) && d.structuralDamageArea != ""
    ensures row.Some? ==> row.value == StructuralAreaLabel(d.structuralDamageArea, d.otherStructuralDamageArea)
  {
    if d.kind == Some(Structural) && d.structuralDamageArea != "" then
      Some(StructuralAreaLabel(d.structuralDamageArea, d.otherStructuralDamageArea))
    else None
  }
}

/**
 * The report record filled in by the form: a header, and an ordered list of
 * damages each carrying an ordered list of images.  Besides the fields the
 * type declarations name, it carries the header fields (`projectName`,
 * `floor`, `phoneNumber`, `email`) and damage fields (`otherRoom`,
 * `structuralDamageArea`, `otherStructuralDamageArea`) that the generators
 * read, and the `structural` damage type they test for.
 */
module Types {
  import opened Wrappers

  /** The damage category; `UnknownType` stands for any other tag (never one of the four). */
  datatype DamageType = Water | Electric | Other | Structural | UnknownType(tag: string)

  datatype ResidenceType = Owner | Renter

  /** The room kind; `UnknownRoom` stands for any other tag, such as `storage` or `balcony`. */
  datatype RoomType = LivingRoom | Bedroom | Kitchen | Bathroom | OtherRoom | UnknownRoom(tag: string)

  /** An uploaded file, opaque to the core. */
  datatype FileRef = FileRef(handle: nat)

  datatype DamageImage = DamageImage(id: string, name: Option<string>, file: Option<FileRef>, preview: string)

  /**
   * One damage.  `kind` is the `type` property; `None` is a missing or empty
   * one.  The optional text fields `otherRoom`, `structuralDamageArea` and
   * `otherStructuralDamageArea` are `""` when absent, which is how the
   * generators treat them (they only test them for truthiness).
   */
  datatype DamageDetail = DamageDetail(
    id: string,
    kind: Option<DamageType>,
    room: Option<RoomType>,
    otherRoom: string,
    location: string,
    description: string,
    images: seq<DamageImage>,
    structuralDamageArea: string,
    otherStructuralDamageArea: string)

  /** The whole report; the order of `damages` is the order of the report. */
  datatype FormData = FormData(
    roomNumber: string,
    residentName: string,
    residenceType: ResidenceType,
    damages: seq<DamageDetail>,
    projectName: string,
    floor: string,
    phoneNumber: string,
    email: string)

  /** An image after conversion: which image, of which damage, and its data URL. */
  datatype ProcessedImage = ProcessedImage(id: string, damageId: string, base64: string)

  /** No two damages share an id (ids come from a UUID generator). */
  predicate DistinctIds(ds: seq<DamageDetail>) {
    forall i, j :: 0 <= i < j < |ds| ==> ds[i].id != ds[j].id
  }

  /** `processed.filter(img => img.damageId === damageId)`: the images of one damage, in order. */
  function ImagesOf(processed: seq<ProcessedImage>, damageId: string): (r: seq<ProcessedImage>)
    ensures |r| <= |processed|
    ensures forall k :: 0 <= k < |r| ==> r[k].damageId == damageId
  {
    if |processed| == 0 then []
    else
      var last := processed[|processed| - 1];
      ImagesOf(processed[..|processed| - 1], damageId) + (if last.damageId == damageId then [last] else [])
  }

  /** The images of a damage are exactly the processed images that name it. */
  lemma {:induction false} ImagesOfMembers(processed: seq<ProcessedImage>, damageId: string)
    ensures forall p :: p in ImagesOf(processed, damageId) <==> p in processed && p.damageId == damageId
  {
    if |processed| > 0 {
      ImagesOfMembers(processed[..|processed| - 1], damageId);
      assert processed == processed[..|processed| - 1] + [processed[|processed| - 1]];
    }
  }

  /** Selecting one damage's images distributes over concatenation. */
  lemma {:induction false} ImagesOfAppend(a: seq<ProcessedImage>, b: seq<ProcessedImage>, damageId: string)
    ensures ImagesOf(a + b, damageId) == ImagesOf(a, damageId) + ImagesOf(b, damageId)
    decreases |b|
  {
    if |b| == 0 {
      assert a + b == a;
    } else {
      assert (a + b)[..|a + b| - 1] == a + b[..|b| - 1];
      ImagesOfAppend(a, b[..|b| - 1], damageId);
    }
  }

  /** A list of one damage's images is its own selection. */
  lemma {:induction false} ImagesOfWhole(processed: seq<ProcessedImage>, damageId: string)
    requires forall k :: 0 <= k < |processed| ==> processed[k].damageId == damageId
    ensures ImagesOf(processed, damageId) == processed
  {
    if |processed| > 0 {
      var init := processed[..|processed| - 1];
      ImagesOfWhole(init, damageId);
      assert processed == init + [processed[|processed| - 1]];
    }
  }

  /** A list with none of the damage's images selects nothing. */
  lemma {:induction false} ImagesOfNone(processed: seq<ProcessedImage>, damageId: string)
    requires forall k :: 0 <= k < |processed| ==> processed[k].damageId != damageId
    ensures ImagesOf(processed, damageId) == []
  {
    if |processed| > 0 {
      ImagesOfNone(processed[..|processed| - 1], damageId);
    }
  }

  /** Appending the images of damage `other` adds them to the selection for `damageId` exactly when the two ids agree. */
  lemma ImagesOfStep(before: seq<ProcessedImage>, added: seq<ProcessedImage>, other: string, damageId: string)
    requires forall k :: 0 <= k < |added| ==> added[k].damageId == other
    ensures ImagesOf(before + added, damageId) == ImagesOf(before, damageId) + (if other == damageId then added else [])
  {
    ImagesOfAppend(before, added, damageId);
    if other == damageId {
      ImagesOfWhole(added, damageId);
    } else {
      ImagesOfNone(added, damageId);
    }
  }

  /** The label of the residence type, the same in both generators: only `owner` reads as owner. */
  function ResidenceLabel(r: ResidenceType): (shown: string)
    ensures shown == "เจ้าของห้อง" <==> r == Owner
    ensures shown == "ผู้เช่า" <==> r != Owner
  {
    if r == Owner then "เจ้าของห้อง" else "ผู้เช่า"
  }
}

/**
 * The form's state updates.  Every update builds a new report record from
 * the previous one (add, update and delete of damages and of their images,
 * each keyed by id), `validateForm` decides whether a report may be
 * generated, and a cleaning pass prepares the record for the generator.
 * Fresh ids, files and preview URLs are parameters.
 */
module App {
  import opened Wrappers
  import opened Types
  import opened Text
  import HtmlPdf

  // Validation.

  /** A damage the report can be generated with: it has a location and a type. */
  predicate DamageComplete(d: DamageDetail) {
    d.location != [] && d.kind.Some?
  }

  /** The error flags shown under the two required header fields. */
  datatype Errors = Errors(roomNumber: bool, residentName: bool)

  /** The flags `validateForm` sets: a required field is in error when it trims to nothing. */
  function ValidationErrors(form: FormData): (e: Errors)
    ensures e.roomNumber <==> AllSpace(form.roomNumber)
    ensures e.residentName <==> AllSpace(form.residentName)
  {
    Errors(Trim(form.roomNumber) == [], Trim(form.residentName) == [])
  }

  /**
   * `validateForm`: the room number and the resident's name hold more than
   * white space, there is at least one damage, and every damage has a
   * location and a type.
   */
  function Validate(form: FormData): (valid: bool)
    ensures valid <==>
      && !AllSpace(form.roomNumber)
      && !AllSpace(form.residentName)
      && (forall d :: d in form.damages ==> d.location != [] && d.kind.Some?)
      && |form.damages| > 0
  {
    var errors := ValidationErrors(form);
    !errors.roomNumber && !errors.residentName &&
    (forall d :: d in form.damages ==> DamageComplete(d)) &&
    |form.damages| > 0
  }

  // Header fields.

  /** The text fields of the header. */
  datatype TextField = RoomNumberField | ResidentNameField | ProjectNameField | FloorField | PhoneNumberField | EmailField

  function FieldValue(form: FormData, field: TextField): string {
    match field
    case RoomNumberField => form.roomNumber
    case ResidentNameField => form.residentName
    case ProjectNameField => form.projectName
    case FloorField => form.floor
    case PhoneNumberField => form.phoneNumber
    case EmailField => form.email
  }

  /**
   * `handleTextChange`: the named field takes the value and nothing else in
   * the record changes; for the two required fields the field's error flag
   * becomes "the value trims to nothing", the other flag is kept.
   */
  function TextChange(form: FormData, errors: Errors, field: TextField, value: string): (r: (FormData, Errors))
    ensures FieldValue(r.0, field) == value
    ensures r.0.residenceType == form.residenceType && r.0.damages == form.damages
    ensures field == RoomNumberField ==> r.1 == Errors(AllSpace(value), errors.residentName)
    ensures field == ResidentNameField ==> r.1 == Errors(errors.roomNumber, AllSpace(value))
    ensures field !in {RoomNumberField, ResidentNameField} ==> r.1 == errors
  {
    match field
    case RoomNumberField => (form.(roomNumber := value), errors.(roomNumber := Trim(value) == []))
    case ResidentNameField => (form.(residentName := value), errors.(residentName := Trim(value) == []))
    case ProjectNameField => (form.(projectName := value), errors)
    case FloorField => (form.(floor := value), errors)
    case PhoneNumberField => (form.(phoneNumber := value), errors)
    case EmailField => (form.(email := value), errors)
  }

  /** A text change leaves every other text field as it was. */
  lemma TextChangeKeepsOthers(form: FormData, errors: Errors, field: TextField, value: string, other: TextField)
    requires other != field
    ensures FieldValue(TextChange(form, errors, field, value).0, other) == FieldValue(form, other)
  {
    var f := TextChange(form, errors, field, value).0;
    match field
    case RoomNumberField => assert f == form.(roomNumber := value);
    case ResidentNameField => assert f == form.(residentName := value);
    case ProjectNameField => assert f == form.(projectName := value);
    case FloorField => assert f == form.(floor := value);
    case PhoneNumberField => assert f == form.(phoneNumber := value);
    case EmailField => assert f == form.(email := value);
  }

  /** The flag a text change sets for a required field is the one validation would set on the new record. */
  lemma TextChangeFlagsAgree(form: FormData, errors: Errors, field: TextField, value: string)
    requires field in {RoomNumberField, ResidentNameField}
    ensures var (f, e) := TextChange(form, errors, field, value);
      field == RoomNumberField ==> e.roomNumber == ValidationErrors(f).roomNumber
    ensures var (f, e) := TextChange(form, errors, field, value);
      field == ResidentNameField ==> e.residentName == ValidationErrors(f).residentName
  {
  }

  /** `handleResidenceTypeChange`: only the residence type changes. */
  function SetResidenceType(form: FormData, value: ResidenceType): (r: FormData)
    ensures r.residenceType == value
    ensures r.(residenceType := form.residenceType) == form
  {
    form.(residenceType := value)
  }

  // Damages.

  /** The damage `handleAddDamage` creates: type `other`, no room, empty texts, no images. */
  function NewDamage(id: string): (d: DamageDetail)
    ensures d.id == id && d.kind == Some(Other) && d.room == None
    ensures d.location == [] && d.description == [] && d.images == []
  {
    DamageDetail(id, Some(Other), None, "", "", "", [], "", "")
  }

  /** `handleAddDamage`: one new damage at the end, everything before it unchanged. */
  function AddDamage(form: FormData, newId: string): (r: FormData)
    ensures |r.damages| == |form.damages| + 1
    ensures r.damages[..|form.damages|] == form.damages
    ensures r.damages[|form.damages|] == NewDamage(newId)
    ensures r.(damages := form.damages) == form
  {
    form.(damages := form.damages + [NewDamage(newId)])
  }

  /** A freshly added damage has no location yet, so the form is not valid until it is filled in. */
  lemma AddedDamageBlocksValidation(form: FormData, newId: string)
    ensures !Validate(AddDamage(form, newId))
  {
    var r := AddDamage(form, newId);
    assert r.damages[|form.damages|] in r.damages;
  }

  /** A fresh id keeps damage ids distinct. */
  lemma AddDamageKeepsIdsDistinct(form: FormData, newId: string)
    requires DistinctIds(form.damages)
    requires forall d :: d in form.damages ==> d.id != newId
    ensures DistinctIds(AddDamage(form, newId).damages)
  {
    var ds := AddDamage(form, newId).damages;
    forall i, j | 0 <= i < j < |ds| ensures ds[i].id != ds[j].id {
      if j == |form.damages| {
        assert ds[i] == form.damages[i];
        assert form.damages[i] in form.damages;
      } else {
        assert ds[i] == form.damages[i] && ds[j] == form.damages[j];
      }
    }
  }

  /**
   * A `Partial<DamageDetail>`: each field either absent (`None`) or the new
   * value.  Type and room are themselves optional, so they nest.
   */
  datatype DamagePatch = DamagePatch(
    id: Option<string>,
    kind: Option<Option<DamageType>>,
    room: Option<Option<RoomType>>,
    otherRoom: Option<string>,
    location: Option<string>,
    description: Option<string>,
    images: Option<seq<DamageImage>>,
    structuralDamageArea: Option<string>,
    otherStructuralDamageArea: Option<string>)

  /** The patch with no field. */
  const EmptyPatch := DamagePatch(None, None, None, None, None, None, None, None, None)

  function Pick<T>(p: Option<T>, current: T): T {
    if p.Some? then p.value else current
  }

  /** `{ ...damage, ...patch }`: a field of the patch wins, every other field is the damage's. */
  function Merge(d: DamageDetail, p: DamagePatch): (r: DamageDetail)
    ensures r.id == if p.id.Some? then p.id.value else d.id
    ensures r.kind == if p.kind.Some? then p.kind.value else d.kind
    ensures r.room == if p.room.Some? then p.room.value else d.room
    ensures r.otherRoom == if p.otherRoom.Some? then p.otherRoom.value else d.otherRoom
    ensures r.location == if p.location.Some? then p.location.value else d.location
    ensures r.description == if p.description.Some? then p.description.value else d.description
    ensures r.images == if p.images.Some? then p.images.value else d.images
    ensures r.structuralDamageArea == if p.structuralDamageArea.Some? then p.structuralDamageArea.value else d.structuralDamageArea
    ensures r.otherStructuralDamageArea ==
      if p.otherStructuralDamageArea.Some? then p.otherStructuralDamageArea.value else d.otherStructuralDamageArea
  {
    DamageDetail(
      Pick(p.id, d.id), Pick(p.kind, d.kind), Pick(p.room, d.room), Pick(p.otherRoom, d.otherRoom),
      Pick(p.location, d.location), Pick(p.description, d.description), Pick(p.images, d.images),
      Pick(p.structuralDamageArea, d.structuralDamageArea),
      Pick(p.otherStructuralDamageArea, d.otherStructuralDamageArea))
  }

  /** Merging is idempotent, and the empty patch changes nothing. */
  lemma MergeProperties(d: DamageDetail, p: DamagePatch)
    ensures Merge(Merge(d, p), p) == Merge(d, p)
    ensures Merge(d, EmptyPatch) == d
  {
  }

  /** `handleUpdateDamage`: the damages with that id get the patch merged in; length, order and all other damages stay. */
  function UpdateDamage(form: FormData, id: string, patch: DamagePatch): (r: FormData)
    ensures |r.damages| == |form.damages|
    ensures forall i :: 0 <= i < |form.damages| && form.damages[i].id != id ==> r.damages[i] == form.damages[i]
    ensures forall i :: 0 <= i < |form.damages| && form.damages[i].id == id ==> r.damages[i] == Merge(form.damages[i], patch)
    ensures r.(damages := form.damages) == form
  {
    var ds := form.damages;
    form.(damages := seq(|ds|, i requires 0 <= i < |ds| => if ds[i].id == id then Merge(ds[i], patch) else ds[i]))
  }

  /** Applying the same patch twice is applying it once; the empty patch is no change. */
  lemma UpdateDamageIdempotent(form: FormData, id: string, patch: DamagePatch)
    ensures UpdateDamage(UpdateDamage(form, id, patch), id, patch) == UpdateDamage(form, id, patch)
    ensures UpdateDamage(form, id, EmptyPatch) == form
  {
    var once := UpdateDamage(form, id, patch);
    var twice := UpdateDamage(once, id, patch);
    forall i | 0 <= i < |form.damages| ensures twice.damages[i] == once.damages[i] {
      MergeProperties(form.damages[i], patch);
    }
    var none := UpdateDamage(form, id, EmptyPatch);
    forall i | 0 <= i < |form.damages| ensures none.damages[i] == form.damages[i] {
      MergeProperties(form.damages[i], patch);
    }
  }

  /** `handleDamageTypeChange`: ticking a type sets it, unticking sets `other`. */
  function TypeChangePatch(t: DamageType, checked: bool): (p: DamagePatch)
    ensures p.kind == Some(Some(if checked then t else Other))
    ensures p.(kind := None) == EmptyPatch
  {
    EmptyPatch.(kind := Some(Some(if checked then t else Other)))
  }

  /** After a type change the damage always has a type, whether the box was ticked or not. */
  lemma TypeChangeKeepsType(form: FormData, id: string, t: DamageType, checked: bool)
    ensures forall d :: d in UpdateDamage(form, id, TypeChangePatch(t, checked)).damages && d.id == id ==> d.kind.Some?
  {
  }

  /** `damages.filter(damage => damage.id !== id)`. */
  function WithoutDamage(ds: seq<DamageDetail>, id: string): (r: seq<DamageDetail>)
    ensures |r| <= |ds|
  {
    if |ds| == 0 then []
    else WithoutDamage(ds[..|ds| - 1], id) + (if ds[|ds| - 1].id == id then [] else [ds[|ds| - 1]])
  }

  /** Filtering keeps exactly the damages with another id. */
  lemma {:induction false} WithoutDamageMembers(ds: seq<DamageDetail>, id: string)
    ensures forall d :: d in WithoutDamage(ds, id) <==> d in ds && d.id != id
  {
    if |ds| > 0 {
      WithoutDamageMembers(ds[..|ds| - 1], id);
      assert ds == ds[..|ds| - 1] + [ds[|ds| - 1]];
    }
  }

  /** Filtering distributes over concatenation. */
  lemma {:induction false} WithoutDamageAppend(a: seq<DamageDetail>, b: seq<DamageDetail>, id: string)
    ensures WithoutDamage(a + b, id) == WithoutDamage(a, id) + WithoutDamage(b, id)
    decreases |b|
  {
    if |b| == 0 {
      assert a + b == a;
    } else {
      var front, last := b[..|b| - 1], b[|b| - 1];
      assert b == front + [last];
      assert a + b == (a + front) + [last];
      WithoutDamageAppend(a, front, id);
      WithoutDamageSnoc(a + front, last, id);
      WithoutDamageSnoc(front, last, id);
      ConcatAssociates(WithoutDamage(a, id), WithoutDamage(front, id), if last.id == id then [] else [last]);
    }
  }

  /** One more damage is kept at the end exactly when its id differs. */
  lemma WithoutDamageSnoc(ds: seq<DamageDetail>, x: DamageDetail, id: string)
    ensures WithoutDamage(ds + [x], id) == WithoutDamage(ds, id) + (if x.id == id then [] else [x])
  {
    assert (ds + [x])[..|ds + [x]| - 1] == ds;
  }

  /** No damage of the list carries the id. */
  predicate NoDamageWithId(ds: seq<DamageDetail>, id: string) {
    forall d :: d in ds ==> d.id != id
  }

  /** Filtering keeps a list that has no damage with that id. */
  lemma {:induction false} WithoutAbsentDamage(ds: seq<DamageDetail>, id: string)
    requires NoDamageWithId(ds, id)
    ensures WithoutDamage(ds, id) == ds
  {
    if |ds| > 0 {
      var init, last := ds[..|ds| - 1], ds[|ds| - 1];
      assert ds == init + [last];
      assert last in ds;
      WithoutAbsentDamage(init, id);
    }
  }

  /** `handleDeleteDamage`: the damages with that id are removed, the rest keep their order. */
  function DeleteDamage(form: FormData, id: string): (r: FormData)
    ensures forall d :: d in r.damages ==> d.id != id
    ensures r.(damages := form.damages) == form
  {
    WithoutDamageMembers(form.damages, id);
    form.(damages := WithoutDamage(form.damages, id))
  }

  /** With distinct ids, no damage other than entry `i` carries its id. */
  lemma OthersLackId(ds: seq<DamageDetail>, i: nat)
    requires i < |ds| && DistinctIds(ds)
    ensures NoDamageWithId(ds[..i], ds[i].id)
    ensures NoDamageWithId(ds[i + 1..], ds[i].id)
  {
    forall d | d in ds[..i] ensures d.id != ds[i].id {
      var k :| 0 <= k < i && ds[..i][k] == d;
    }
    forall d | d in ds[i + 1..] ensures d.id != ds[i].id {
      var k :| 0 <= k < |ds| - i - 1 && ds[i + 1..][k] == d;
      assert d == ds[i + 1 + k];
    }
  }

  /** Filtering out the id of a damage that no other entry carries leaves the entries around it. */
  lemma WithoutOnlyDamage(pre: seq<DamageDetail>, x: DamageDetail, post: seq<DamageDetail>)
    requires NoDamageWithId(pre, x.id) && NoDamageWithId(post, x.id)
    ensures WithoutDamage(pre + [x] + post, x.id) == pre + post
  {
    WithoutLastDamage(pre, x);
    WithoutAbsentDamage(post, x.id);
    WithoutDamageAppend(pre + [x], post, x.id);
  }

  /** Filtering out the id of the last damage, which no earlier entry carries, leaves the earlier ones. */
  lemma WithoutLastDamage(pre: seq<DamageDetail>, x: DamageDetail)
    requires NoDamageWithId(pre, x.id)
    ensures WithoutDamage(pre + [x], x.id) == pre
  {
    WithoutAbsentDamage(pre, x.id);
    WithoutDamageSnoc(pre, x, x.id);
    assert pre + [] == pre;
  }

  /** With distinct ids, deleting a damage removes exactly that one entry. */
  lemma DeleteDamageRemovesOne(form: FormData, i: nat)
    requires i < |form.damages| && DistinctIds(form.damages)
    ensures DeleteDamage(form, form.damages[i].id).damages == form.damages[..i] + form.damages[i + 1..]
  {
    var ds := form.damages;
    OthersLackId(ds, i);
    assert ds == ds[..i] + [ds[i]] + ds[i + 1..];
    WithoutOnlyDamage(ds[..i], ds[i], ds[i + 1..]);
  }

  /** Deleting a just-added damage under a fresh id gives back the record. */
  lemma DeleteUndoesAdd(form: FormData, newId: string)
    requires forall d :: d in form.damages ==> d.id != newId
    ensures DeleteDamage(AddDamage(form, newId), newId) == form
  {
    WithoutDamageAppend(form.damages, [NewDamage(newId)], newId);
    WithoutAbsentDamage(form.damages, newId);
  }

  // Images.

  /** The images `handleAddDamageImage` makes of the chosen files: one per file, in order, with a fresh id and preview URL each. */
  function NewImages(files: seq<FileRef>, ids: seq<string>, previews: seq<string>): (imgs: seq<DamageImage>)
    requires |ids| == |files| && |previews| == |files|
    ensures |imgs| == |files|
    ensures forall k :: 0 <= k < |files| ==>
      imgs[k].id == ids[k] && imgs[k].file == Some(files[k]) && imgs[k].preview == previews[k]
  {
    seq(|files|, k requires 0 <= k < |files| => DamageImage(ids[k], None, Some(files[k]), previews[k]))
  }

  /** `handleAddDamageImage`: the new images go after the existing ones, on the damages with that id only. */
  function AddDamageImages(form: FormData, damageId: string, newImages: seq<DamageImage>): (r: FormData)
    ensures |r.damages| == |form.damages|
    ensures forall i :: 0 <= i < |form.damages| ==>
      r.damages[i].(images := form.damages[i].images) == form.damages[i]
    ensures forall i :: 0 <= i < |form.damages| ==>
      r.damages[i].images == if form.damages[i].id == damageId then form.damages[i].images + newImages else form.damages[i].images
    ensures r.(damages := form.damages) == form
  {
    var ds := form.damages;
    form.(damages := seq(|ds|, i requires 0 <= i < |ds| =>
      if ds[i].id == damageId then ds[i].(images := ds[i].images + newImages) else ds[i]))
  }

  /** `images.filter(img => img.id !== imageId)`. */
  function WithoutImage(imgs: seq<DamageImage>, imageId: string): (r: seq<DamageImage>)
    ensures |r| <= |imgs|
  {
    if |imgs| == 0 then []
    else WithoutImage(imgs[..|imgs| - 1], imageId) + (if imgs[|imgs| - 1].id == imageId then [] else [imgs[|imgs| - 1]])
  }

  /** Filtering keeps exactly the images with another id. */
  lemma {:induction false} WithoutImageMembers(imgs: seq<DamageImage>, imageId: string)
    ensures forall m :: m in WithoutImage(imgs, imageId) <==> m in imgs && m.id != imageId
  {
    if |imgs| > 0 {
      WithoutImageMembers(imgs[..|imgs| - 1], imageId);
      assert imgs == imgs[..|imgs| - 1] + [imgs[|imgs| - 1]];
    }
  }

  /** Filtering distributes over concatenation. */
  lemma {:induction false} WithoutImageAppend(a: seq<DamageImage>, b: seq<DamageImage>, imageId: string)
    ensures WithoutImage(a + b, imageId) == WithoutImage(a, imageId) + WithoutImage(b, imageId)
    decreases |b|
  {
    if |b| == 0 {
      assert a + b == a;
    } else {
      var front, last := b[..|b| - 1], b[|b| - 1];
      assert b == front + [last];
      assert a + b == (a + front) + [last];
      WithoutImageAppend(a, front, imageId);
      WithoutImageSnoc(a + front, last, imageId);
      WithoutImageSnoc(front, last, imageId);
      ConcatAssociates(WithoutImage(a, imageId), WithoutImage(front, imageId), if last.id == imageId then [] else [last]);
    }
  }

  /** One more image is kept at the end exactly when its id differs. */
  lemma WithoutImageSnoc(imgs: seq<DamageImage>, img: DamageImage, imageId: string)
    ensures WithoutImage(imgs + [img], imageId) == WithoutImage(imgs, imageId) + (if img.id == imageId then [] else [img])
  {
    assert (imgs + [img])[..|imgs + [img]| - 1] == imgs;
  }

  /** Filtering keeps a list that has no image with that id. */
  lemma {:induction false} WithoutAbsentImage(imgs: seq<DamageImage>, imageId: string)
    requires forall m :: m in imgs ==> m.id != imageId
    ensures WithoutImage(imgs, imageId) == imgs
  {
    if |imgs| > 0 {
      var init, last := imgs[..|imgs| - 1], imgs[|imgs| - 1];
      assert imgs == init + [last];
      assert last in imgs;
      WithoutAbsentImage(init, imageId);
    }
  }

  /** `handleDeleteDamageImage`: the image with that id leaves the damages with that id; other images and damages stay. */
  function DeleteDamageImage(form: FormData, damageId: string, imageId: string): (r: FormData)
    ensures |r.damages| == |form.damages|
    ensures forall i :: 0 <= i < |form.damages| ==>
      r.damages[i].(images := form.damages[i].images) == form.damages[i]
    ensures forall i :: 0 <= i < |form.damages| && form.damages[i].id != damageId ==>
      r.damages[i] == form.damages[i]
    ensures forall i, m :: 0 <= i < |form.damages| && form.damages[i].id == damageId ==>
      (m in r.damages[i].images <==> m in form.damages[i].images && m.id != imageId)
    ensures r.(damages := form.damages) == form
  {
    var ds := form.damages;
    var r := form.(damages := seq(|ds|, i requires 0 <= i < |ds| =>
      if ds[i].id == damageId then ds[i].(images := WithoutImage(ds[i].images, imageId)) else ds[i]));
    assert forall i :: 0 <= i < |ds| && ds[i].id == damageId ==> r.damages[i].images == WithoutImage(ds[i].images, imageId);
    forall i | 0 <= i < |ds| && ds[i].id == damageId {
      WithoutImageMembers(ds[i].images, imageId);
    }
    r
  }

  /** Deleting an image just added under an id the damage did not use gives back the record. */
  lemma DeleteImageUndoesAdd(form: FormData, damageId: string, img: DamageImage)
    requires forall d, m :: d in form.damages && d.id == damageId && m in d.images ==> m.id != img.id
    ensures DeleteDamageImage(AddDamageImages(form, damageId, [img]), damageId, img.id) == form
  {
    var added := AddDamageImages(form, damageId, [img]);
    var r := DeleteDamageImage(added, damageId, img.id);
    forall i | 0 <= i < |form.damages| ensures r.damages[i] == form.damages[i] {
      var d := form.damages[i];
      if d.id == damageId {
        assert d in form.damages;
        assert added.damages[i].images == d.images + [img];
        WithoutImageAppend(d.images, [img], img.id);
        WithoutAbsentImage(d.images, img.id);
        assert WithoutImage([img], img.id) == [];
        assert r.damages[i].images == WithoutImage(added.damages[i].images, img.id);
      }
    }
  }

  /** Two records that differ at most in the images of their damages. */
  predicate SameButImages(form: FormData, r: FormData) {
    && |r.damages| == |form.damages|
    && (forall i :: 0 <= i < |form.damages| ==> r.damages[i].(images := form.damages[i].images) == form.damages[i])
    && r.(damages := form.damages) == form
  }

  /** Validation does not look at images. */
  lemma SameButImagesValidity(form: FormData, r: FormData)
    requires SameButImages(form, r)
    ensures Validate(r) == Validate(form)
  {
    assert r.roomNumber == form.roomNumber && r.residentName == form.residentName;
    forall i | 0 <= i < |form.damages|
      ensures DamageComplete(r.damages[i]) == DamageComplete(form.damages[i])
    {
      var same := r.damages[i].(images := form.damages[i].images);
      assert same.location == r.damages[i].location && same.kind == r.damages[i].kind;
    }
    if forall d :: d in form.damages ==> DamageComplete(d) {
      forall d | d in r.damages ensures DamageComplete(d) {
        var i :| 0 <= i < |r.damages| && r.damages[i] == d;
        assert form.damages[i] in form.damages;
      }
    }
    if forall d :: d in r.damages ==> DamageComplete(d) {
      forall d | d in form.damages ensures DamageComplete(d) {
        var i :| 0 <= i < |form.damages| && form.damages[i] == d;
        assert r.damages[i] in r.damages;
      }
    }
  }

  /** Image edits touch no field validation looks at. */
  lemma ImageEditsKeepValidity(form: FormData, damageId: string, imgs: seq<DamageImage>, imageId: string)
    ensures Validate(AddDamageImages(form, damageId, imgs)) == Validate(form)
    ensures Validate(DeleteDamageImage(form, damageId, imageId)) == Validate(form)
  {
    SameButImagesValidity(form, AddDamageImages(form, damageId, imgs));
    SameButImagesValidity(form, DeleteDamageImage(form, damageId, imageId));
  }

  // Preparing the record for the generator.

  /** The images kept for the generator: those with a file, each with its preview cleared, in order. */
  function CleanImages(imgs: seq<DamageImage>): (r: seq<DamageImage>)
    ensures |r| <= |imgs|
    ensures forall k :: 0 <= k < |r| ==> r[k].file.Some? && r[k].preview == []
    decreases |imgs|
  {
    if |imgs| == 0 then []
    else
      var last := imgs[|imgs| - 1];
      CleanImages(imgs[..|imgs| - 1]) + (if last.file.Some? then [last.(preview := "")] else [])
  }

  /** A damage as handed to the generator: a missing type becomes `other`, and only images with a file are kept. */
  function CleanDamage(d: DamageDetail): (r: DamageDetail)
    ensures r.kind == Some(if d.kind.Some? then d.kind.value else Other)
    ensures r.(kind := d.kind, images := d.images) == d
  {
    d.(kind := Some(if d.kind.Some? then d.kind.value else Other), images := CleanImages(d.images))
  }

  /** The `pdfData` record: the header unchanged, every damage cleaned, in order. */
  function CleanForPdf(form: FormData): (r: FormData)
    ensures |r.damages| == |form.damages|
    ensures forall i :: 0 <= i < |form.damages| ==> r.damages[i] == CleanDamage(form.damages[i])
    ensures r.(damages := form.damages) == form
  {
    var ds := form.damages;
    form.(damages := seq(|ds|, i requires 0 <= i < |ds| => CleanDamage(ds[i])))
  }

  /** Cleaning an already clean list of images changes nothing. */
  lemma {:induction false} CleanImagesIdempotent(imgs: seq<DamageImage>)
    ensures CleanImages(CleanImages(imgs)) == CleanImages(imgs)
    decreases |imgs|
  {
    if |imgs| > 0 {
      var front := imgs[..|imgs| - 1];
      var last := imgs[|imgs| - 1];
      CleanImagesIdempotent(front);
      CleanImagesAppend(CleanImages(front), if last.file.Some? then [last.(preview := "")] else []);
    }
  }

  lemma {:induction false} CleanImagesAppend(a: seq<DamageImage>, b: seq<DamageImage>)
    ensures CleanImages(a + b) == CleanImages(a) + CleanImages(b)
    decreases |b|
  {
    if |b| == 0 {
      assert a + b == a;
    } else {
      var front, last := b[..|b| - 1], b[|b| - 1];
      assert b == front + [last];
      assert a + b == (a + front) + [last];
      CleanImagesAppend(a, front);
      CleanImagesSnoc(a + front, last);
      CleanImagesSnoc(front, last);
      ConcatAssociates(CleanImages(a), CleanImages(front), if last.file.Some? then [last.(preview := "")] else []);
    }
  }

  /** One more image is kept, preview cleared, at the end exactly when it has a file. */
  lemma CleanImagesSnoc(imgs: seq<DamageImage>, img: DamageImage)
    ensures CleanImages(imgs + [img]) == CleanImages(imgs) + (if img.file.Some? then [img.(preview := "")] else [])
  {
    assert (imgs + [img])[..|imgs + [img]| - 1] == imgs;
  }

  /** Cleaning twice is cleaning once. */
  lemma CleanForPdfIdempotent(form: FormData)
    ensures CleanForPdf(CleanForPdf(form)) == CleanForPdf(form)
  {
    var once := CleanForPdf(form);
    var twice := CleanForPdf(once);
    forall i | 0 <= i < |form.damages| ensures twice.damages[i] == once.damages[i] {
      CleanImagesIdempotent(form.damages[i].images);
    }
  }

  /** The cleaned record is valid exactly when the form is, leaving the type aside (cleaning fills it in). */
  lemma CleanForPdfValidity(form: FormData)
    ensures Validate(CleanForPdf(form)) <==>
      && !AllSpace(form.roomNumber)
      && !AllSpace(form.residentName)
      && (forall d :: d in form.damages ==> d.location != [])
      && |form.damages| > 0
    ensures Validate(form) ==> Validate(CleanForPdf(form))
  {
    var r := CleanForPdf(form);
    assert (forall d :: d in r.damages ==> DamageComplete(d)) <==> (forall d :: d in form.damages ==> d.location != []) by {
      if forall d :: d in form.damages ==> d.location != [] {
        forall d | d in r.damages ensures DamageComplete(d) {
          var i :| 0 <= i < |r.damages| && r.damages[i] == d;
          assert form.damages[i] in form.damages;
        }
      }
      if forall d :: d in r.damages ==> DamageComplete(d) {
        forall d | d in form.damages ensures d.location != [] {
          var i :| 0 <= i < |form.damages| && form.damages[i] == d;
          assert r.damages[i] in r.damages;
        }
      }
    }
  }

  /** What the collection loop yields for one image of a damage. */
  function ConvertOne(img: DamageImage, damageId: string, convert: FileRef -> Option<string>): seq<ProcessedImage> {
    if img.file.Some? && convert(img.file.value).Some? then [ProcessedImage(img.id, damageId, convert(img.file.value).value)] else []
  }

  /** What the collection loop yields for a list of images of a damage, in order. */
  function ConvertAll(imgs: seq<DamageImage>, damageId: string, convert: FileRef -> Option<string>): seq<ProcessedImage>
    decreases |imgs|
  {
    if |imgs| == 0 then [] else ConvertAll(imgs[..|imgs| - 1], damageId, convert) + ConvertOne(imgs[|imgs| - 1], damageId, convert)
  }

  lemma {:induction false} ConvertAllAppend(a: seq<DamageImage>, b: seq<DamageImage>, damageId: string, convert: FileRef -> Option<string>)
    ensures ConvertAll(a + b, damageId, convert) == ConvertAll(a, damageId, convert) + ConvertAll(b, damageId, convert)
    decreases |b|
  {
    if |b| == 0 {
      assert a + b == a;
    } else {
      var front, last := b[..|b| - 1], b[|b| - 1];
      assert b == front + [last];
      assert a + b == (a + front) + [last];
      var x, y, z := ConvertAll(a, damageId, convert), ConvertAll(front, damageId, convert), ConvertOne(last, damageId, convert);
      ConvertAllAppend(a, front, damageId, convert);
      ConvertAllSnoc(a + front, last, damageId, convert);
      ConvertAllSnoc(front, last, damageId, convert);
      ConcatAssociates(x, y, z);
    }
  }

  /** Concatenation associates. */
  lemma ConcatAssociates<T>(x: seq<T>, y: seq<T>, z: seq<T>)
    ensures (x + y) + z == x + (y + z)
  {
  }

  /** One more image adds what it converts to at the end. */
  lemma ConvertAllSnoc(imgs: seq<DamageImage>, img: DamageImage, damageId: string, convert: FileRef -> Option<string>)
    ensures ConvertAll(imgs + [img], damageId, convert) == ConvertAll(imgs, damageId, convert) + ConvertOne(img, damageId, convert)
  {
    assert (imgs + [img])[..|imgs + [img]| - 1] == imgs;
  }

  /** The loop over a damage's first `n` images is `ConvertAll` of them. */
  lemma {:induction false} ConvertedUpToAll(d: DamageDetail, convert: FileRef -> Option<string>, n: nat)
    requires n <= |d.images|
    ensures HtmlPdf.ConvertedUpTo(d, convert, n) == ConvertAll(d.images[..n], d.id, convert)
  {
    if n > 0 {
      ConvertedUpToAll(d, convert, n - 1);
      assert d.images[..n][..n - 1] == d.images[..n - 1];
    }
  }

  /** Dropping the images without a file and clearing previews loses nothing the generator would have converted. */
  lemma {:induction false} CleanImagesConvertAlike(imgs: seq<DamageImage>, damageId: string, convert: FileRef -> Option<string>)
    ensures ConvertAll(CleanImages(imgs), damageId, convert) == ConvertAll(imgs, damageId, convert)
    decreases |imgs|
  {
    if |imgs| > 0 {
      var front, last := imgs[..|imgs| - 1], imgs[|imgs| - 1];
      var kept := if last.file.Some? then [last.(preview := "")] else [];
      assert imgs == front + [last];
      CleanImagesSnoc(front, last);
      ConvertAllSnoc(front, last, damageId, convert);
      CleanImagesConvertAlike(front, damageId, convert);
      ConvertAllAppend(CleanImages(front), kept, damageId, convert);
      if last.file.Some? {
        ConvertAllSnoc([], last.(preview := ""), damageId, convert);
        assert [] + [last.(preview := "")] == kept;
      }
    }
  }

  /**
   * The generator collects the same processed images from the cleaned record
   * as it would from the form as entered: cleaning drops only images the
   * collection loop skips anyway.
   */
  lemma CleanForPdfCollectsAlike(form: FormData, convert: FileRef -> Option<string>)
    ensures HtmlPdf.Collected(CleanForPdf(form).damages, convert) == HtmlPdf.Collected(form.damages, convert)
  {
    var ds := form.damages;
    var cs := CleanForPdf(form).damages;
    forall i | 0 <= i < |ds| ensures HtmlPdf.Converted(cs[i], convert) == HtmlPdf.Converted(ds[i], convert) {
      CleanDamageConvertsAlike(ds[i], convert);
    }
    CollectedAlike(cs, ds, convert, |ds|);
  }

  /** Two damage lists whose damages convert alike, position by position, collect alike. */
  lemma {:induction false} CollectedAlike(cs: seq<DamageDetail>, ds: seq<DamageDetail>, convert: FileRef -> Option<string>, n: nat)
    requires n <= |cs| == |ds|
    requires forall i :: 0 <= i < |ds| ==> HtmlPdf.Converted(cs[i], convert) == HtmlPdf.Converted(ds[i], convert)
    ensures HtmlPdf.CollectedUpTo(cs, convert, n) == HtmlPdf.CollectedUpTo(ds, convert, n)
  {
    if n > 0 {
      CollectedAlike(cs, ds, convert, n - 1);
    }
  }

  /** One damage: cleaning keeps what the generator converts. */
  lemma CleanDamageConvertsAlike(d: DamageDetail, convert: FileRef -> Option<string>)
    ensures HtmlPdf.Converted(CleanDamage(d), convert) == HtmlPdf.Converted(d, convert)
  {
    var c := CleanDamage(d);
    ConvertedUpToAll(d, convert, |d.images|);
    ConvertedUpToAll(c, convert, |c.images|);
    assert d.images[..|d.images|] == d.images;
    assert c.images[..|c.images|] == c.images;
    CleanImagesConvertAlike(d.images, d.id, convert);
  }

  /** The name the report is downloaded under. */
  function DownloadName(roomNumber: string): (name: string)
    ensures |name| == |roomNumber| + 18
    ensures name[..14] == "Damage_Report_" && name[|name| - 4..] == ".pdf"
    ensures name[14..|name| - 4] == roomNumber
  {
    "Damage_Report_" + roomNumber + ".pdf"
  }

  /** Different room numbers are downloaded under different names. */
  lemma DownloadNameInjective(a: string, b: string)
    requires DownloadName(a) == DownloadName(b)
    ensures a == b
  {
    var n := DownloadName(a);
    assert a == n[14..|n| - 4];
  }
}

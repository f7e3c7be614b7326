# Earthquake damage report — a verified model

This project models the core of a small web application. A resident or a
building inspector fills in a form about a condominium unit: room number,
resident's name, owner or renter, and a list of damages. Each damage has a
type, a room, a location, a description and uploaded photos. The
application then produces a PDF report. There are two generators.

- **The React-PDF generator** (`reactPdf`) writes an information page. Then,
  for every damage, it writes a main page holding the first photo, and
  overflow pages holding the other photos four at a time. Every page has a
  footer "หน้า n / total".
- **The HTML generator** (`htmlToPdf`) first converts every uploaded photo to
  a data URL. It then renders header, section title, damages and signature as
  canvas blocks, and stacks them onto A4 pages with a Y cursor. It breaks the
  page before a block that would run past the bottom margin, and before every
  damage after the first.

The form logic lives in `App.tsx`:
- validation;
- the reducers that edit the form (text fields, residence type, add, update
  and delete damages, add and delete photos);
- the clean-up of the record before generation;
- the download name.

`roomData.ts` holds the catalogue of rooms 101–110, 201–210 and 301–310 and
the room-number search. `formatDateForInput` renders a date as `YYYY-MM-DD`.

Modules, one per source file:

| module | file | models |
|---|---|---|
| `Wrappers` | `wrappers.dfy` | `Option` |
| `Text` | `text.dfy` | the JavaScript string built-ins the code uses: `String(n)`, `padStart`, `trim`, `toLowerCase`, `includes` |
| `Types` | `types.dfy` | the records of `types.ts`, and the per-damage image selection both generators use |
| `ReactPdf` | `react_pdf.dfy` | the React-PDF generator as written: pages, captions, printed numbers, labels, file name |
| `Planner` | `planner.dfy` | the reference page plan (every page numbered by position, the true total) and how the generator compares with it |
| `HtmlPdf` | `html_pdf.dfy` | the HTML generator: the image collection loop (a method), the cursor pagination (a method over a specification function), labels |
| `App` | `app.dfy` | validation, the form reducers as functions from the old record to the new, cleaning, the download name |
| `RoomData` | `room_data.dfy` | the catalogue (a method with the source's two nested loops), lookup and filtering |
| `DateInput` | `date_input.dfy` | `formatDateForInput`, and a reader for its output used to state the round trip |

Values versus state:
- The React state updates in `App.tsx` are `setFormData(prev => …)`
  callbacks that build a new record from the old one. They are modelled as
  functions.
- The two loops that update variables step by step are modelled as methods
  with loop invariants, each proved equal to a specification function:
  - the image collection loop of the HTML generator;
  - the `currentY` / `currentPage` pagination of the HTML generator;
  - plus `generateRoomNumbers`.

## Model

| member | source | states |
|---|---|---|
| Types.ImagesOf | src/utils/reactPdfGenerator.tsx:524-526 | the images selected for a damage all name that damage, and are no more than the input |
| Types.ImagesOfMembers | src/utils/htmlToPdfGenerator.ts:365 | the selection holds exactly the processed images naming the damage |
| Types.ImagesOfAppend | src/utils/htmlToPdfGenerator.ts:365 | selecting one damage's images distributes over concatenation of the processed list |
| Types.ImagesOfStep | src/utils/htmlToPdfGenerator.ts:36-54 | pushing another damage's images leaves a damage's selection unchanged; pushing its own extends it |
| Types.ImagesOfWhole | src/utils/htmlToPdfGenerator.ts:365 | a list of only one damage's images selects itself |
| Types.ImagesOfNone | src/utils/htmlToPdfGenerator.ts:365 | a list with none of a damage's images selects nothing |
| Types.ResidenceLabel | src/utils/reactPdfGenerator.tsx:298 | "เจ้าของห้อง" exactly for an owner, "ผู้เช่า" for everything else (the same test at htmlToPdfGenerator.ts:273) |
| Text.NatToString | src/utils/roomData.ts:15 | `String(n)` is at least one decimal digit and reads back as `n` |
| Text.NatToStringLength | src/utils/cn.ts:25-29 | `String(n)` has one, two, three or four digits exactly when `n` is below 10, 100, 1000, 10000: no leading zeros |
| Text.IntToString | src/utils/cn.ts:29 | `String(x)` of a negative integer is a minus sign before the digits of its magnitude |
| Text.PadStart | src/utils/roomData.ts:15 | `padStart` keeps the string as its suffix, fills only the front with the pad, and yields at least the width |
| Text.PaddedTwoDigits | src/utils/cn.ts:25-26 | below 100, padding to two with `0` gives the tens digit and then the units digit |
| Text.TrimStart | src/App.tsx:54-55 | the result is a suffix of the input, everything cut is white space, and it does not start with white space |
| Text.TrimEnd | src/App.tsx:54-55 | the result is a prefix of the input, everything cut is white space, and it does not end with white space |
| Text.Trim | src/App.tsx:54-55 | `trim()` is the slice of the string left once the white space at both ends is cut: empty exactly when the string is all white space, and otherwise neither end is white space |
| Text.LowerChar | src/utils/roomData.ts:38-40 | an upper-case ASCII letter becomes its own lower-case letter; every other character is kept |
| Text.ToLower | src/utils/roomData.ts:38-40 | lower-casing keeps the length and maps each character independently |
| Text.Includes | src/utils/roomData.ts:40 | `includes` holds exactly when the needle occurs at some index |
| ReactPdf.Captions | src/utils/reactPdfGenerator.tsx:488-494 | captions number the images consecutively from the given first number, in order |
| ReactPdf.CaptionsAppend | src/utils/reactPdfGenerator.tsx:488-494 | captioning two runs one after the other, the second from where the first stops, is captioning both at once |
| ReactPdf.DamageImages | src/utils/reactPdfGenerator.tsx:524-526 | a damage's image sources are the data URLs of its processed images, in input order |
| ReactPdf.MainImage | src/utils/reactPdfGenerator.tsx:350-446 | the main page shows an image exactly when the first image exists and is non-empty; it is that image, captioned 1 |
| ReactPdf.OverflowPagesFrom | src/utils/reactPdfGenerator.tsx:465-505 | from any index, the overflow pages are one per multiple of four: the next batch of up to four images, captioned from `4b + 2`, printing `pageNumber + b + 1` |
| ReactPdf.OverflowPageAt | src/utils/reactPdfGenerator.tsx:465-505 | a damage with `r` remaining images gets `ceil(r / 4)` overflow pages; page `j` holds images `4j .. 4j+3` and prints `pageNumber + j + 1` |
| ReactPdf.OverflowPagesStartBatch | src/utils/reactPdfGenerator.tsx:467-471 | at a multiple of four the mapping emits a page for the next four images |
| ReactPdf.OverflowPagesSkip | src/utils/reactPdfGenerator.tsx:467-504 | between multiples of four the mapping emits nothing |
| ReactPdf.BatchThenRest | src/utils/reactPdfGenerator.tsx:488-494 | captioning one batch and then everything after it equals captioning the whole run |
| ReactPdf.OverflowImages | src/utils/reactPdfGenerator.tsx:465-505 | the overflow pages from an index carry the remaining images from the next multiple of four, in order, with consecutive captions |
| ReactPdf.AllOverflowImages | src/utils/reactPdfGenerator.tsx:465-505 | all overflow pages together carry every remaining image exactly once, captioned from 2 |
| ReactPdf.ImagesOnPagesAppend | src/utils/reactPdfGenerator.tsx:518-541 | the images of a document split at any page are the images of the two parts |
| ReactPdf.DamagePagesShape | src/utils/reactPdfGenerator.tsx:334-508 | a damage with `k` images gets `1 + ceil(max(0, k-1) / 4)` pages: the main page numbered `pageNumber`, then overflow pages of one to four images |
| ReactPdf.DamagePagesImages | src/utils/reactPdfGenerator.tsx:350-505 | when the first image is present, a damage's pages show all its images exactly once, in order, captioned 1 to `k` |
| ReactPdf.OverflowPageNumberExceedsTotal | src/utils/reactPdfGenerator.tsx:500-536 | as written: damage A with no images and B with two or more yield at least four pages, all printing total 3, the first overflow page printing 4 |
| ReactPdf.OverflowPageNumberCollides | src/utils/reactPdfGenerator.tsx:500-535 | as written: damage A with two images and B with none print page 3 twice, on A's overflow page and on B's main page |
| ReactPdf.Filename | src/utils/reactPdfGenerator.tsx:547 | the file name starts with the project name and `_`, ends with `.pdf`, and is as long as its three parts plus the separators and extension |
| ReactPdf.FilenameDeterminesHeader | src/utils/reactPdfGenerator.tsx:547 | if project name and floor contain no `_`, equal file names mean equal project name, floor and room number |
| ReactPdf.SplitAtFirstSeparator | src/utils/reactPdfGenerator.tsx:547 | two strings cut at their first `_` have equal heads and equal tails |
| ReactPdf.TitleTypeLabel | src/utils/reactPdfGenerator.tsx:374-378 | the title shows "อื่นๆ" exactly for a type other than water, electric and structural, and the structural label exactly for structural |
| ReactPdf.DetailTypeLabel | src/utils/reactPdfGenerator.tsx:398-405 | the detail row agrees with the title except for water, which it labels differently |
| ReactPdf.RoomLabel | src/utils/reactPdfGenerator.tsx:383-396 | a room `other` with free text shows that text; "อื่นๆ" appears exactly for an unknown tag other than storage and balcony, or `other` whose text is empty or itself "อื่นๆ" |
| ReactPdf.RoomRow | src/utils/reactPdfGenerator.tsx:383-396 | the room row appears exactly when a room is set, with that room's label |
| ReactPdf.StructuralAreaLabel | src/utils/reactPdfGenerator.tsx:412-419 | an area `other` with free text shows that text; an unknown area shows "อื่นๆ" |
| ReactPdf.StructuralAreaRow | src/utils/reactPdfGenerator.tsx:408-423 | the area row appears exactly for a structural damage whose area is set, with that area's label |
| Planner.PagesForDamage | src/utils/reactPdfGenerator.tsx:350-354 | a damage needs at least one page, and exactly one when it has at most one image |
| Planner.DamagePageCountBound | src/utils/reactPdfGenerator.tsx:516-541 | the damages need at least one page each, and exactly that many exactly when none has two images or more |
| Planner.Batches | src/utils/reactPdfGenerator.tsx:465-505 | the reference split of the remaining images has `ceil(r / 4)` batches |
| Planner.BatchSizes | src/utils/reactPdfGenerator.tsx:488 | each reference batch holds one to four images |
| Planner.Numbered | src/utils/reactPdfGenerator.tsx:449 | positional numbering: page `p` prints `p + 1` and the number of pages |
| Planner.DamageBodiesLength | src/utils/reactPdfGenerator.tsx:350-354 | the planned pages of a damage are as many as `PagesForDamage` counts |
| Planner.BodiesFromLength | src/utils/reactPdfGenerator.tsx:524-540 | the planned pages of the damages are as many as the page count adds up |
| Planner.Plan | src/utils/reactPdfGenerator.tsx:516-541 | the corrected document: its length is the true page count, its numbers run from 1 by position with that count as total, and it opens on the information page |
| Planner.OverflowLayoutAgrees | src/utils/reactPdfGenerator.tsx:465-505 | the generator's overflow pages hold exactly the reference batches |
| Planner.DamagePagesBodies | src/utils/reactPdfGenerator.tsx:334-508 | the generator's pages of one damage hold exactly the planned pages for it |
| Planner.DamagesLayoutAgrees | src/utils/reactPdfGenerator.tsx:524-540 | the generator's damage pages hold exactly the planned damage pages |
| Planner.LayoutAgrees | src/utils/reactPdfGenerator.tsx:516-541 | the generator lays out exactly the planned pages, in order; only printed numbers can differ |
| Planner.SingleImageDamages | src/utils/reactPdfGenerator.tsx:535-536 | with at most one image per damage, damage `i` takes one page, printing `i + 2` |
| Planner.WrittenNumberingCorrectIff | src/utils/reactPdfGenerator.tsx:500-536 | the printed numbers run from 1 to a total equal to the page count if and only if no damage has two images or more |
| Planner.WrittenMatchesPlanIff | src/utils/reactPdfGenerator.tsx:516-541 | the generator's document equals the corrected plan if and only if no damage has two images or more |
| HtmlPdf.ConvertedUpTo | src/utils/htmlToPdfGenerator.ts:39-52 | the records for a damage's first `n` images all name that damage and are at most `n` |
| HtmlPdf.ConvertedUpToMembers | src/utils/htmlToPdfGenerator.ts:39-52 | a record comes out for exactly those images that have a file and convert |
| HtmlPdf.CollectImages | src/utils/htmlToPdfGenerator.ts:36-54 | the loop pushes each converted image of each damage, damage after damage, image after image, skipping failures |
| HtmlPdf.CollectedUpToOf | src/utils/htmlToPdfGenerator.ts:36-54 | after the first `n` damages, a damage's selection is its own converted images if it came before, nothing otherwise |
| HtmlPdf.CollectedUpToStep | src/utils/htmlToPdfGenerator.ts:36-54 | collecting one more damage adds its converted images to its own id's selection and nothing to any other id's |
| HtmlPdf.EachDamageShowsOwnImages | src/utils/htmlToPdfGenerator.ts:365-383 | with distinct ids, every damage item shows exactly its own converted images, in order |
| HtmlPdf.PaginateReport | src/utils/htmlToPdfGenerator.ts:510-626 | the drawing loop places the same blocks and ends on the same page as the layout function |
| HtmlPdf.PlaceBlockDraws | src/utils/htmlToPdfGenerator.ts:578-598 | a checked block goes on the current page exactly when it fits above the bottom margin, else at the top of a new page; the cursor then moves below it |
| HtmlPdf.DamageStepPage | src/utils/htmlToPdfGenerator.ts:553-598 | each damage after the first starts a new page, and one taller than an empty page breaks once more |
| HtmlPdf.DamageStepDraws | src/utils/htmlToPdfGenerator.ts:553-598 | a damage block keeps the drawing invariant (pages never go down, blocks below the top margin, fitting blocks above the bottom margin) |
| HtmlPdf.AfterDamagesBlocks | src/utils/htmlToPdfGenerator.ts:553-599 | the damages add one block each, with their own heights, after the blocks already drawn |
| HtmlPdf.AfterDamagesDrawn | src/utils/htmlToPdfGenerator.ts:553-599 | drawing all damages keeps the drawing invariant |
| HtmlPdf.AfterDamagesPrefix | src/utils/htmlToPdfGenerator.ts:553-599 | the blocks for the first `j` damages are the first blocks for all of them |
| HtmlPdf.AfterDamagesFirstPage | src/utils/htmlToPdfGenerator.ts:578-588 | the first damage stays on the current page when it fits, otherwise it goes to the next |
| HtmlPdf.AfterDamagesNextPage | src/utils/htmlToPdfGenerator.ts:553-588 | damage `i` after the first begins one page after damage `i - 1`, or two when it is taller than an empty page |
| HtmlPdf.AfterDamagesPages | src/utils/htmlToPdfGenerator.ts:553-588 | the same, for every damage after the first at once |
| HtmlPdf.DrawnBounds | src/utils/htmlToPdfGenerator.ts:534-598 | under the drawing invariant, pages never decrease from one block to any later one, every block is below the top margin, and every fitting checked block ends above the bottom margin |
| HtmlPdf.SignatureDraws | src/utils/htmlToPdfGenerator.ts:609-626 | the signature is placed like a checked block, on the current page if it fits, otherwise on a new one |
| HtmlPdf.LayoutShape | src/utils/htmlToPdfGenerator.ts:510-634 | the report is the header at the top of page 1, the section title, one block per damage and the signature; the final page count is the signature's page |
| HtmlPdf.LayoutBounds | src/utils/htmlToPdfGenerator.ts:520-626 | in the whole report, pages never decrease, every block is below the top margin, and every fitting checked block ends above the bottom margin |
| HtmlPdf.FinalPageAtLeastDamages | src/utils/htmlToPdfGenerator.ts:553-558 | the report ends on page `max(1, number of damages)` or later |
| HtmlPdf.TallDamageLeavesBlankPage | src/utils/htmlToPdfGenerator.ts:553-588 | a damage after the first that is taller than an empty page leaves an empty page in front of it |
| HtmlPdf.DamageTypeLabel | src/utils/htmlToPdfGenerator.ts:297-298 | the title reads "อื่นๆ" exactly for types other than water and electric |
| HtmlPdf.TypeLabelsAgree | src/utils/htmlToPdfGenerator.ts:297-298 | the two generators title a damage alike exactly when it is not structural |
| HtmlPdf.RoomLabel | src/utils/htmlToPdfGenerator.ts:318-321 | the room row reads "อื่นๆ" exactly for `other` and unknown room tags |
| HtmlPdf.RoomLabelsAgree | src/utils/htmlToPdfGenerator.ts:318-321 | the two generators name a room alike except a free-text `other` room and the storage and balcony tags |
| HtmlPdf.RoomRow | src/utils/htmlToPdfGenerator.ts:304-326 | the room row appears exactly when a room is set, with that room's label |
| HtmlPdf.RoomRowsAgree | src/utils/htmlToPdfGenerator.ts:304-326 | with no room neither generator shows a room row; with one, the two rows agree exactly where the room labels agree |
| HtmlPdf.LocationText | src/utils/htmlToPdfGenerator.ts:339 | the location row is never empty: the location as typed, or `-` |
| App.ValidationErrors | src/App.tsx:53-56 | a required field is flagged exactly when it trims to nothing |
| App.Validate | src/App.tsx:52-69 | the form is valid exactly when room number and name are not blank, there is a damage, and each damage has a location and a type |
| App.TextChange | src/App.tsx:71-83 | only the named field changes; a required field's flag becomes "blank after trim", the other flag is kept |
| App.TextChangeKeepsOthers | src/App.tsx:71-75 | a text change leaves every other text field unchanged |
| App.TextChangeFlagsAgree | src/App.tsx:71-83 | the flag a text change sets equals the one validation would compute for the new record |
| App.SetResidenceType | src/App.tsx:85-90 | only the residence type changes |
| App.NewDamage | src/App.tsx:93-99 | a new damage has type `other` and no room, location, description or images |
| App.AddDamage | src/App.tsx:92-105 | one new damage is appended; the damages before it and the rest of the record are unchanged |
| App.AddedDamageBlocksValidation | src/App.tsx:92-105 | right after adding a damage the form is invalid, since the new damage has no location |
| App.AddDamageKeepsIdsDistinct | src/App.tsx:92-105 | with a fresh id, damage ids stay distinct |
| App.Merge | src/App.tsx:111 | `{...damage, ...patch}`: for each of the nine fields, the patch's value when the patch has it, else the damage's |
| App.MergeProperties | src/App.tsx:111 | merging a patch twice is merging it once; the empty patch changes nothing |
| App.UpdateDamage | src/App.tsx:107-114 | the damages with that id get the patch merged; length, order and every other damage and field stay |
| App.UpdateDamageIdempotent | src/App.tsx:107-114 | the same update twice is the update once; an empty update is no change |
| App.TypeChangePatch | src/components/DamageForm.tsx:32-34 | ticking a type sets it, unticking sets `other`; the patch touches nothing else |
| App.TypeChangeKeepsType | src/components/DamageForm.tsx:32-34 | after a type change the damage always has a type |
| App.WithoutDamage | src/App.tsx:129 | filtering never lengthens the list |
| App.WithoutDamageMembers | src/App.tsx:129 | the filter keeps exactly the damages with another id |
| App.WithoutDamageAppend | src/App.tsx:129 | the filter distributes over concatenation |
| App.WithoutAbsentDamage | src/App.tsx:129 | filtering an id no damage carries keeps the list |
| App.DeleteDamage | src/App.tsx:116-131 | no damage with that id remains, and the rest of the record is unchanged |
| App.OthersLackId | src/App.tsx:116-131 | with distinct ids, no other damage carries a given damage's id |
| App.WithoutOnlyDamage | src/App.tsx:129 | filtering out the id of a damage no other entry carries leaves exactly the entries around it |
| App.DeleteDamageRemovesOne | src/App.tsx:116-131 | with distinct ids, deleting damage `i` removes exactly entry `i` and keeps the order |
| App.DeleteUndoesAdd | src/App.tsx:92-131 | deleting a damage just added under a fresh id restores the record |
| App.NewImages | src/App.tsx:135-139 | one image per file, in order, each with its file, fresh id and preview URL |
| App.AddDamageImages | src/App.tsx:134-149 | the new images go after the existing ones, on the damages with that id only; the rest is unchanged |
| App.WithoutImage | src/App.tsx:165 | filtering never lengthens the image list |
| App.WithoutImageMembers | src/App.tsx:165 | the filter keeps exactly the images with another id |
| App.WithoutImageAppend | src/App.tsx:165 | the filter distributes over concatenation |
| App.WithoutAbsentImage | src/App.tsx:165 | filtering an id no image carries keeps the list |
| App.DeleteDamageImage | src/App.tsx:151-176 | the image leaves the damages with that id; their other images and all other damages and fields stay |
| App.DeleteImageUndoesAdd | src/App.tsx:134-176 | deleting an image just added under an id that damage did not use restores the record |
| App.SameButImagesValidity | src/App.tsx:52-69 | validation does not depend on images |
| App.ImageEditsKeepValidity | src/App.tsx:134-176 | adding or deleting images never changes whether the form is valid |
| App.CleanImages | src/App.tsx:202-207 | the kept images all have a file and an empty preview, and are no more than before |
| App.CleanDamage | src/App.tsx:195-208 | a missing type becomes `other`; every other field except the images is unchanged |
| App.CleanForPdf | src/App.tsx:192-210 | the header is unchanged and each damage is cleaned, in order |
| App.CleanImagesIdempotent | src/App.tsx:202-207 | cleaning clean images changes nothing |
| App.CleanImagesAppend | src/App.tsx:202-207 | cleaning distributes over concatenation |
| App.CleanForPdfIdempotent | src/App.tsx:192-210 | cleaning twice is cleaning once |
| App.CleanForPdfValidity | src/App.tsx:178-210 | the cleaned record is valid exactly when the form would be if types were ignored; a valid form stays valid |
| App.ConvertAllAppend | src/utils/htmlToPdfGenerator.ts:39-52 | converting two lists of images is converting each, one after the other |
| App.ConvertedUpToAll | src/utils/htmlToPdfGenerator.ts:39-52 | the collection loop over a damage's first `n` images converts exactly those images |
| App.CleanImagesConvertAlike | src/App.tsx:202-207 | cleaning drops only images the collection loop skips anyway, so the converted images are the same |
| App.CleanDamageConvertsAlike | src/App.tsx:195-208 | a cleaned damage converts to the same records as the damage |
| App.CollectedAlike | src/utils/htmlToPdfGenerator.ts:36-54 | damage lists that convert alike position by position collect alike |
| App.CleanForPdfCollectsAlike | src/App.tsx:192-210 | the generator collects the same processed images from the cleaned record as from the form |
| App.DownloadName | src/App.tsx:245 | the name is `Damage_Report_`, the room number, then `.pdf` |
| App.DownloadNameInjective | src/App.tsx:245 | different room numbers give different download names |
| RoomData.RoomNumberText | src/utils/roomData.ts:15 | a room number is at least three characters |
| RoomData.ThreeDigits | src/utils/roomData.ts:15 | three digits for a one-digit floor and a room below 100 |
| RoomData.RoomNumberDigits | src/utils/roomData.ts:15 | the floor, then the room's tens and units digits |
| RoomData.CatalogueUpTo | src/utils/roomData.ts:9-25 | `n` entries after `n` pushes |
| RoomData.Catalogue | src/utils/roomData.ts:28 | the catalogue has 30 rooms |
| RoomData.CatalogueUpToAt | src/utils/roomData.ts:13-22 | entry `k` of any prefix is room `k % 10 + 1` of floor `k / 10 + 1` |
| RoomData.CatalogueIndex | src/utils/roomData.ts:13-22 | room `room` of floor `floor` is pushed as entry `(floor - 1) * 10 + room - 1` |
| RoomData.GenerateStep | src/utils/roomData.ts:16-20 | each push extends the catalogue prefix by one |
| RoomData.GenerateRoomNumbers | src/utils/roomData.ts:9-25 | the nested loops build exactly the catalogue |
| RoomData.CatalogueAt | src/utils/roomData.ts:28 | entry `k` of the catalogue is the `k`-th generated room |
| RoomData.CatalogueShape | src/utils/roomData.ts:13-22 | every number has three digits, its floor digit first, with the loop's floor and building `A` |
| RoomData.CatalogueNumbersDistinct | src/utils/roomData.ts:9-28 | no two catalogue entries share a room number |
| RoomData.FindRoomByNumber | src/utils/roomData.ts:31-33 | nothing is found exactly when no room has that number; otherwise the first room with it |
| RoomData.FindCatalogueRoom | src/utils/roomData.ts:31-33 | looking up any catalogue number finds that room |
| RoomData.MatchingRooms | src/utils/roomData.ts:39-41 | the filtered rooms all match, and are no more than the catalogue |
| RoomData.MatchingRoomsMembers | src/utils/roomData.ts:39-41 | the filter keeps exactly the matching rooms |
| RoomData.MatchingRoomsAppend | src/utils/roomData.ts:39-41 | the filter keeps list order: filtering two lists one after the other is filtering each |
| RoomData.MatchingRoomsSingle | src/utils/roomData.ts:39-41 | one room is kept exactly when it matches |
| RoomData.FilterRoomsByInputAppend | src/utils/roomData.ts:36-42 | the search result is an in-order selection: searching two lists one after the other is searching each |
| RoomData.FilterRoomsByInputSingle | src/utils/roomData.ts:36-42 | one room is kept exactly when the input is empty or the room's number contains it, ignoring case |
| RoomData.FilterRoomsByInput | src/utils/roomData.ts:36-42 | an empty input gives the whole list; otherwise exactly the rooms whose number contains the input, ignoring case |
| RoomData.MatchingOnly | src/utils/roomData.ts:39-41 | when exactly one room matches, it alone is returned |
| RoomData.NoneMatching | src/utils/roomData.ts:39-41 | when no room matches, nothing is returned |
| RoomData.DigitsLower | src/utils/roomData.ts:40 | a room number of digits is its own lower case |
| RoomData.IncludesSameLength | src/utils/roomData.ts:40 | of two strings of equal length, one contains the other exactly when they are equal |
| RoomData.FilterByFullNumber | src/utils/roomData.ts:36-42 | typing a full catalogue number narrows the list to that room alone |
| DateInput.TwoDigits | src/utils/cn.ts:25-26 | below 100, the padded value is two digits reading back as the value |
| DateInput.PaddedValue | src/utils/cn.ts:25-26 | below 100, padding to two digits reads back as the number |
| DateInput.FormatDateForInput | src/utils/cn.ts:22-30 | no date gives the empty string; a date gives the year, `-`, and (for in-range fields) two month digits, `-`, two day digits |
| DateInput.FormatShape | src/utils/cn.ts:22-30 | for a four-digit year: ten characters, `-` at positions 4 and 7, digits elsewhere, month counted from 1 |
| DateInput.FormatJoins | src/utils/cn.ts:25-29 | for a non-negative year the value is the year's digits, the month and the day joined by `-` |
| DateInput.ParseDateInput | src/utils/cn.ts:29 | only a ten-character value with dashes at 4 and 7 reads back as a date |
| DateInput.ParseJoin | src/utils/cn.ts:29 | reading joined four-, two- and two-digit parts gives their values, the month counted from 1 |
| DateInput.ParseFormatRoundTrip | src/utils/cn.ts:22-30 | reading back a formatted date gives the date, for four-digit years and in-range months and days |
| DateInput.EmptyIsNoDate | src/utils/cn.ts:23 | the empty value for no date does not read as a date |

## Left out

- Rendering: React-PDF components and styles, the DOM, html2canvas, jsPDF, fonts and watermarks are not modelled. The React-PDF document is modelled as the list of pages it writes: each page's content, the images with their captions, and the printed page number and total.
- Block heights in the HTML generator are canvas pixel ratios. Here they are `nat` millimetres passed in as parameters. The page height is the A4 297 mm, and the margins are the source's 12 mm and 15 mm.
- Photo conversion (`FileReader`, which is asynchronous) is a `convert` function parameter. `None` stands for a conversion that threw and was caught.
- Not modelled, because they are I/O or browser state:
  - UUIDs;
  - object URLs and their revocation;
  - React state and effects;
  - notifications and loading flags;
  - the `isSafari` user-agent test;
  - downloading the file;
  - the language selector and translations.
- `formatDateToThai` and `cn` in `cn.ts` are not modelled: they are locale formatting and class-name merging from libraries. `formatDateForInput` takes the year, month and day the `Date` object reports. Time zones are not modelled.
- The UI components (`DamageForm`, `ImageUploader`, `ImageDetailForm` and the rest) are not modelled, except the type checkbox handler of `DamageForm.tsx`.
- Text.ToLower: lower-cases ASCII letters only, whereas JavaScript `toLowerCase` maps all of Unicode. Room numbers are digits, which both leave unchanged.
- The source types declare `location` and `description` as strings, but the clean-up step still guards against them being undefined (`damage.location || ''`). Here they are always strings, so that part of the clean-up is the identity.
- The generators read fields that `types.ts` does not declare: `projectName`, `floor`, `phoneNumber`, `email`, `room`, `otherRoom`, `structuralDamageArea` and `otherStructuralDamageArea`. They are modelled as fields of the records. An absent optional text is `""`. The JSX text nodes and the truthiness tests (`damage.otherRoom || …`, `if (damage.room)`) treat `""` the same as undefined; the file-name template literal does not (see `ReactPdf.Filename` below).
- ReactPdf.Filename: the header fields are strings, so an absent project name or floor is `""`, and for room `101` with neither set the model's name is `__101.pdf`. The template literal at `src/utils/reactPdfGenerator.tsx:547` prints an undefined field as the text `undefined`. The initial form state (`src/App.tsx:31-45`) sets neither field, so the source names that file `undefined_undefined_101.pdf`. The model does not capture the `undefined` text.
- Damage types other than `water`, `electric` and `other` appear in the generators (`structural`, and `crack` from the form). They are `Structural` and `UnknownType(tag)`. A missing or empty `type` is `None`.
- Damage and room tags: an empty `type` or `room` is `None`. The model assumes `UnknownType` and `UnknownRoom` never carry an empty tag or the tag of a named case (`UnknownType("water")`, `UnknownRoom("bedroom")`). Such values exist in the model, and for them the labels differ from what the source prints for the same string.
- DateInput.FormatDateForInput: an invalid `Date`, for which the source prints `NaN-NaN-NaN`, cannot be represented: a date is three integers.
- The optional `processedImages` field of `DamageDetail` is never read by the core and is not modelled. Neither is the second, older set of records in `types/index.ts`.
- Text.DigitsValue: is total, and reads any character as its code minus `'0'`. Every caller checks that the characters are digits first.

## Findings

| source | as written | input that shows it | evidently intended | confidence | as-written member | corrected member |
|---|---|---|---|---|---|---|
| src/utils/reactPdfGenerator.tsx:500-536 | Every page prints total `damages.length + 1`. Damage `i` prints `i + 2` however many overflow pages came before it. So overflow pages are not counted: numbers exceed the total and collide. | Damage A with no images and B with two: 4 pages printing "/ 3", the last printing 4. Damage A with two images and B with none: two pages printing 3. | Pages numbered by position, with total `1 + Σ (1 + ceil(max(0, k-1) / 4))` over the damages' image counts `k`. | high, not executed | ReactPdf.OverflowPageNumberExceedsTotal | Planner.Plan |
